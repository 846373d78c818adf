/** The chunk algebra: edits of a text, what applying one does and how one is moved
    past another.  Everything is generic in the element type, so the same functions
    act on texts of runes and on texts whose runes carry their provenance. */
module Chunks {
  const REMOVE: int := -1
  const ADD: int := 1

  /** An edit.  `op` is kept an integer, since the wire format admits other codes. */
  datatype Chunk<T> = Chunk(op: int, pos: int, text: seq<T>, len: int)

  function Min(a: int, b: int): int { if a < b then a else b }

  function Max(a: int, b: int): int { if a < b then b else a }

  predicate Valid<T>(c: Chunk<T>) {
    && (c.op == ADD || c.op == REMOVE)
    && 0 <= c.pos
    && 0 <= c.len
    && (c.op == ADD ==> c.len == |c.text|)
  }

  predicate ValidAll<T>(cs: seq<Chunk<T>>) {
    forall i | 0 <= i < |cs| :: Valid(cs[i])
  }

  /** The edits that can be applied without a slice out of range. */
  predicate Applicable<T>(c: Chunk<T>) {
    c.op == ADD || (c.op == REMOVE && 0 <= Max(c.pos, 0) + c.len)
  }

  predicate ApplicableAll<T>(cs: seq<Chunk<T>>) {
    forall i | 0 <= i < |cs| :: Applicable(cs[i])
  }

  predicate InBounds<T>(n: nat, c: Chunk<T>) {
    Valid(c) && if c.op == ADD then c.pos <= n else c.pos + c.len <= n
  }

  function Apply<T>(text: seq<T>, c: Chunk<T>): seq<T>
    requires Applicable(c)
  {
    var pos := Max(c.pos, 0);
    if c.op == ADD then
      if pos > |text| then text + c.text
      else if pos == 0 then c.text + text
      else text[..pos] + c.text + text[pos..]
    else if |text| == 0 || pos >= |text| then text
    else text[..pos] + text[Min(pos + c.len, |text|)..]
  }

  function ApplyAll<T>(text: seq<T>, cs: seq<Chunk<T>>): seq<T>
    requires ApplicableAll(cs)
    decreases |cs|
  {
    if cs == [] then text else ApplyAll(Apply(text, cs[0]), cs[1..])
  }

  /** Moves `op2` past `op1`, both made against the same text. */
  function Transform<T>(op1: Chunk<T>, op2: Chunk<T>): Chunk<T> {
    if op1.op == ADD then
      if op2.op == ADD then
        if op1.pos < op2.pos || op1.pos == op2.pos then op2.(pos := op2.pos + op1.len) else op2
      else
        if op1.pos <= op2.pos then op2.(pos := op2.pos + op1.len)
        else if op1.pos < op2.pos + op2.len then op2.(len := op2.len + op1.len)
        else op2
    else
      if op2.op == ADD then
        if op1.pos < op2.pos then op2.(pos := op2.pos - Min(op1.len, op2.pos - op1.pos)) else op2
      else
        var newPos := if op1.pos < op2.pos then op2.pos - Min(op1.len, op2.pos - op1.pos) else op2.pos;
        var overlapStart := Max(op1.pos, op2.pos);
        var overlapEnd := Min(op1.pos + op1.len, op2.pos + op2.len);
        op2.(pos := newPos, len := op2.len - Max(0, overlapEnd - overlapStart))
  }

  /** One edit moved past a whole log, oldest entry first. */
  function Through<T>(log: seq<Chunk<T>>, c: Chunk<T>): Chunk<T> {
    if log == [] then c else Through(log[1..], Transform(log[0], c))
  }

  /** Every edit of a message moved past the log, each one on its own. */
  function TransformAll<T>(log: seq<Chunk<T>>, cs: seq<Chunk<T>>): seq<Chunk<T>> {
    seq(|cs|, i requires 0 <= i < |cs| => Through(log, cs[i]))
  }

  function Flatten<T>(entries: seq<seq<T>>): seq<T> {
    if entries == [] then [] else entries[0] + Flatten(entries[1..])
  }

  // ---- the loops of the source, against the functions above ----

  datatype Verdict = Accepted | BadOp(at: nat) | NegativePos(at: nat) | NegativeLen(at: nat) | LenMismatch(at: nat)

  /** Accepts exactly the valid lists; otherwise reports the first invalid chunk. */
  method ValidateChunks<T>(cs: seq<Chunk<T>>) returns (v: Verdict)
    ensures v.Accepted? <==> ValidAll(cs)
    ensures !v.Accepted? ==> v.at < |cs| && ValidAll(cs[..v.at]) && !Valid(cs[v.at])
    ensures v.BadOp? ==> cs[v.at].op != ADD && cs[v.at].op != REMOVE
    ensures v.NegativePos? ==> cs[v.at].pos < 0
    ensures v.NegativeLen? ==> cs[v.at].len < 0
    ensures v.LenMismatch? ==> cs[v.at].op == ADD && cs[v.at].len != |cs[v.at].text|
  {
    for i := 0 to |cs|
      invariant forall j | 0 <= j < i :: Valid(cs[j])
    {
      var c := cs[i];
      if c.op != ADD && c.op != REMOVE { return BadOp(i); }
      if c.pos < 0 { return NegativePos(i); }
      if c.len < 0 { return NegativeLen(i); }
      if c.op == ADD && c.len != |c.text| { return LenMismatch(i); }
    }
    return Accepted;
  }

  method ApplyMultiple<T>(text: seq<T>, cs: seq<Chunk<T>>) returns (output: seq<T>)
    requires ApplicableAll(cs)
    ensures output == ApplyAll(text, cs)
  {
    output := text;
    for i := 0 to |cs|
      invariant ApplyAll(output, cs[i..]) == ApplyAll(text, cs)
    {
      assert cs[i..][1..] == cs[i + 1..];
      output := Apply(output, cs[i]);
    }
  }

  method TransformMultiple<T>(lastOps: seq<Chunk<T>>, cs: seq<Chunk<T>>) returns (transformed: seq<Chunk<T>>)
    ensures transformed == TransformAll(lastOps, cs)
  {
    transformed := [];
    for i := 0 to |cs|
      invariant |transformed| == i
      invariant forall k | 0 <= k < i :: transformed[k] == Through(lastOps, cs[k])
    {
      var op := cs[i];
      for j := 0 to |lastOps|
        invariant Through(lastOps[j..], op) == Through(lastOps, cs[i])
      {
        assert lastOps[j..][1..] == lastOps[j + 1..];
        op := Transform(lastOps[j], op);
      }
      transformed := transformed + [op];
    }
  }

  // ---- basic laws ----

  function Paste<T>(text: seq<T>, q: int, t: seq<T>): (r: seq<T>)
    requires 0 <= q <= |text|
    ensures |r| == |text| + |t|
  {
    text[..q] + t + text[q..]
  }

  function Cut<T>(text: seq<T>, a: int, b: int): (r: seq<T>)
    requires 0 <= a <= b <= |text|
    ensures |r| == |text| - (b - a)
  {
    text[..a] + text[b..]
  }

  /** Applying a valid edit, with the clamping made explicit. */
  lemma {:induction false} ApplyShape<T>(text: seq<T>, c: Chunk<T>)
    requires Valid(c)
    ensures c.op == ADD ==> Apply(text, c) == Paste(text, Min(c.pos, |text|), c.text)
    ensures c.op == REMOVE ==> Apply(text, c) == Cut(text, Min(c.pos, |text|), Min(c.pos + c.len, |text|))
  {
    assert text[..|text|] == text;
    assert text[|text|..] == [];
  }

  lemma {:induction false} ApplyAllConcat<T>(text: seq<T>, a: seq<Chunk<T>>, b: seq<Chunk<T>>)
    requires ApplicableAll(a) && ApplicableAll(b)
    ensures ApplicableAll(a + b)
    ensures ApplyAll(text, a + b) == ApplyAll(ApplyAll(text, a), b)
    decreases |a|
  {
    if a == [] {
      assert a + b == b;
    } else {
      assert (a + b)[1..] == a[1..] + b;
      ApplyAllConcat(Apply(text, a[0]), a[1..], b);
    }
  }

  lemma {:induction false} AppliedOne<T>(text: seq<T>, c: Chunk<T>)
    requires Valid(c)
    ensures ApplyAll(text, [c]) == Apply(text, c)
  {
    assert [c][1..] == [];
    assert ApplyAll(Apply(text, c), [c][1..]) == Apply(text, c);
  }

  lemma {:induction false} ThroughConcat<T>(a: seq<Chunk<T>>, b: seq<Chunk<T>>, c: Chunk<T>)
    ensures Through(a + b, c) == Through(b, Through(a, c))
  {
    if a == [] {
      assert a + b == b;
    } else {
      assert (a + b)[1..] == a[1..] + b;
      ThroughConcat(a[1..], b, Transform(a[0], c));
    }
  }

  /** Walking a log entry by entry is one transform against the flattened log. */
  lemma {:induction false} LogFolding<T>(a: seq<Chunk<T>>, b: seq<Chunk<T>>, m: seq<Chunk<T>>)
    ensures TransformAll(a + b, m) == TransformAll(b, TransformAll(a, m))
  {
    forall i | 0 <= i < |m| ensures TransformAll(a + b, m)[i] == TransformAll(b, TransformAll(a, m))[i] {
      ThroughConcat(a, b, m[i]);
    }
  }

  lemma {:induction false} FlattenConcat<T>(a: seq<seq<T>>, b: seq<seq<T>>)
    ensures Flatten(a + b) == Flatten(a) + Flatten(b)
  {
    if a == [] {
      assert a + b == b;
    } else {
      assert (a + b)[1..] == a[1..] + b;
      FlattenConcat(a[1..], b);
    }
  }

  ghost predicate SameIntent<T>(c: Chunk<T>, d: Chunk<T>) {
    d.op == c.op && d.text == c.text && (c.op == ADD ==> d.len == c.len)
  }

  lemma {:induction false} ThroughKeepsValid<T>(log: seq<Chunk<T>>, c: Chunk<T>)
    requires ValidAll(log) && Valid(c)
    ensures Valid(Through(log, c)) && SameIntent(c, Through(log, c))
  {
    if log != [] {
      assert Valid(log[0]);
      ThroughKeepsValid(log[1..], Transform(log[0], c));
    }
  }

  /** Validity is closed under transformation; types, texts and insertion lengths are kept. */
  lemma {:induction false} ValidityClosed<T>(log: seq<Chunk<T>>, m: seq<Chunk<T>>)
    requires ValidAll(log) && ValidAll(m)
    ensures |TransformAll(log, m)| == |m|
    ensures ValidAll(TransformAll(log, m))
    ensures forall i | 0 <= i < |m| :: SameIntent(m[i], TransformAll(log, m)[i])
  {
    forall i | 0 <= i < |m| ensures Valid(TransformAll(log, m)[i]) && SameIntent(m[i], TransformAll(log, m)[i]) {
      ThroughKeepsValid(log, m[i]);
    }
  }

  lemma {:induction false} FlattenValid<T>(entries: seq<seq<Chunk<T>>>)
    requires forall i | 0 <= i < |entries| :: ValidAll(entries[i])
    ensures ValidAll(Flatten(entries))
  {
    if entries != [] {
      FlattenValid(entries[1..]);
    }
  }

  /** Length of a text after one valid edit that fits it. */
  lemma {:induction false} ApplyInBoundsLength<T>(text: seq<T>, c: Chunk<T>)
    requires InBounds(|text|, c)
    ensures |Apply(text, c)| == if c.op == ADD then |text| + c.len else |text| - c.len
  {
    ApplyShape(text, c);
  }

  lemma {:induction false} TransformInBounds<T>(text: seq<T>, op: Chunk<T>, c: Chunk<T>)
    requires Valid(op) && InBounds(|text|, c)
    ensures InBounds(|Apply(text, op)|, Transform(op, c))
  {
    ApplyShape(text, op);
  }

  /** An edit in bounds at the base stays in bounds at every stage of any valid log, so
      applying it never clamps and changes the length by exactly its own. */
  lemma {:induction false} BoundsKept<T>(text: seq<T>, log: seq<Chunk<T>>, c: Chunk<T>)
    requires ValidAll(log) && InBounds(|text|, c)
    ensures forall k {:trigger log[..k]} | 0 <= k <= |log| ::
              InBounds(|ApplyAll(text, log[..k])|, Through(log[..k], c))
    ensures Valid(Through(log, c)) && SameIntent(c, Through(log, c))
    ensures var d := Through(log, c);
            var now := ApplyAll(text, log);
            |Apply(now, d)| == if d.op == ADD then |now| + d.len else |now| - d.len
  {
    forall k | 0 <= k <= |log| ensures InBounds(|ApplyAll(text, log[..k])|, Through(log[..k], c)) {
      StageInBounds(text, log[..k], c);
    }
    ThroughKeepsValid(log, c);
    assert log[..|log|] == log;
    ApplyInBoundsLength(ApplyAll(text, log), Through(log, c));
  }

  lemma {:induction false} StageInBounds<T>(text: seq<T>, log: seq<Chunk<T>>, c: Chunk<T>)
    requires ValidAll(log) && InBounds(|text|, c)
    ensures InBounds(|ApplyAll(text, log)|, Through(log, c))
    decreases |log|
  {
    if log != [] {
      TransformInBounds(text, log[0], c);
      StageInBounds(Apply(text, log[0]), log[1..], Transform(log[0], c));
    }
  }
}
