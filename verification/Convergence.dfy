/** Convergence of concurrent edits: the diamond with its two exceptions, the ladder of
    diamonds along a log, and whole messages carried past one edit. */
module Convergence {
  import opened Chunks

  predicate Tie<T>(a: Chunk<T>, b: Chunk<T>) {
    a.op == ADD && b.op == ADD && a.pos == b.pos
  }

  /** `a` inserts strictly inside the range that `b` removes. */
  predicate Splits<T>(a: Chunk<T>, b: Chunk<T>) {
    a.op == ADD && b.op == REMOVE && b.pos < a.pos < b.pos + b.len
  }

  predicate Clash<T>(a: Chunk<T>, b: Chunk<T>) {
    Tie(a, b) || Splits(a, b) || Splits(b, a)
  }

  /** The pairs of concurrent edits the theorems speak of: one of them fits the text. */
  predicate Comparable<T>(n: nat, a: Chunk<T>, b: Chunk<T>) {
    && Valid(a) && Valid(b)
    && (InBounds(n, a) || InBounds(n, b) || (a.op == REMOVE && b.op == REMOVE))
  }

  /** First `a`, then `b` moved past it. */
  function Via<T>(text: seq<T>, a: Chunk<T>, b: Chunk<T>): seq<T>
    requires Valid(a) && Valid(b)
  {
    Apply(Apply(text, a), Transform(a, b))
  }

  // ---- two removals ----

  /** Where position `x` ends up once `[a0, a1)` is gone. */
  function Collapse(a0: int, a1: int, x: int): int {
    if x <= a0 then x else if x <= a1 then a0 else x - (a1 - a0)
  }

  lemma {:induction false} CutTwice<T>(text: seq<T>, a0: int, a1: int, b0: int, b1: int)
    requires 0 <= a0 <= a1 <= |text| && 0 <= b0 <= b1 <= |text| && a0 <= b0
    ensures var c0, c1 := Collapse(a0, a1, b0), Collapse(a0, a1, b1);
            var d0, d1 := Collapse(b0, b1, a0), Collapse(b0, b1, a1);
            Cut(Cut(text, a0, a1), c0, c1) == Cut(Cut(text, b0, b1), d0, d1)
  {
    hide Cut;
    if a1 <= b0 {
      CutApart(text, a0, a1, b0, b1);
    } else {
      CutOverlapping(text, a0, a1, b0, b1);
    }
  }

  lemma {:induction false} CutApart<T>(text: seq<T>, a0: int, a1: int, b0: int, b1: int)
    requires 0 <= a0 <= a1 <= b0 <= b1 <= |text|
    ensures Cut(Cut(text, a0, a1), b0 - (a1 - a0), b1 - (a1 - a0)) == Cut(Cut(text, b0, b1), a0, a1)
  {
    assert Cut(Cut(text, a0, a1), b0 - (a1 - a0), b1 - (a1 - a0)) == text[..a0] + text[a1..b0] + text[b1..];
    assert Cut(Cut(text, b0, b1), a0, a1) == text[..a0] + text[a1..b0] + text[b1..];
  }

  lemma {:induction false} CutOverlapping<T>(text: seq<T>, a0: int, a1: int, b0: int, b1: int)
    requires 0 <= a0 <= b0 < a1 <= |text| && b0 <= b1 <= |text|
    ensures Cut(Cut(text, a0, a1), a0, Collapse(a0, a1, b1)) == Cut(Cut(text, b0, b1), a0, Collapse(b0, b1, a1))
  {
    var end := Max(a1, b1);
    assert Cut(Cut(text, a0, a1), a0, Collapse(a0, a1, b1)) == text[..a0] + text[end..];
    assert Cut(Cut(text, b0, b1), a0, Collapse(b0, b1, a1)) == text[..a0] + text[end..];
  }

  /** The range `b` removes once `a` has been applied. */
  lemma {:induction false} MovedRemoval<T>(n: nat, a: Chunk<T>, b: Chunk<T>)
    requires Valid(a) && Valid(b) && a.op == REMOVE && b.op == REMOVE
    ensures var a0, a1 := Min(a.pos, n), Min(a.pos + a.len, n);
            var m, c := n - (a1 - a0), Transform(a, b);
            && Valid(c) && c.op == REMOVE
            && Min(c.pos, m) == Collapse(a0, a1, Min(b.pos, n))
            && Min(c.pos + c.len, m) == Collapse(a0, a1, Min(b.pos + b.len, n))
  {
  }

  /** Concurrent removals always converge, in bounds or not. */
  lemma {:induction false} RemovalsConverge<T>(text: seq<T>, a: Chunk<T>, b: Chunk<T>)
    requires Valid(a) && Valid(b) && a.op == REMOVE && b.op == REMOVE
    ensures Via(text, a, b) == Via(text, b, a)
  {
    RemovalCuts(text, a, b);
    RemovalCuts(text, b, a);
    var n := |text|;
    var a0, a1 := Min(a.pos, n), Min(a.pos + a.len, n);
    var b0, b1 := Min(b.pos, n), Min(b.pos + b.len, n);
    if a0 <= b0 {
      CutTwice(text, a0, a1, b0, b1);
    } else {
      CutTwice(text, b0, b1, a0, a1);
    }
  }

  lemma {:induction false} RemovalCuts<T>(text: seq<T>, a: Chunk<T>, b: Chunk<T>)
    requires Valid(a) && Valid(b) && a.op == REMOVE && b.op == REMOVE
    ensures var n := |text|;
            var a0, a1 := Min(a.pos, n), Min(a.pos + a.len, n);
            var c0, c1 := Collapse(a0, a1, Min(b.pos, n)), Collapse(a0, a1, Min(b.pos + b.len, n));
            Via(text, a, b) == Cut(Cut(text, a0, a1), c0, c1)
  {
    hide Apply, Cut, Transform, Collapse;
    ApplyShape(text, a);
    MovedRemoval(|text|, a, b);
    ApplyShape(Apply(text, a), Transform(a, b));
  }

  // ---- two insertions ----

  lemma {:induction false} PasteTwice<T>(text: seq<T>, p: nat, s: seq<T>, q: nat, t: seq<T>)
    requires p <= q <= |text|
    ensures Paste(Paste(text, p, s), q + |s|, t) == Paste(Paste(text, q, t), p, s)
  {
    assert Paste(Paste(text, p, s), q + |s|, t) == text[..p] + s + text[p..q] + t + text[q..];
    assert Paste(Paste(text, q, t), p, s) == text[..p] + s + text[p..q] + t + text[q..];
  }

  /** Insertion `b` made by whoever saw `a` applied first. */
  lemma {:induction false} SecondInsertion<T>(text: seq<T>, a: Chunk<T>, b: Chunk<T>)
    requires Valid(a) && Valid(b) && a.op == ADD && b.op == ADD
    requires a.pos <= |text| || b.pos <= |text|
    ensures Via(text, a, b) ==
            Paste(Paste(text, Min(a.pos, |text|), a.text), Min(b.pos, |text|) + (if a.pos <= b.pos then a.len else 0), b.text)
  {
    hide Apply, Paste;
    ApplyShape(text, a);
    ApplyShape(Apply(text, a), Transform(a, b));
  }

  lemma {:induction false} InsertionsConverge<T>(text: seq<T>, a: Chunk<T>, b: Chunk<T>)
    requires Valid(a) && Valid(b) && a.op == ADD && b.op == ADD && a.pos < b.pos
    requires a.pos <= |text|
    ensures Via(text, a, b) == Via(text, b, a)
  {
    hide Apply, Paste, Cut, Via, Transform;
    SecondInsertion(text, a, b);
    SecondInsertion(text, b, a);
    PasteTwice(text, a.pos, a.text, Min(b.pos, |text|), b.text);
  }

  /** At equal positions the edit applied first comes first. */
  lemma {:induction false} TieShape<T>(text: seq<T>, a: Chunk<T>, b: Chunk<T>)
    requires Valid(a) && Valid(b) && Tie(a, b) && a.pos <= |text|
    ensures Via(text, a, b) == Paste(text, a.pos, a.text + b.text)
  {
    hide Apply, Via, Transform;
    SecondInsertion(text, a, b);
  }

  // ---- an insertion and a removal ----

  lemma {:induction false} PasteLeftOfCut<T>(text: seq<T>, q: nat, t: seq<T>, a: nat, b: nat)
    requires q <= a <= b <= |text|
    ensures Cut(Paste(text, q, t), a + |t|, b + |t|) == Paste(Cut(text, a, b), q, t)
  {
    assert Cut(Paste(text, q, t), a + |t|, b + |t|) == text[..q] + t + text[q..a] + text[b..];
    assert Paste(Cut(text, a, b), q, t) == text[..q] + t + text[q..a] + text[b..];
  }

  lemma {:induction false} PasteRightOfCut<T>(text: seq<T>, q: nat, t: seq<T>, a: nat, b: nat)
    requires a <= b <= q <= |text|
    ensures Cut(Paste(text, q, t), a, b) == Paste(Cut(text, a, b), q - (b - a), t)
  {
    assert Cut(Paste(text, q, t), a, b) == text[..a] + text[b..q] + t + text[q..];
    assert Paste(Cut(text, a, b), q - (b - a), t) == text[..a] + text[b..q] + t + text[q..];
  }

  lemma {:induction false} InsertThenRemove<T>(text: seq<T>, a: Chunk<T>, r: Chunk<T>)
    requires Valid(a) && Valid(r) && a.op == ADD && r.op == REMOVE && !Splits(a, r)
    requires InBounds(|text|, a) || InBounds(|text|, r)
    ensures var n := |text|;
            var q, r0, r1 := Min(a.pos, n), Min(r.pos, n), Min(r.pos + r.len, n);
            var d := if a.pos <= r.pos then a.len else 0;
            && r1 + d <= n + a.len
            && Via(text, a, r) == Cut(Paste(text, q, a.text), r0 + d, r1 + d)
  {
    hide Apply, Paste, Cut;
    ApplyShape(text, a);
    ApplyShape(Apply(text, a), Transform(a, r));
  }

  lemma {:induction false} RemoveThenInsert<T>(text: seq<T>, a: Chunk<T>, r: Chunk<T>)
    requires Valid(a) && Valid(r) && a.op == ADD && r.op == REMOVE
    requires InBounds(|text|, a) || InBounds(|text|, r)
    ensures var n := |text|;
            var q, r0, r1 := Min(a.pos, n), Min(r.pos, n), Min(r.pos + r.len, n);
            Via(text, r, a) == Paste(Cut(text, r0, r1), Collapse(r0, r1, q), a.text)
  {
    hide Apply, Paste, Cut;
    ApplyShape(text, r);
    ApplyShape(Apply(text, r), Transform(r, a));
  }

  lemma {:induction false} InsertionRemovalConverge<T>(text: seq<T>, a: Chunk<T>, r: Chunk<T>)
    requires Valid(a) && Valid(r) && a.op == ADD && r.op == REMOVE && !Splits(a, r)
    requires InBounds(|text|, a) || InBounds(|text|, r)
    ensures Via(text, a, r) == Via(text, r, a)
  {
    hide Apply, Paste, Cut, Via, Transform;
    var n := |text|;
    var q, r0, r1 := Min(a.pos, n), Min(r.pos, n), Min(r.pos + r.len, n);
    InsertThenRemove(text, a, r);
    RemoveThenInsert(text, a, r);
    if a.pos <= r.pos {
      PasteLeftOfCut(text, q, a.text, r0, r1);
    } else {
      PasteRightOfCut(text, q, a.text, r0, r1);
    }
  }

  /** An insertion strictly inside a removal survives only when the removal comes first. */
  lemma {:induction false} SplitShape<T>(text: seq<T>, a: Chunk<T>, r: Chunk<T>)
    requires Valid(a) && Valid(r) && Splits(a, r) && a.pos <= |text|
    ensures var end := Min(r.pos + r.len, |text|);
            && Via(text, a, r) == Cut(text, r.pos, end)
            && Via(text, r, a) == Paste(Cut(text, r.pos, end), r.pos, a.text)
  {
    hide Apply;
    RemoveThenInsert(text, a, r);
    ApplyShape(text, a);
    ApplyShape(Apply(text, a), Transform(a, r));
  }

  // ---- the diamond ----

  lemma {:induction false} Diamond<T>(text: seq<T>, a: Chunk<T>, b: Chunk<T>)
    requires Comparable(|text|, a, b) && !Clash(a, b)
    ensures Via(text, a, b) == Via(text, b, a)
  {
    if a.op == REMOVE && b.op == REMOVE {
      RemovalsConverge(text, a, b);
    } else if a.op == ADD && b.op == ADD {
      if a.pos < b.pos { InsertionsConverge(text, a, b); } else { InsertionsConverge(text, b, a); }
    } else if a.op == ADD {
      InsertionRemovalConverge(text, a, b);
    } else {
      InsertionRemovalConverge(text, b, a);
    }
  }

  /** The exact condition under which two concurrent edits converge. */
  lemma {:induction false} DiamondExact<T>(text: seq<T>, a: Chunk<T>, b: Chunk<T>)
    requires Comparable(|text|, a, b)
    ensures Via(text, a, b) == Via(text, b, a) <==>
            && (Tie(a, b) ==> a.text + b.text == b.text + a.text)
            && (Splits(a, b) ==> a.text == [])
            && (Splits(b, a) ==> b.text == [])
  {
    hide Apply, Paste, Cut, Via, Transform;
    if Tie(a, b) {
      TieShape(text, a, b);
      TieShape(text, b, a);
      PasteInjective(text, a.pos, a.text + b.text, b.text + a.text);
    } else if Splits(a, b) {
      SplitShape(text, a, b);
      GrownCut(text, b.pos, Min(b.pos + b.len, |text|), a.text);
    } else if Splits(b, a) {
      SplitShape(text, b, a);
      GrownCut(text, a.pos, Min(a.pos + a.len, |text|), b.text);
    } else {
      Diamond(text, a, b);
    }
  }

  lemma {:induction false} PasteInjective<T>(text: seq<T>, q: nat, s: seq<T>, t: seq<T>)
    requires q <= |text| && |s| == |t|
    ensures Paste(text, q, s) == Paste(text, q, t) <==> s == t
  {
    assert Paste(text, q, s)[q..q + |s|] == s;
    assert Paste(text, q, t)[q..q + |t|] == t;
  }

  lemma {:induction false} GrownCut<T>(text: seq<T>, a: nat, b: nat, t: seq<T>)
    requires a <= b <= |text|
    ensures a <= |Cut(text, a, b)|
    ensures Paste(Cut(text, a, b), a, t) == Cut(text, a, b) <==> t == []
  {
    assert |Paste(Cut(text, a, b), a, t)| == |Cut(text, a, b)| + |t|;
  }

  // ---- both edits beyond the end ----

  /** When two orders agree although neither edit fits a text of length `n`; `a` inserts. */
  predicate AgreeBeyond<T(==)>(n: nat, a: Chunk<T>, b: Chunk<T>)
    requires Valid(a) && Valid(b) && a.op == ADD && a.pos > n && !InBounds(n, b)
  {
    if b.op == REMOVE then a.pos <= b.pos || a.text == [] || b.len == 0 || b.pos >= n + a.len
    else if a.pos == b.pos then a.text + b.text == b.text + a.text
    else if a.pos < b.pos then a.text + b.text == Paste(b.text, Min(a.pos - n, b.len), a.text)
    else b.text + a.text == Paste(a.text, Min(b.pos - n, a.len), b.text)
  }

  lemma {:induction false} AppendedPaste<T>(text: seq<T>, t: seq<T>, k: nat, s: seq<T>)
    requires k <= |t|
    ensures Paste(text + t, |text| + k, s) == text + Paste(t, k, s)
  {
  }

  lemma {:induction false} SamePrefix<T>(text: seq<T>, s: seq<T>, t: seq<T>)
    ensures text + s == text + t <==> s == t
  {
    assert (text + s)[|text|..] == s && (text + t)[|text|..] == t;
  }

  lemma {:induction false} LeftInsertionBeyond<T>(text: seq<T>, a: Chunk<T>, b: Chunk<T>)
    requires Valid(a) && Valid(b) && a.op == ADD && b.op == ADD && |text| < a.pos < b.pos
    ensures Via(text, a, b) == text + (a.text + b.text)
    ensures Via(text, b, a) == text + Paste(b.text, Min(a.pos - |text|, b.len), a.text)
  {
    AppendedTwice(text, a, b);
    AppendedPaste(text, b.text, Min(a.pos - |text|, b.len), a.text);
    ApplyShape(text + b.text, a);
    hide Paste, Apply;
    assert Apply(text, b) == text + b.text && Transform(b, a) == a;
  }

  lemma {:induction false} AppendedTwice<T>(text: seq<T>, a: Chunk<T>, b: Chunk<T>)
    requires Valid(a) && Valid(b) && a.op == ADD && b.op == ADD && |text| < a.pos < b.pos
    ensures Via(text, a, b) == text + (a.text + b.text)
    ensures Apply(text, b) == text + b.text
  {
    assert (text + a.text) + b.text == text + (a.text + b.text);
  }

  lemma {:induction false} TieBeyond<T>(text: seq<T>, a: Chunk<T>, b: Chunk<T>)
    requires Valid(a) && Valid(b) && Tie(a, b) && a.pos > |text|
    ensures Via(text, a, b) == text + (a.text + b.text)
  {
    assert (text + a.text) + b.text == text + (a.text + b.text);
  }

  lemma {:induction false} RemovalBeyond<T>(text: seq<T>, a: Chunk<T>, r: Chunk<T>)
    requires Valid(a) && Valid(r) && a.op == ADD && r.op == REMOVE && a.pos > |text| && r.pos + r.len > |text|
    ensures Via(text, a, r) == Via(text, r, a) <==> AgreeBeyond(|text|, a, r)
  {
    hide Apply;
    var n, m := |text|, |text| + a.len;
    var moved, kept := Transform(a, r), Cut(text, Min(r.pos, n), n);
    var both := text + a.text;
    ApplyShape(text, a);
    ApplyShape(text, r);
    ApplyShape(both, moved);
    ApplyShape(kept, Transform(r, a));
    assert Paste(text, n, a.text) == both;
    assert Via(text, a, r) == Cut(both, Min(moved.pos, m), Min(moved.pos + moved.len, m));
    assert Via(text, r, a) == kept + a.text;
    if a.pos <= r.pos || r.pos >= m || r.len == 0 {
      assert Min(moved.pos, m) == Min(moved.pos + moved.len, m);
      assert Via(text, a, r) == both;
      assert kept == text;
    } else if a.text == [] {
      assert both == text && kept + a.text == kept;
    } else {
      assert |kept + a.text| == Min(r.pos, n) + a.len;
    }
  }

  /** The exact condition for the remaining pairs: with `DiamondExact` and
      `RemovalsConverge` every pair of valid edits is covered. */
  lemma {:induction false} DiamondBeyond<T>(text: seq<T>, a: Chunk<T>, b: Chunk<T>)
    requires Valid(a) && Valid(b) && a.op == ADD && a.pos > |text| && !InBounds(|text|, b)
    ensures Via(text, a, b) == Via(text, b, a) <==> AgreeBeyond(|text|, a, b)
  {
    hide Via, Apply, Transform, Paste;
    if b.op == REMOVE {
      RemovalBeyond(text, a, b);
    } else if a.pos < b.pos {
      LeftInsertionBeyond(text, a, b);
      SamePrefix(text, a.text + b.text, Paste(b.text, Min(a.pos - |text|, b.len), a.text));
    } else if b.pos < a.pos {
      LeftInsertionBeyond(text, b, a);
      SamePrefix(text, b.text + a.text, Paste(a.text, Min(b.pos - |text|, a.len), b.text));
    } else {
      TieBeyond(text, a, b);
      TieBeyond(text, b, a);
      SamePrefix(text, a.text + b.text, b.text + a.text);
    }
  }

  /** With both edits past the end of the text the two orders may differ without a clash. */
  lemma {:induction false} BothOutOfBoundsDiverge()
    ensures var a, b := Chunk(ADD, 1, "x", 1), Chunk(ADD, 2, "y", 1);
            Valid(a) && Valid(b) && !Clash(a, b) && Via("", a, b) != Via("", b, a)
  {
    var a, b := Chunk(ADD, 1, "x", 1), Chunk(ADD, 2, "y", 1);
    assert Via("", a, b) == "xy";
    assert Via("", b, a) == "yx";
  }

  // ---- the ladder ----

  /** The entries of a log moved past an edit that was applied before them. */
  function MovedLog<T>(log: seq<Chunk<T>>, c: Chunk<T>): seq<Chunk<T>> {
    if log == [] then [] else [Transform(c, log[0])] + MovedLog(log[1..], Transform(log[0], c))
  }

  /** No rung of the ladder is one of the exceptional pairs. */
  predicate NoClash<T>(log: seq<Chunk<T>>, c: Chunk<T>) {
    log == [] || (!Clash(log[0], c) && NoClash(log[1..], Transform(log[0], c)))
  }

  lemma {:induction false} RungClosed<T>(text: seq<T>, op: Chunk<T>, c: Chunk<T>)
    requires Valid(op) && InBounds(|text|, c) && !Clash(op, c)
    ensures InBounds(|Apply(text, op)|, Transform(op, c)) && Valid(Transform(c, op))
    ensures Apply(Apply(text, op), Transform(op, c)) == Apply(Apply(text, c), Transform(c, op))
  {
    Diamond(text, op, c);
    TransformInBounds(text, op, c);
  }

  /** The whole ladder closes: the log and then the edit moved past it, or the edit and
      then the log moved past it. */
  lemma {:induction false} Strip<T>(text: seq<T>, log: seq<Chunk<T>>, c: Chunk<T>)
    requires ValidAll(log) && InBounds(|text|, c) && NoClash(log, c)
    ensures Valid(Through(log, c)) && ValidAll(MovedLog(log, c)) && |MovedLog(log, c)| == |log|
    ensures Apply(ApplyAll(text, log), Through(log, c)) == ApplyAll(Apply(text, c), MovedLog(log, c))
    decreases |log|
  {
    if log != [] {
      hide Apply, Transform;
      RungClosed(text, log[0], c);
      Strip(Apply(text, log[0]), log[1..], Transform(log[0], c));
    }
  }

  // ---- whole messages ----

  /** Every chunk of the message lies at or to the right of what `e` touches. */
  predicate RightOf<T>(e: Chunk<T>, m: seq<Chunk<T>>) {
    forall i | 0 <= i < |m| :: m[i].pos >= if e.op == ADD then e.pos else e.pos + e.len
  }

  lemma {:induction false} MessageExact<T>(text: seq<T>, e: Chunk<T>, m: seq<Chunk<T>>)
    requires InBounds(|text|, e) && ValidAll(m) && RightOf(e, m)
    ensures ValidAll(TransformAll([e], m))
    ensures ApplyAll(Apply(text, e), TransformAll([e], m)) == Apply(ApplyAll(text, m), e)
    decreases |m|
  {
    hide Apply, Transform;
    ValidityClosed([e], m);
    if m != [] {
      RightStep(text, e, m[0]);
      MessageExact(Apply(text, m[0]), e, m[1..]);
      PastOne(e, m[0]);
      assert TransformAll([e], m)[1..] == TransformAll([e], m[1..]);
    }
  }

  lemma {:induction false} PastOne<T>(e: Chunk<T>, c: Chunk<T>)
    ensures Through([e], c) == Transform(e, c)
  {
    assert [e][1..] == [];
    assert Through([e][1..], Transform(e, c)) == Transform(e, c);
  }

  lemma {:induction false} RightStep<T>(text: seq<T>, e: Chunk<T>, c: Chunk<T>)
    requires InBounds(|text|, e) && Valid(c) && c.pos >= if e.op == ADD then e.pos else e.pos + e.len
    ensures InBounds(|Apply(text, c)|, e)
    ensures Via(text, e, c) == Apply(Apply(text, c), e)
  {
    TransformInBounds(text, c, e);
    LeftUntouched(e, c);
    hide Apply, Paste, Cut, Transform;
    if Tie(e, c) {
      TieShape(text, e, c);
      ApplyShape(text, c);
      PasteOnPaste(text, e.pos, e.text, c.text);
      ApplyShape(Apply(text, c), e);
    } else if e.op == REMOVE && e.len == 0 {
      EmptyRemoval(text, e);
      EmptyRemoval(Apply(text, c), e);
    } else {
      Diamond(text, e, c);
    }
  }

  lemma {:induction false} LeftUntouched<T>(e: Chunk<T>, c: Chunk<T>)
    requires Valid(e) && Valid(c) && c.pos >= if e.op == ADD then e.pos else e.pos + e.len
    ensures !Tie(e, c) && e.len > 0 ==> !Clash(e, c) && Transform(c, e) == e
    ensures !Tie(e, c) && e.op == ADD ==> !Clash(e, c) && Transform(c, e) == e
    ensures e.op == REMOVE && e.len == 0 ==> Transform(e, c) == c
  {
  }

  lemma {:induction false} EmptyRemoval<T>(text: seq<T>, e: Chunk<T>)
    requires Valid(e) && e.op == REMOVE && e.len == 0
    ensures Apply(text, e) == text
  {
  }

  lemma {:induction false} PasteOnPaste<T>(text: seq<T>, q: nat, s: seq<T>, t: seq<T>)
    requires q <= |text|
    ensures q <= |Paste(text, q, t)| && Paste(Paste(text, q, t), q, s) == Paste(text, q, s + t)
  {
  }

  // ---- whole messages, in step with the edit ----

  /** The message as the server transforms it, against the edit; or the message first. */
  predicate Exact<T(==)>(text: seq<T>, e: Chunk<T>, m: seq<Chunk<T>>)
    requires Valid(e) && ValidAll(m) && ValidAll(TransformAll([e], m)) && Valid(Through(m, e))
  {
    ApplyAll(Apply(text, e), TransformAll([e], m)) == Apply(ApplyAll(text, m), Through(m, e))
  }

  lemma {:induction false} MessageValid<T>(e: Chunk<T>, m: seq<Chunk<T>>)
    requires Valid(e) && ValidAll(m)
    ensures ValidAll(TransformAll([e], m)) && Valid(Through(m, e))
  {
    ValidityClosed([e], m);
    ThroughKeepsValid(m, e);
  }

  /** Each chunk is moved past `e0` as it would be past the edit as it stands by then. */
  predicate InStep<T(==)>(e0: Chunk<T>, e: Chunk<T>, m: seq<Chunk<T>>)
    decreases |m|
  {
    m == [] ||
    (&& Transform(e0, m[0]) == Transform(e, m[0])
     && !Clash(e, m[0])
     && InStep(e0, Transform(m[0], e), m[1..]))
  }

  /** A message in step with the edit is exact. */
  lemma {:induction false} InStepExact<T>(text: seq<T>, e0: Chunk<T>, e: Chunk<T>, m: seq<Chunk<T>>)
    requires Valid(e0) && InBounds(|text|, e) && ValidAll(m) && InStep(e0, e, m)
    ensures ValidAll(TransformAll([e0], m)) && InBounds(|ApplyAll(text, m)|, Through(m, e))
    ensures ApplyAll(Apply(text, e), TransformAll([e0], m)) == Apply(ApplyAll(text, m), Through(m, e))
    decreases |m|
  {
    hide Apply, Transform;
    ValidityClosed([e0], m);
    StageInBounds(text, m, e);
    if m != [] {
      RungClosed(text, m[0], e);
      PastOne(e0, m[0]);
      InStepExact(Apply(text, m[0]), e0, Transform(m[0], e), m[1..]);
      assert TransformAll([e0], m)[1..] == TransformAll([e0], m[1..]);
    }
  }

  /** How far a converse goes.  After a part in step, one more chunk leaves the message exact
      if and only if it does, moved past `e`, what it should do: its other rung closes. */
  lemma {:induction false} LastChunkDecides<T>(text: seq<T>, e: Chunk<T>, m: seq<Chunk<T>>, c: Chunk<T>)
    requires InBounds(|text|, e) && ValidAll(m) && InStep(e, e, m) && Valid(c)
    ensures ValidAll(TransformAll([e], m + [c])) && Valid(Through(m + [c], e)) && InBounds(|ApplyAll(text, m)|, Through(m, e))
    ensures var now, before := Through(m, e), ApplyAll(text, m);
            Exact(text, e, m + [c]) <==> Apply(Apply(before, now), Transform(e, c)) == Via(before, c, now)
  {
    hide Apply, ApplyAll, Through, Transform, InStep;
    InStepExact(text, e, e, m);
    MessageValid(e, m + [c]);
    ThroughConcat(m, [c], e);
    PastOne(c, Through(m, e));
    PastOne(e, c);
    ThroughKeepsValid([e], c);
    ApplyAllConcat(text, m, [c]);
    AppliedOne(ApplyAll(text, m), c);
    assert TransformAll([e], m + [c]) == TransformAll([e], m) + [Transform(e, c)];
    ValidityClosed([e], m);
    ApplyAllConcat(Apply(text, e), TransformAll([e], m), [Transform(e, c)]);
    AppliedOne(ApplyAll(Apply(text, e), TransformAll([e], m)), Transform(e, c));
  }

  /** If the last chunk is in step too, what decides are the exceptions of the diamond. */
  lemma {:induction false} LastChunkInStep<T>(text: seq<T>, e: Chunk<T>, m: seq<Chunk<T>>, c: Chunk<T>)
    requires InBounds(|text|, e) && ValidAll(m) && InStep(e, e, m) && Valid(c)
    requires Transform(e, c) == Transform(Through(m, e), c)
    ensures ValidAll(TransformAll([e], m + [c])) && Valid(Through(m + [c], e))
    ensures var now := Through(m, e);
            Exact(text, e, m + [c]) <==>
            && (Tie(now, c) ==> now.text + c.text == c.text + now.text)
            && (Splits(now, c) ==> now.text == [])
            && (Splits(c, now) ==> c.text == [])
  {
    LastChunkDecides(text, e, m, c);
    hide Exact, Apply, Transform, InStep;
    DiamondExact(ApplyAll(text, m), Through(m, e), c);
  }

  predicate Distinct<T(==)>(text: seq<T>) {
    forall i, j | 0 <= i < j < |text| :: text[i] != text[j]
  }

  /** Two chunks that differ only in their range do the same to a text of length `n`. */
  predicate SameSpot<T(==)>(n: nat, c: Chunk<T>, d: Chunk<T>) {
    if c.op == ADD then c.text == [] || Min(c.pos, n) == Min(d.pos, n)
    else
      var c0, c1, d0, d1 := Min(c.pos, n), Min(c.pos + c.len, n), Min(d.pos, n), Min(d.pos + d.len, n);
      (c0 == c1 && d0 == d1) || (c0 == d0 && c1 == d1)
  }

  lemma {:induction false} DistinctCuts<T>(text: seq<T>, c0: nat, c1: nat, d0: nat, d1: nat)
    requires Distinct(text) && c0 <= c1 <= |text| && d0 <= d1 <= |text|
    ensures Cut(text, c0, c1) == Cut(text, d0, d1) <==> (c0 == c1 && d0 == d1) || (c0 == d0 && c1 == d1)
  {
    var c, d := Cut(text, c0, c1), Cut(text, d0, d1);
    assert |c| == |text| - (c1 - c0) && |d| == |text| - (d1 - d0);
    if c0 == c1 && d0 == d1 {
      assert c == text && d == text;
    } else if |c| == |d| && c0 < d0 {
      assert c[c0] == text[c1] && d[c0] == text[c0];
    } else if |c| == |d| && d0 < c0 {
      assert c[d0] == text[d0] && d[d0] == text[d1];
    }
  }

  lemma {:induction false} DistinctPastes<T>(text: seq<T>, p: nat, q: nat, t: seq<T>)
    requires Distinct(text + t) && p <= |text| && q <= |text|
    ensures Paste(text, p, t) == Paste(text, q, t) <==> t == [] || p == q
  {
    if t == [] {
      assert Paste(text, p, t) == text && Paste(text, q, t) == text;
    } else if p != q {
      var low, high := if p < q then p else q, if p < q then q else p;
      assert Paste(text, low, t)[low] == (text + t)[|text|];
      assert Paste(text, high, t)[low] == (text + t)[low];
    }
  }

  lemma {:induction false} SameSpotExact<T>(text: seq<T>, c: Chunk<T>, d: Chunk<T>)
    requires Valid(c) && Valid(d) && c.op == d.op && c.text == d.text && Distinct(text + c.text)
    ensures Apply(text, c) == Apply(text, d) <==> SameSpot(|text|, c, d)
  {
    ApplyShape(text, c);
    ApplyShape(text, d);
    hide Apply, Paste, Cut;
    if c.op == ADD {
      DistinctPastes(text, Min(c.pos, |text|), Min(d.pos, |text|), c.text);
    } else {
      assert forall i | 0 <= i < |text| :: (text + c.text)[i] == text[i];
      DistinctCuts(text, Min(c.pos, |text|), Min(c.pos + c.len, |text|), Min(d.pos, |text|), Min(d.pos + d.len, |text|));
    }
  }

  /** Where all runes differ, a message that is in step up to its last chunk is exact if and
      only if that chunk, moved past `e`, hits the spot it would hit in step. */
  lemma {:induction false} OutOfStepExact<T>(text: seq<T>, e: Chunk<T>, m: seq<Chunk<T>>, c: Chunk<T>)
    requires InBounds(|text|, e) && ValidAll(m) && InStep(e, e, m) && Valid(c) && !Clash(Through(m, e), c)
    requires Valid(Through(m, e)) && Distinct(Apply(ApplyAll(text, m), Through(m, e)) + c.text)
    ensures ValidAll(TransformAll([e], m + [c])) && Valid(Through(m + [c], e))
    ensures Exact(text, e, m + [c]) <==>
            SameSpot(|Apply(ApplyAll(text, m), Through(m, e))|, Transform(e, c), Transform(Through(m, e), c))
  {
    hide Exact, InStep, Apply, ApplyAll, Through, Transform;
    var now, before := Through(m, e), ApplyAll(text, m);
    LastChunkDecides(text, e, m, c);
    ThroughKeepsValid([e], c);
    ThroughKeepsValid([now], c);
    PastOne(e, c);
    PastOne(now, c);
    Diamond(before, now, c);
    assert Via(before, now, c) == Apply(Apply(before, now), Transform(now, c));
    SameSpotExact(Apply(before, now), Transform(e, c), Transform(now, c));
  }

  lemma {:induction false} Emptied<T>(text: seq<T>, c: Chunk<T>)
    requires Valid(c) && c.op == REMOVE && c.pos == 0 && c.len >= |text|
    ensures Apply(text, c) == []
  {
  }

  /** A later chunk may make good what an earlier one out of step spoiled, so for longer
      messages there is no converse. */
  lemma {:induction false} OutOfStepRepaired()
    ensures var e, m := Chunk(REMOVE, 0, "p", 1), [Chunk(ADD, 0, "ab", 2), Chunk(ADD, 1, "y", 1), Chunk(REMOVE, 0, "", 10)];
            && InBounds(4, e) && ValidAll(m) && ValidAll(TransformAll([e], m)) && Valid(Through(m, e))
            && !InStep(e, e, m) && Exact("pqrs", e, m)
  {
    var e, c, d, r := Chunk(REMOVE, 0, "p", 1), Chunk(ADD, 0, "ab", 2), Chunk(ADD, 1, "y", 1), Chunk(REMOVE, 0, "", 10);
    var m := [c, d, r];
    hide Apply, ApplyAll, Transform, Through, TransformAll;
    MessageValid(e, m);
    FirstRuneRemoved();
    MovedPieces();
    assert m[1..] == [d, r] && !InStep(e, Transform(c, e), m[1..]);
    ThreeMoved(e, c, d, r);
    ThenEmptied("qrs", c, Chunk(ADD, 0, "y", 1), Chunk(REMOVE, 0, "", 9));
    ThenEmptied("pqrs", c, d, r);
    ThroughKeepsValid(m, e);
    NothingRemoved(Through(m, e));
  }

  lemma {:induction false} MovedPieces()
    ensures var e, d := Chunk(REMOVE, 0, "p", 1), Chunk(ADD, 1, "y", 1);
            && Transform(e, Chunk(ADD, 0, "ab", 2)) == Chunk(ADD, 0, "ab", 2)
            && Transform(Chunk(ADD, 0, "ab", 2), e) == Chunk(REMOVE, 2, "p", 1)
            && Transform(e, d) == Chunk(ADD, 0, "y", 1) && Transform(Chunk(REMOVE, 2, "p", 1), d) == d
            && Transform(e, Chunk(REMOVE, 0, "", 10)) == Chunk(REMOVE, 0, "", 9)
  {
  }

  lemma {:induction false} ThreeMoved<T>(e: Chunk<T>, c: Chunk<T>, d: Chunk<T>, r: Chunk<T>)
    ensures TransformAll([e], [c, d, r]) == [Transform(e, c), Transform(e, d), Transform(e, r)]
  {
    hide Transform, Through;
    PastOne(e, c);
    PastOne(e, d);
    PastOne(e, r);
  }

  lemma {:induction false} FirstRuneRemoved()
    ensures Apply("pqrs", Chunk(REMOVE, 0, "p", 1)) == "qrs"
  {
  }

  lemma {:induction false} NothingRemoved<T>(c: Chunk<T>)
    requires Valid(c) && c.op == REMOVE
    ensures Apply([], c) == []
  {
  }

  lemma {:induction false} ThenEmptied<T>(text: seq<T>, c: Chunk<T>, d: Chunk<T>, r: Chunk<T>)
    requires Valid(c) && Valid(d) && Valid(r) && c.op == ADD && d.op == ADD && r.op == REMOVE
    requires r.pos == 0 && r.len >= |text| + c.len + d.len
    ensures ApplyAll(text, [c, d, r]) == []
  {
    var x := Apply(text, c);
    var y := Apply(x, d);
    ApplyShape(text, c);
    ApplyShape(x, d);
    assert |y| == |text| + c.len + d.len;
    Emptied(y, r);
    hide Apply;
    assert [c, d, r][1..] == [d, r] && [d, r][1..] == [r];
    AppliedOne(y, r);
    assert ApplyAll(x, [d, r]) == ApplyAll(y, [r]);
  }

  /** Messages of several chunks are not exact in general: positions of later chunks count
      the text earlier ones inserted, while each chunk is moved on its own. */
  lemma {:induction false} MessageNotExactInGeneral()
    ensures var e, m := Chunk(ADD, 2, "X", 1), [Chunk(ADD, 0, "ab", 2), Chunk(ADD, 3, "y", 1)];
            && InBounds(4, e) && ValidAll(m) && ValidAll(TransformAll([e], m)) && Valid(Through(m, e))
            && ApplyAll(Apply("pqrs", e), TransformAll([e], m)) != Apply(ApplyAll("pqrs", m), Through(m, e))
  {
    var e, m0, m1 := Chunk(ADD, 2, "X", 1), Chunk(ADD, 0, "ab", 2), Chunk(ADD, 3, "y", 1);
    var m := [m0, m1];
    EditFirst();
    MessageFirst();
    ThroughConcat([m0], [m1], e);
    assert m == [m0] + [m1];
    PastOne(m0, e);
    PastOne(m1, Transform(m0, e));
    PastOne(e, m0);
    PastOne(e, m1);
    hide ApplyAll, Apply;
    assert Through(m, e) == Chunk(ADD, 5, "X", 1);
    assert TransformAll([e], m) == [m0, Chunk(ADD, 4, "y", 1)];
  }

  lemma {:induction false} EditFirst()
    ensures ApplyAll(Apply("pqrs", Chunk(ADD, 2, "X", 1)), [Chunk(ADD, 0, "ab", 2), Chunk(ADD, 4, "y", 1)]) == "abpqyXrs"
  {
    hide ApplyAll;
    assert Apply("pqrs", Chunk(ADD, 2, "X", 1)) == "pqXrs";
    TwoApplied("pqXrs", [Chunk(ADD, 0, "ab", 2), Chunk(ADD, 4, "y", 1)]);
    assert Apply("pqXrs", Chunk(ADD, 0, "ab", 2)) == "abpqXrs";
    assert Apply("abpqXrs", Chunk(ADD, 4, "y", 1)) == "abpqyXrs";
  }

  lemma {:induction false} MessageFirst()
    ensures Apply(ApplyAll("pqrs", [Chunk(ADD, 0, "ab", 2), Chunk(ADD, 3, "y", 1)]), Chunk(ADD, 5, "X", 1)) == "abpyqXrs"
  {
    hide ApplyAll;
    TwoApplied("pqrs", [Chunk(ADD, 0, "ab", 2), Chunk(ADD, 3, "y", 1)]);
    assert Apply("pqrs", Chunk(ADD, 0, "ab", 2)) == "abpqrs";
    assert Apply("abpqrs", Chunk(ADD, 3, "y", 1)) == "abpyqrs";
    assert Apply("abpyqrs", Chunk(ADD, 5, "X", 1)) == "abpyqXrs";
  }

  lemma {:induction false} TwoApplied<T>(text: seq<T>, m: seq<Chunk<T>>)
    requires ValidAll(m) && |m| == 2
    ensures ApplyAll(text, m) == Apply(Apply(text, m[0]), m[1])
  {
    assert m[1..] == [m[1]];
    assert ApplyAll(Apply(text, m[0]), [m[1]]) == Apply(Apply(text, m[0]), m[1]);
  }
}
