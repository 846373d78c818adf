/** The arithmetic of the source is done in 64-bit two's complement.  This module states the
    chunk algebra that way and says exactly when it does what the unbounded integers of the
    other modules do.  Validation bounds neither a position nor the length of a removal, so
    a range may end beyond the largest integer. */
module MachineInts {
  import opened Chunks
  import opened Convergence
  import opened Files

  const MAX64: int := 0x7fff_ffff_ffff_ffff
  const MIN64: int := -0x8000_0000_0000_0000
  const SPAN64: int := 0x1_0000_0000_0000_0000

  predicate Fits64(x: int) { MIN64 <= x <= MAX64 }

  /** Two's complement reduction. */
  function Wrap(x: int): (r: int)
    ensures Fits64(r) && (Fits64(x) ==> r == x)
  {
    (x - MIN64) % SPAN64 + MIN64
  }

  predicate Chunk64<T>(c: Chunk<T>) { Fits64(c.pos) && Fits64(c.len) }

  predicate All64<T>(cs: seq<Chunk<T>>) {
    forall i | 0 <= i < |cs| :: Chunk64(cs[i])
  }

  /** What the server can receive: a chunk of 64-bit numbers that passes validation. */
  predicate Accepted64<T>(c: Chunk<T>) { Valid(c) && Chunk64(c) }

  /** The end of the range of a chunk overflows. */
  predicate Over<T>(c: Chunk<T>) { c.pos + c.len > MAX64 }

  // ---- applying ----

  /** `Apply` as the machine computes it; `None` is a panic. */
  function Apply64<T>(text: seq<T>, c: Chunk<T>): Option<seq<T>> {
    var pos := Max(c.pos, 0);
    if c.op == ADD then Some(Apply(text, c))
    else if c.op != REMOVE then None
    else if |text| == 0 || pos >= |text| then Some(text)
    else
      var end := Min(Wrap(pos + c.len), |text|);
      if end < 0 then None else Some(text[..pos] + text[end..])
  }

  /** A valid chunk is applied as specified, except that a removal inside the text whose end
      overflows panics. */
  lemma {:induction false} ApplyExact<T>(text: seq<T>, c: Chunk<T>)
    requires Accepted64(c)
    ensures Apply64(text, c) == if c.op == REMOVE && c.pos < |text| && Over(c) then None else Some(Apply(text, c))
  {
  }

  // ---- transforming ----

  /** `Transform` as the machine computes it. */
  function Transform64<T>(op1: Chunk<T>, op2: Chunk<T>): Chunk<T> {
    if op1.op == ADD then
      if op2.op == ADD then
        if op1.pos <= op2.pos then op2.(pos := Wrap(op2.pos + op1.len)) else op2
      else
        if op1.pos <= op2.pos then op2.(pos := Wrap(op2.pos + op1.len))
        else if op1.pos < Wrap(op2.pos + op2.len) then op2.(len := Wrap(op2.len + op1.len))
        else op2
    else
      if op2.op == ADD then
        if op1.pos < op2.pos then op2.(pos := Wrap(op2.pos - Min(op1.len, Wrap(op2.pos - op1.pos)))) else op2
      else
        var newPos := if op1.pos < op2.pos then Wrap(op2.pos - Min(op1.len, Wrap(op2.pos - op1.pos))) else op2.pos;
        var overlapStart := Max(op1.pos, op2.pos);
        var overlapEnd := Min(Wrap(op1.pos + op1.len), Wrap(op2.pos + op2.len));
        op2.(pos := newPos, len := Wrap(op2.len - Max(0, Wrap(overlapEnd - overlapStart))))
  }

  /** The pairs on which nothing overflows, or two overflows cancel. */
  predicate Agrees<T>(op1: Chunk<T>, op2: Chunk<T>) {
    if op1.op == ADD then
      if op1.pos <= op2.pos then op2.pos + op1.len <= MAX64
      else if op2.op == ADD then true
      else if Over(op2) then op1.len == 0
      else op1.pos < op2.pos + op2.len ==> op2.len + op1.len <= MAX64
    else op2.op == REMOVE ==> (Over(op1) <==> Over(op2))
  }

  /** The exact condition under which the machine transforms as specified. */
  lemma {:induction false} TransformExact<T>(op1: Chunk<T>, op2: Chunk<T>)
    requires Accepted64(op1) && Accepted64(op2)
    ensures Transform64(op1, op2) == Transform(op1, op2) <==> Agrees(op1, op2)
  {
    if op1.op == REMOVE && op2.op == REMOVE {
      RemovalOverRemoval(op1, op2);
    }
  }

  /** By how much the machine shortens `op2`, moved past `op1`. */
  function Overlap64<T>(op1: Chunk<T>, op2: Chunk<T>): int {
    var end1, end2, start := op1.pos + op1.len, op2.pos + op2.len, Max(op1.pos, op2.pos);
    if Over(op1) && !Over(op2) then end1 - start
    else if Over(op2) && !Over(op1) then end2 - start
    else Max(0, Min(end1, end2) - start)
  }

  /** The overlap of two removals: wrong as soon as exactly one end overflows. */
  lemma {:induction false} RemovalOverRemoval<T>(op1: Chunk<T>, op2: Chunk<T>)
    requires Accepted64(op1) && Accepted64(op2) && op1.op == REMOVE && op2.op == REMOVE
    ensures Transform64(op1, op2) == Transform(op1, op2).(len := op2.len - Overlap64(op1, op2))
    ensures Over(op1) == Over(op2) ==> Transform64(op1, op2) == Transform(op1, op2)
    ensures Over(op1) != Over(op2) ==> Transform64(op1, op2).len < Transform(op1, op2).len
    ensures !Over(op1) ==> Transform64(op1, op2).len >= 0
  {
    hide Wrap, Min, Max;
    Overlap(op1.pos, op1.len, op2.pos, op2.len);
    ShiftLeft(op1.pos, op1.len, op2.pos);
  }

  lemma {:induction false} ShiftLeft(p1: int, l1: int, p2: int)
    requires 0 <= p1 <= MAX64 && 0 <= l1 <= MAX64 && 0 <= p2 <= MAX64
    ensures p1 < p2 ==> Wrap(p2 - Min(l1, Wrap(p2 - p1))) == p2 - Min(l1, p2 - p1)
  {
  }

  lemma {:induction false} Overlap(p1: int, l1: int, p2: int, l2: int)
    requires 0 <= p1 <= MAX64 && 0 <= l1 <= MAX64 && 0 <= p2 <= MAX64 && 0 <= l2 <= MAX64
    ensures var start, end1, end2 := Max(p1, p2), p1 + l1, p2 + l2;
            var exact := Max(0, Min(end1, end2) - start);
            var wrapped := Max(0, Wrap(Min(Wrap(end1), Wrap(end2)) - start));
            && 0 <= exact <= l1 && exact <= l2
            && wrapped == (if end1 > MAX64 && end2 <= MAX64 then end1 - start
                           else if end2 > MAX64 && end1 <= MAX64 then end2 - start
                           else exact)
            && 0 <= wrapped <= MAX64
            && (end1 > MAX64 && end2 <= MAX64 ==> wrapped > exact)
            && (end2 > MAX64 && end1 <= MAX64 ==> exact < wrapped <= l2)
            && Wrap(l2 - wrapped) == l2 - wrapped
  {
    WrapsOnce(p1 + l1);
    WrapsOnce(p2 + l2);
    WrapsOnce(Min(Wrap(p1 + l1), Wrap(p2 + l2)) - Max(p1, p2));
    hide Wrap;
  }

  lemma {:induction false} WrapsOnce(x: int)
    requires MIN64 - SPAN64 <= x <= MAX64 + SPAN64
    ensures Wrap(x) == if x > MAX64 then x - SPAN64 else if x < MIN64 then x + SPAN64 else x
  {
  }

  /** When the machine's result still passes validation. */
  predicate StaysValid<T>(op1: Chunk<T>, op2: Chunk<T>) {
    if op1.op == ADD then
      if op1.pos <= op2.pos then op2.pos + op1.len <= MAX64
      else op2.op == REMOVE && !Over(op2) && op1.pos < op2.pos + op2.len ==> op2.len + op1.len <= MAX64
    else op2.op == REMOVE && Over(op1) && !Over(op2) ==> op2.len >= op1.pos + op1.len - Max(op1.pos, op2.pos)
  }

  lemma {:induction false} ValidityExact<T>(op1: Chunk<T>, op2: Chunk<T>)
    requires Accepted64(op1) && Accepted64(op2)
    ensures Valid(Transform64(op1, op2)) <==> StaysValid(op1, op2)
    ensures Agrees(op1, op2) ==> StaysValid(op1, op2)
  {
    if op1.op == REMOVE && op2.op == REMOVE {
      RemovalOverRemoval(op1, op2);
    }
  }

  /** A removal beyond the end of the text is applied as nothing and stored.  If its end
      overflows it shortens every removal that is carried past it by its own length. */
  lemma {:induction false} StoredRemovalExact<T>(text: seq<T>, op1: Chunk<T>, op2: Chunk<T>)
    requires Accepted64(op1) && op1.op == REMOVE && op1.pos >= |text| && |text| <= MAX64
    requires InBounds(|text|, op2) && op2.op == REMOVE
    ensures Apply64(text, op1) == Some(text) && Transform(op1, op2) == op2
    ensures Transform64(op1, op2) == op2 <==> !Over(op1)
    ensures Over(op1) ==> Transform64(op1, op2) == op2.(len := op2.len - op1.len)
    ensures Apply64(text, Transform64(op1, op2)) == Some(Apply(text, op2)) <==> !Over(op1) || op2.pos == |text|
  {
    RemovalOverRemoval(op1, op2);
    ApplyExact(text, op2);
    if Over(op1) && op2.pos < |text| {
      var end := op2.pos + op2.len;
      if Min(end - op1.len, |text|) >= 0 {
        assert |Apply64(text, Transform64(op1, op2)).value| == op2.pos + |text| - (end - op1.len);
      }
    }
  }

  /** Both numbers survive being decoded from floating point.  The stored removal changes
      nothing; the next one becomes invalid and panics. */
  lemma {:induction false} StoredRemovalPanics()
    ensures var a, b := Chunk(REMOVE, 9223372036854774784, "", 1024), Chunk(REMOVE, 0, "abc", 3);
            && Accepted64(a) && Accepted64(b) && Apply64("abc", a) == Some("abc")
            && Transform(a, b) == b && Transform64(a, b) == b.(len := -1021)
            && !Valid(Transform64(a, b)) && Apply64("abc", Transform64(a, b)) == None
  {
  }

  /** Two removals that diverge. */
  lemma {:induction false} OverflowingRemovalsDiverge()
    ensures var a, b := Chunk(REMOVE, MAX64, "", 1), Chunk(REMOVE, 0, "x", 1);
            && Accepted64(a) && Accepted64(b)
            && Via64("x", a, b) == Some("x") && Via64("x", b, a) == Some("")
  {
    hide Via64, Apply, Apply64, Transform64;
    var a, b := Chunk(REMOVE, MAX64, "", 1), Chunk(REMOVE, 0, "x", 1);
    ViaOver("x", a, b);
    NothingCut("x");
    ViaBeforeOver("x", a, b);
    ApplyShape("x", b);
    assert Cut("x", 0, 1) == "";
  }

  lemma {:induction false} NothingCut<T>(text: seq<T>)
    ensures text[..0] + text[0..] == text
  {
  }

  /** A removal that panics where it is applied. */
  lemma {:induction false} OverflowingRemovalPanics()
    ensures var c := Chunk(REMOVE, 1, "", MAX64); Accepted64(c) && Apply64("xy", c) == None
  {
  }

  // ---- carrying an edit along a log ----

  function Through64<T>(log: seq<Chunk<T>>, c: Chunk<T>): Chunk<T> {
    if log == [] then c else Through64(log[1..], Transform64(log[0], c))
  }

  /** The machine is right at every stage of the log. */
  ghost predicate RightAtEveryStage<T>(log: seq<Chunk<T>>, c: Chunk<T>) {
    forall k {:trigger log[..k]} | 0 <= k <= |log| :: Through64(log[..k], c) == Through(log[..k], c)
  }

  ghost predicate AgreesAlong<T>(log: seq<Chunk<T>>, c: Chunk<T>) {
    log == [] || (Agrees(log[0], c) && AgreesAlong(log[1..], Transform(log[0], c)))
  }

  lemma {:induction false} RightFromThen<T>(log: seq<Chunk<T>>, c: Chunk<T>)
    requires log != [] && Transform64(log[0], c) == Transform(log[0], c)
    ensures RightAtEveryStage(log, c) <==> RightAtEveryStage(log[1..], Transform(log[0], c))
  {
    hide Transform, Transform64;
    var rest := log[1..];
    forall k | 0 <= k <= |rest|
      ensures Through64(log[..k + 1], c) == Through64(rest[..k], Transform(log[0], c))
      ensures Through(log[..k + 1], c) == Through(rest[..k], Transform(log[0], c))
    {
      assert log[..k + 1][1..] == rest[..k];
    }
    if RightAtEveryStage(log, c) {
      forall k | 0 <= k <= |rest| ensures Through64(rest[..k], Transform(log[0], c)) == Through(rest[..k], Transform(log[0], c)) {
        assert Through64(log[..k + 1], c) == Through(log[..k + 1], c);
      }
    }
    if RightAtEveryStage(rest, Transform(log[0], c)) {
      forall k | 0 <= k <= |log| ensures Through64(log[..k], c) == Through(log[..k], c) {
        if k > 0 {
          assert Through64(rest[..k - 1], Transform(log[0], c)) == Through(rest[..k - 1], Transform(log[0], c));
        }
      }
    }
  }

  /** The exact condition for a whole log: every step agrees. */
  lemma {:induction false} ThroughExact<T>(log: seq<Chunk<T>>, c: Chunk<T>)
    requires ValidAll(log) && All64(log) && Accepted64(c)
    ensures RightAtEveryStage(log, c) <==> AgreesAlong(log, c)
    ensures AgreesAlong(log, c) ==> Through64(log, c) == Through(log, c) && Accepted64(Through(log, c))
  {
    if log != [] {
      TransformExact(log[0], c);
      hide Transform, Transform64, Agrees;
      if Agrees(log[0], c) {
        OneStep(log[0], c);
        RightFromThen(log, c);
        ThroughExact(log[1..], Transform(log[0], c));
      } else {
        assert log[..1] == [log[0]] && [log[0]][1..] == [];
        assert Through64([log[0]], c) == Transform64(log[0], c);
        assert Through([log[0]], c) == Transform(log[0], c);
      }
    }
  }

  lemma {:induction false} OneStep<T>(op1: Chunk<T>, op2: Chunk<T>)
    requires Accepted64(op1) && Accepted64(op2) && Agrees(op1, op2)
    ensures Accepted64(Transform(op1, op2))
  {
    TransformExact(op1, op2);
  }

  /** Every text along the log is of representable length. */
  predicate LengthsFit<T>(text: seq<T>, log: seq<Chunk<T>>)
    requires ValidAll(log)
    decreases |log|
  {
    |text| <= MAX64 && (log == [] || LengthsFit(Apply(text, log[0]), log[1..]))
  }

  lemma {:induction false} FittingStep<T>(text: seq<T>, op: Chunk<T>, c: Chunk<T>)
    requires Accepted64(op) && Chunk64(c) && InBounds(|text|, c) && |text| <= MAX64 && |Apply(text, op)| <= MAX64
    ensures Agrees(op, c) <==> (c.op == REMOVE && op.op == REMOVE ==> !Over(op))
  {
    ApplyShape(text, op);
  }

  predicate EndsFit<T>(log: seq<Chunk<T>>) {
    forall i | 0 <= i < |log| && log[i].op == REMOVE :: !Over(log[i])
  }

  /** For an edit that fits its base: an insertion always agrees, a removal exactly when no
      removal of the log ends beyond the largest integer. */
  lemma {:induction false} FittingAlong<T>(text: seq<T>, log: seq<Chunk<T>>, c: Chunk<T>)
    requires ValidAll(log) && All64(log) && Chunk64(c) && InBounds(|text|, c) && LengthsFit(text, log)
    ensures AgreesAlong(log, c) <==> c.op == ADD || EndsFit(log)
    decreases |log|
  {
    if log != [] {
      var rest := log[1..];
      assert LengthsFit(Apply(text, log[0]), rest);
      FittingStep(text, log[0], c);
      TransformInBounds(text, log[0], c);
      FittingAlong(Apply(text, log[0]), rest, Transform(log[0], c));
      hide Apply, Agrees, LengthsFit;
      assert Transform(log[0], c).op == c.op;
      assert EndsFit(log) <==> (log[0].op == REMOVE ==> !Over(log[0])) && EndsFit(rest) by {
        if EndsFit(log) {
          assert forall i | 0 <= i < |rest| :: rest[i] == log[i + 1];
        }
        if (log[0].op == REMOVE ==> !Over(log[0])) && EndsFit(rest) {
          assert forall i | 0 < i < |log| :: log[i] == rest[i - 1];
        }
      }
    }
  }

  /** A stale edit that fits its base, on the machine: right at every stage, and finally
      applied without a panic, for insertions always and for removals if and only if every
      removal of the log has a representable end. */
  lemma {:induction false} ThroughAgrees<T>(text: seq<T>, log: seq<Chunk<T>>, c: Chunk<T>)
    requires ValidAll(log) && All64(log) && Chunk64(c) && InBounds(|text|, c) && LengthsFit(text, log)
    ensures RightAtEveryStage(log, c) <==> c.op == ADD || EndsFit(log)
    ensures Valid(Through(log, c))
    ensures c.op == ADD || EndsFit(log) ==>
              && Through64(log, c) == Through(log, c)
              && Apply64(ApplyAll(text, log), Through64(log, c)) == Some(Apply(ApplyAll(text, log), Through(log, c)))
  {
    FittingAlong(text, log, c);
    ThroughExact(log, c);
    ThroughKeepsValid(log, c);
    if c.op == ADD || EndsFit(log) {
      StageInBounds(text, log, c);
      LastLengthFits(text, log);
      ApplyExact(ApplyAll(text, log), Through(log, c));
    }
  }

  lemma {:induction false} LastLengthFits<T>(text: seq<T>, log: seq<Chunk<T>>)
    requires ValidAll(log) && LengthsFit(text, log)
    ensures |ApplyAll(text, log)| <= MAX64
    decreases |log|
  {
    if log != [] {
      LastLengthFits(Apply(text, log[0]), log[1..]);
    }
  }

  // ---- both orders of two edits ----

  function Via64<T>(text: seq<T>, a: Chunk<T>, b: Chunk<T>): Option<seq<T>> {
    match Apply64(text, a)
    case None => None
    case Some(t) => Apply64(t, Transform64(a, b))
  }

  /** Neither order panics and both give the same text. */
  predicate Converge64<T(==)>(text: seq<T>, a: Chunk<T>, b: Chunk<T>) {
    Via64(text, a, b).Some? && Via64(text, a, b) == Via64(text, b, a)
  }

  /** An overflowing removal `a` beside a removal `b`, on a text of length `n`. */
  predicate Harmless<T>(n: nat, a: Chunk<T>, b: Chunk<T>) {
    a.pos >= n && (b.pos >= n || (!Over(b) && b.pos + b.len - a.len >= n))
  }

  lemma {:induction false} ViaOver<T>(text: seq<T>, a: Chunk<T>, b: Chunk<T>)
    requires Accepted64(a) && Accepted64(b) && a.op == REMOVE && b.op == REMOVE
    requires Over(a) && |text| > 0 && |text| <= MAX64
    ensures a.pos < |text| ==> Via64(text, a, b) == None
    ensures a.pos >= |text| && b.pos >= |text| ==> Via64(text, a, b) == Some(text)
    ensures a.pos >= |text| > b.pos && !Over(b) ==>
              Via64(text, a, b) == var end := Min(b.pos + b.len - a.len, |text|);
                                   if end < 0 then None else Some(text[..b.pos] + text[end..])
  {
    hide Transform64;
    ApplyExact(text, a);
    RemovalOverRemoval(a, b);
  }

  lemma {:induction false} ViaBeforeOver<T>(text: seq<T>, a: Chunk<T>, b: Chunk<T>)
    requires Accepted64(a) && Accepted64(b) && a.op == REMOVE && b.op == REMOVE
    requires Over(a) && !Over(b) && 0 < |text| <= a.pos && |text| <= MAX64
    ensures Via64(text, b, a) == Some(Apply(text, b))
  {
    hide Transform64, Wrap;
    RemovalOverRemoval(b, a);
    ApplyExact(text, b);
    ApplyShape(text, b);
    assert Transform64(b, a).pos >= |Apply(text, b)|;
  }

  lemma {:induction false} OneOver<T>(text: seq<T>, a: Chunk<T>, b: Chunk<T>)
    requires Accepted64(a) && Accepted64(b) && a.op == REMOVE && b.op == REMOVE
    requires Over(a) && !Over(b) && 0 < |text| <= MAX64
    ensures Converge64(text, a, b) <==> Harmless(|text|, a, b)
  {
    ViaOver(text, a, b);
    if a.pos >= |text| {
      ViaBeforeOver(text, a, b);
      ApplyShape(text, b);
      hide Via64, Apply;
      var end := Min(b.pos + b.len - a.len, |text|);
      if b.pos >= |text| {
        assert Apply(text, b) == text;
      } else if end >= 0 {
        assert |text[..b.pos] + text[end..]| == b.pos + |text| - end;
      }
    }
  }

  /** The exact condition under which two removals converge on the machine: neither end
      overflows, the text is empty, or the overflowing one is beyond the text and too short
      to be noticed. */
  lemma {:induction false} RemovalsConvergeExactly<T>(text: seq<T>, a: Chunk<T>, b: Chunk<T>)
    requires Accepted64(a) && Accepted64(b) && a.op == REMOVE && b.op == REMOVE && |text| <= MAX64
    ensures Converge64(text, a, b) <==>
            || text == []
            || ((Over(a) ==> Harmless(|text|, a, b)) && (Over(b) ==> Harmless(|text|, b, a)))
  {
    if text != [] {
      if !Over(a) && !Over(b) {
        RemovalsConverge(text, a, b);
        ViaAgrees(text, a, b);
        ViaAgrees(text, b, a);
      } else if Over(a) && Over(b) {
        ViaOver(text, a, b);
        ViaOver(text, b, a);
      } else if Over(a) {
        OneOver(text, a, b);
      } else {
        OneOver(text, b, a);
      }
    }
  }

  lemma {:induction false} ViaAgrees<T>(text: seq<T>, a: Chunk<T>, b: Chunk<T>)
    requires Accepted64(a) && Accepted64(b) && Agrees(a, b)
    requires a.op == REMOVE ==> !Over(a)
    requires Transform(a, b).op == REMOVE ==> !Over(Transform(a, b))
    ensures Via64(text, a, b) == Some(Via(text, a, b))
  {
    TransformExact(a, b);
    OneStep(a, b);
    ApplyExact(text, a);
    ApplyExact(Apply(text, a), Transform(a, b));
  }

  /** Two insertions at different positions, the left one inside the text: they converge on
      the machine if and only if the right one's new position is representable, or its text
      is the same before and after the rest. */
  lemma {:induction false} InsertionsConvergeExactly<T>(text: seq<T>, a: Chunk<T>, b: Chunk<T>)
    requires Accepted64(a) && Accepted64(b) && a.op == ADD && b.op == ADD
    requires a.pos <= |text| && a.pos < b.pos && |text| + a.len <= MAX64
    ensures Converge64(text, a, b) <==>
            b.pos + a.len <= MAX64 || b.text + Apply(text, a) == Apply(text, a) + b.text
  {
    InsertionsConverge(text, a, b);
    ViaAgrees(text, b, a);
    if b.pos + a.len <= MAX64 {
      ViaAgrees(text, a, b);
    } else {
      assert Via64(text, a, b) == Some(b.text + Apply(text, a));
      ApplyShape(text, a);
      assert Via(text, a, b) == Apply(text, a) + b.text;
    }
  }

  /** An insertion inside the text and a removal it does not split. */
  predicate RemovalMoves<T>(n: nat, a: Chunk<T>, r: Chunk<T>) {
    if r.pos >= n then r.pos + a.len <= MAX64 || r.len == 0
    else if a.pos <= r.pos then r.pos + r.len + a.len <= MAX64
    else true
  }

  lemma {:induction false} InsertionRemovalConvergeExactly<T>(text: seq<T>, a: Chunk<T>, r: Chunk<T>)
    requires Accepted64(a) && Accepted64(r) && a.op == ADD && r.op == REMOVE && !Splits(a, r)
    requires a.pos <= |text| && |text| + a.len <= MAX64
    ensures Converge64(text, a, r) <==> RemovalMoves(|text|, a, r)
  {
    InsertionRemovalConverge(text, a, r);
    InsertionFirst(text, a, r);
    RemovalFirst(text, a, r);
  }

  lemma {:induction false} RemovalFirst<T>(text: seq<T>, a: Chunk<T>, r: Chunk<T>)
    requires Accepted64(a) && Accepted64(r) && a.op == ADD && r.op == REMOVE
    ensures Via64(text, r, a) == if r.pos < |text| && Over(r) then None else Some(Via(text, r, a))
  {
    ApplyExact(text, r);
    TransformExact(r, a);
  }

  lemma {:induction false} InsertionFirst<T>(text: seq<T>, a: Chunk<T>, r: Chunk<T>)
    requires Accepted64(a) && Accepted64(r) && a.op == ADD && r.op == REMOVE && !Splits(a, r)
    requires a.pos <= |text| && |text| + a.len <= MAX64
    ensures RemovalMoves(|text|, a, r) ==> Via64(text, a, r) == Some(Via(text, a, r))
    ensures !RemovalMoves(|text|, a, r) && r.pos < |text| ==> Via64(text, a, r) == None
    ensures !RemovalMoves(|text|, a, r) && r.pos >= |text| ==> Via64(text, a, r) != Some(Via(text, a, r))
  {
    ApplyShape(text, a);
    var t := Apply(text, a);
    assert |t| == |text| + a.len;
    if r.pos >= |text| && r.pos + a.len > MAX64 {
      ApplyShape(t, Transform(a, r));
      assert Apply(t, Transform(a, r)) == t;
      assert Transform64(a, r).pos < 0;
      if r.len > 0 {
        assert |Apply64(t, Transform64(a, r)).value| == |t| - Min(r.len, |t|);
      } else {
        assert Apply64(t, Transform64(a, r)).value == t;
      }
    } else if RemovalMoves(|text|, a, r) {
      TransformExact(a, r);
      OneStep(a, r);
      ApplyExact(t, Transform(a, r));
    } else {
      TransformExact(a, r);
      OneStep(a, r);
      ApplyExact(t, Transform(a, r));
    }
  }

  /** An insertion strictly inside a removal. */
  lemma {:induction false} SplitConvergesExactly<T>(text: seq<T>, a: Chunk<T>, r: Chunk<T>)
    requires Accepted64(a) && Accepted64(r) && Splits(a, r) && a.pos <= |text| && |text| + a.len <= MAX64
    ensures Converge64(text, a, r) <==> !Over(r) && a.text == []
  {
    RemovalFirst(text, a, r);
    if r.pos + r.len + a.len <= MAX64 {
      ViaAgrees(text, a, r);
      DiamondExact(text, a, r);
    } else if !Over(r) {
      ApplyShape(text, a);
      assert Transform64(a, r).pos == r.pos && Wrap(r.pos + Transform64(a, r).len) < 0;
      assert Via64(text, a, r) == None;
    }
  }

  /** An insertion and a removal that fits. */
  lemma {:induction false} FittingRemovalAgrees<T>(text: seq<T>, a: Chunk<T>, r: Chunk<T>)
    requires Accepted64(a) && a.op == ADD && r.op == REMOVE && InBounds(|text|, r) && |text| + a.len <= MAX64
    ensures Via64(text, a, r) == Some(Via(text, a, r)) && Via64(text, r, a) == Some(Via(text, r, a))
  {
    ViaAgrees(text, a, r);
    ViaAgrees(text, r, a);
  }

  /** When the two orders of an insertion `a` and a removal `r` agree on the machine. */
  predicate InsertionRemovalAgree<T(==)>(n: nat, a: Chunk<T>, r: Chunk<T>) {
    if Splits(a, r) then !Over(r) && a.text == []
    else a.pos <= n ==> RemovalMoves(n, a, r)
  }

  /** When the two orders of insertions, `a` to the left of `b`, agree on the machine. */
  predicate InsertionsAgree<T(==)>(text: seq<T>, a: Chunk<T>, b: Chunk<T>)
    requires Valid(a)
  {
    b.pos + a.len <= MAX64 || b.text + Apply(text, a) == Apply(text, a) + b.text
  }

  predicate DiamondOnMachine<T(==)>(text: seq<T>, a: Chunk<T>, b: Chunk<T>)
    requires Valid(a) && Valid(b)
  {
    if a.op == REMOVE && b.op == REMOVE then
      text == [] || ((Over(a) ==> Harmless(|text|, a, b)) && (Over(b) ==> Harmless(|text|, b, a)))
    else if a.op == ADD && b.op == ADD then
      if a.pos < b.pos then InsertionsAgree(text, a, b)
      else if b.pos < a.pos then InsertionsAgree(text, b, a)
      else a.text + b.text == b.text + a.text
    else if a.op == ADD then InsertionRemovalAgree(|text|, a, b)
    else InsertionRemovalAgree(|text|, b, a)
  }

  lemma {:induction false} Converge64Symmetric<T>(text: seq<T>, a: Chunk<T>, b: Chunk<T>)
    ensures Converge64(text, a, b) <==> Converge64(text, b, a)
  {
  }

  lemma {:induction false} TieConvergesExactly<T>(text: seq<T>, a: Chunk<T>, b: Chunk<T>)
    requires Accepted64(a) && Accepted64(b) && Tie(a, b) && a.pos <= |text| && |text| + a.len + b.len <= MAX64
    ensures Converge64(text, a, b) <==> a.text + b.text == b.text + a.text
  {
    ViaAgrees(text, a, b);
    ViaAgrees(text, b, a);
    DiamondExact(text, a, b);
  }

  lemma {:induction false} MixedConvergeExactly<T>(text: seq<T>, a: Chunk<T>, r: Chunk<T>)
    requires Accepted64(a) && Accepted64(r) && a.op == ADD && r.op == REMOVE && Comparable(|text|, a, r)
    requires |text| + a.len <= MAX64
    ensures Converge64(text, a, r) <==> InsertionRemovalAgree(|text|, a, r)
  {
    if Splits(a, r) {
      SplitConvergesExactly(text, a, r);
    } else if a.pos <= |text| {
      InsertionRemovalConvergeExactly(text, a, r);
    } else {
      FittingRemovalAgrees(text, a, r);
      Diamond(text, a, r);
    }
  }

  /** The exact condition, on the machine, under which two concurrent edits converge, for the
      pairs of `DiamondExact` on texts that stay representable. */
  lemma {:induction false} DiamondExactOnMachine<T>(text: seq<T>, a: Chunk<T>, b: Chunk<T>)
    requires Accepted64(a) && Accepted64(b) && Comparable(|text|, a, b)
    requires |text| + (if a.op == ADD then a.len else 0) + (if b.op == ADD then b.len else 0) <= MAX64
    ensures Converge64(text, a, b) <==> DiamondOnMachine(text, a, b)
  {
    hide Via64, Apply64, Apply, Transform64, Converge64;
    Converge64Symmetric(text, a, b);
    if a.op == REMOVE && b.op == REMOVE {
      RemovalsConvergeExactly(text, a, b);
    } else if a.op == ADD && b.op == ADD {
      if a.pos < b.pos {
        InsertionsConvergeExactly(text, a, b);
      } else if b.pos < a.pos {
        InsertionsConvergeExactly(text, b, a);
      } else {
        TieConvergesExactly(text, a, b);
      }
    } else if a.op == ADD {
      MixedConvergeExactly(text, a, b);
    } else {
      MixedConvergeExactly(text, b, a);
    }
  }

  /** With room for both lengths nothing overflows, whether or not the edits fit: the machine
      does in both orders what is specified. */
  lemma {:induction false} RoomSuffices<T>(text: seq<T>, a: Chunk<T>, b: Chunk<T>)
    requires Valid(a) && Valid(b) && a.pos + a.len + b.len <= MAX64 && b.pos + b.len + a.len <= MAX64
    ensures Via64(text, a, b) == Some(Via(text, a, b)) && Via64(text, b, a) == Some(Via(text, b, a))
  {
    ViaAgrees(text, a, b);
    ViaAgrees(text, b, a);
  }
}
