/** What a stale edit does to the runes its author saw.  The text is followed together
    with the provenance of each rune, so the theorems speak of individual runes of the
    base version, not of equal-looking ones. */
module Intent {
  import opened Chunks

  /** Either the rune at `index` of the base version, or one that a log entry inserted;
      `inside` says that it went between two runes the stale removal is entitled to. */
  datatype Origin = Base(index: nat) | Logged(inside: bool)

  datatype Cell<T> = Cell(value: T, origin: Origin)

  function Cells<T>(text: seq<T>): seq<Cell<T>> {
    seq(|text|, i requires 0 <= i < |text| => Cell(text[i], Base(i)))
  }

  function Values<T>(cells: seq<Cell<T>>): seq<T> {
    seq(|cells|, i requires 0 <= i < |cells| => cells[i].value)
  }

  function Tag<T>(c: Chunk<T>, inside: bool): Chunk<Cell<T>> {
    Chunk(c.op, c.pos, seq(|c.text|, i requires 0 <= i < |c.text| => Cell(c.text[i], Logged(inside))), c.len)
  }

  /** The cells that the stale removal `r` of the base version is entitled to delete. */
  predicate Doomed<T>(cell: Cell<T>, r: Chunk<T>) {
    match cell.origin
    case Base(i) => r.op == REMOVE && r.pos <= i < r.pos + r.len
    case Logged(inside) => inside
  }

  /** `c` inserts between two neighbours that are both doomed: strictly inside the range. */
  predicate SplitsRange<T>(cells: seq<Cell<T>>, c: Chunk<T>, r: Chunk<T>) {
    c.op == ADD && 0 < c.pos < |cells| && Doomed(cells[c.pos - 1], r) && Doomed(cells[c.pos], r)
  }

  /** The cells after the log.  The stale edit `e` only serves to mark inserted cells. */
  function Track<T>(cells: seq<Cell<T>>, log: seq<Chunk<T>>, e: Chunk<T>): seq<Cell<T>>
    requires ValidAll(log)
    decreases |log|
  {
    if log == [] then cells
    else Track(Apply(cells, Tag(log[0], SplitsRange(cells, log[0], e))), log[1..], e)
  }

  lemma {:induction false} ValuesOfApply<T>(cells: seq<Cell<T>>, c: Chunk<T>, inside: bool)
    requires Valid(c)
    ensures Values(Apply(cells, Tag(c, inside))) == Apply(Values(cells), c)
  {
    ApplyShape(cells, Tag(c, inside));
    ApplyShape(Values(cells), c);
  }

  /** Forgetting the provenance gives the text the server computes. */
  lemma {:induction false} TrackErases<T>(cells: seq<Cell<T>>, log: seq<Chunk<T>>, e: Chunk<T>)
    requires ValidAll(log)
    ensures Values(Track(cells, log, e)) == ApplyAll(Values(cells), log)
    decreases |log|
  {
    if log != [] {
      var inside := SplitsRange(cells, log[0], e);
      ValuesOfApply(cells, log[0], inside);
      TrackErases(Apply(cells, Tag(log[0], inside)), log[1..], e);
    }
  }

  /** The base cells are runes of `text`, each at most once and in their old order. */
  ghost predicate Faithful<T>(cells: seq<Cell<T>>, text: seq<T>) {
    && (forall j | 0 <= j < |cells| && cells[j].origin.Base? ::
          cells[j].origin.index < |text| && cells[j].value == text[cells[j].origin.index])
    && (forall j, k | 0 <= j < k < |cells| && cells[j].origin.Base? && cells[k].origin.Base? ::
          cells[j].origin.index < cells[k].origin.index)
  }

  lemma {:induction false} FaithfulStep<T>(cells: seq<Cell<T>>, c: Chunk<T>, inside: bool, text: seq<T>)
    requires Valid(c) && Faithful(cells, text)
    ensures Faithful(Apply(cells, Tag(c, inside)), text)
  {
    hide Apply, Faithful, Paste, Cut;
    ApplyShape(cells, Tag(c, inside));
    if c.op == ADD {
      FaithfulPaste(cells, Min(c.pos, |cells|), Tag(c, inside).text, text);
    } else {
      FaithfulCut(cells, Min(c.pos, |cells|), Min(c.pos + c.len, |cells|), text);
    }
  }

  lemma {:induction false} FaithfulCut<T>(cells: seq<Cell<T>>, a: nat, b: nat, text: seq<T>)
    requires Faithful(cells, text) && a <= b <= |cells|
    ensures Faithful(Cut(cells, a, b), text)
  {
    var next := Cut(cells, a, b);
    assert forall j | 0 <= j < |next| :: next[j] == if j < a then cells[j] else cells[j + (b - a)];
  }

  lemma {:induction false} FaithfulPaste<T>(cells: seq<Cell<T>>, q: nat, t: seq<Cell<T>>, text: seq<T>)
    requires Faithful(cells, text) && q <= |cells| && forall j | 0 <= j < |t| :: t[j].origin.Logged?
    ensures Faithful(Paste(cells, q, t), text)
  {
    var next := Paste(cells, q, t);
    assert forall j | 0 <= j < |next| :: next[j] == if j < q then cells[j] else if j < q + |t| then t[j - q] else cells[j - |t|];
  }

  lemma {:induction false} TrackFaithful<T>(cells: seq<Cell<T>>, log: seq<Chunk<T>>, e: Chunk<T>, text: seq<T>)
    requires ValidAll(log) && Faithful(cells, text)
    ensures Faithful(Track(cells, log, e), text)
    decreases |log|
  {
    if log != [] {
      var inside := SplitsRange(cells, log[0], e);
      FaithfulStep(cells, log[0], inside, text);
      TrackFaithful(Apply(cells, Tag(log[0], inside)), log[1..], e, text);
    }
  }

  // ---- removals ----

  function Survivors<T>(cells: seq<Cell<T>>, r: Chunk<T>): seq<Cell<T>> {
    if cells == [] then []
    else (if Doomed(cells[0], r) then [] else [cells[0]]) + Survivors(cells[1..], r)
  }

  /** The range of `now` holds exactly the doomed cells. */
  ghost predicate RangeIsDoomed<T>(cells: seq<Cell<T>>, now: Chunk<T>, r: Chunk<T>) {
    && InBounds(|cells|, now)
    && now.op == REMOVE
    && forall j | 0 <= j < |cells| :: Doomed(cells[j], r) <==> now.pos <= j < now.pos + now.len
  }

  lemma {:induction false} SplitsIsInside<T>(cells: seq<Cell<T>>, c: Chunk<T>, now: Chunk<T>, r: Chunk<T>)
    requires Valid(c) && RangeIsDoomed(cells, now, r)
    ensures SplitsRange(cells, c, r) <==> c.op == ADD && now.pos < c.pos < now.pos + now.len
  {
  }

  lemma {:induction false} RangeStep<T>(cells: seq<Cell<T>>, c: Chunk<T>, inside: bool, now: Chunk<T>, r: Chunk<T>)
    requires Valid(c) && RangeIsDoomed(cells, now, r)
    requires inside <==> c.op == ADD && now.pos < c.pos < now.pos + now.len
    ensures RangeIsDoomed(Apply(cells, Tag(c, inside)), Transform(c, now), r)
  {
    if c.op == ADD {
      RangePastInsertion(cells, c, inside, now, r);
    } else {
      RangePastRemoval(cells, c, inside, now, r);
    }
  }

  lemma {:induction false} RangePastInsertion<T>(cells: seq<Cell<T>>, c: Chunk<T>, inside: bool, now: Chunk<T>, r: Chunk<T>)
    requires Valid(c) && c.op == ADD && RangeIsDoomed(cells, now, r)
    requires inside <==> now.pos < c.pos < now.pos + now.len
    ensures RangeIsDoomed(Apply(cells, Tag(c, inside)), Transform(c, now), r)
  {
    hide Apply;
    var q := Min(c.pos, |cells|);
    ApplyShape(cells, Tag(c, inside));
    var next := Apply(cells, Tag(c, inside));
    assert forall j | 0 <= j < |next| ::
        next[j] == if j < q then cells[j] else if j < q + c.len then Tag(c, inside).text[j - q] else cells[j - c.len];
  }

  lemma {:induction false} RangePastRemoval<T>(cells: seq<Cell<T>>, c: Chunk<T>, inside: bool, now: Chunk<T>, r: Chunk<T>)
    requires Valid(c) && c.op == REMOVE && RangeIsDoomed(cells, now, r)
    ensures RangeIsDoomed(Apply(cells, Tag(c, inside)), Transform(c, now), r)
  {
    hide Apply;
    var a, b := Min(c.pos, |cells|), Min(c.pos + c.len, |cells|);
    ApplyShape(cells, Tag(c, inside));
    var next := Apply(cells, Tag(c, inside));
    assert forall j | 0 <= j < |next| :: next[j] == if j < a then cells[j] else cells[j + (b - a)];
  }

  lemma {:induction false} RangeKept<T>(cells: seq<Cell<T>>, log: seq<Chunk<T>>, now: Chunk<T>, r: Chunk<T>)
    requires ValidAll(log) && RangeIsDoomed(cells, now, r)
    ensures RangeIsDoomed(Track(cells, log, r), Through(log, now), r)
    decreases |log|
  {
    if log != [] {
      var inside := SplitsRange(cells, log[0], r);
      SplitsIsInside(cells, log[0], now, r);
      RangeStep(cells, log[0], inside, now, r);
      RangeKept(Apply(cells, Tag(log[0], inside)), log[1..], Transform(log[0], now), r);
    }
  }

  lemma {:induction false} SurvivorsConcat<T>(a: seq<Cell<T>>, b: seq<Cell<T>>, r: Chunk<T>)
    ensures Survivors(a + b, r) == Survivors(a, r) + Survivors(b, r)
  {
    if a == [] {
      assert a + b == b;
    } else {
      assert (a + b)[1..] == a[1..] + b;
      SurvivorsConcat(a[1..], b, r);
    }
  }

  lemma {:induction false} SurvivorsUniform<T>(cells: seq<Cell<T>>, r: Chunk<T>, doomed: bool)
    requires forall j | 0 <= j < |cells| :: Doomed(cells[j], r) == doomed
    ensures Survivors(cells, r) == if doomed then [] else cells
  {
    if cells != [] {
      SurvivorsUniform(cells[1..], r, doomed);
    }
  }

  lemma {:induction false} SurvivorsAround<T>(cells: seq<Cell<T>>, now: Chunk<T>, r: Chunk<T>)
    requires RangeIsDoomed(cells, now, r)
    ensures Survivors(cells, r) == Cut(cells, now.pos, now.pos + now.len)
  {
    hide Survivors, Doomed;
    var a, b := now.pos, now.pos + now.len;
    var x, y, z := cells[..a], cells[a..b], cells[b..];
    SurvivorsUniform(x, r, false);
    SurvivorsUniform(y, r, true);
    SurvivorsUniform(z, r, false);
    SurvivorsConcat(x, y, r);
    SurvivorsConcat(x + y, z, r);
    assert cells == x + y + z;
  }

  lemma {:induction false} RemovingTheRange<T>(cells: seq<Cell<T>>, now: Chunk<T>, r: Chunk<T>)
    requires RangeIsDoomed(cells, now, r)
    ensures Apply(cells, Tag(now, false)) == Survivors(cells, r)
  {
    SurvivorsAround(cells, now, r);
    hide Cut, Survivors;
    ApplyShape(cells, Tag(now, false));
  }

  /** A removal made at the base version and carried through any valid log deletes every
      rune of the base still there inside its range, none outside it, and of the inserted
      ones exactly those that went strictly inside the range as it stood. */
  lemma {:induction false} RemovalIntent<T>(text: seq<T>, log: seq<Chunk<T>>, r: Chunk<T>)
    requires ValidAll(log) && InBounds(|text|, r) && r.op == REMOVE
    ensures Valid(Through(log, r))
    ensures Faithful(Track(Cells(text), log, r), text)
    ensures Values(Track(Cells(text), log, r)) == ApplyAll(text, log)
    ensures var cells := Track(Cells(text), log, r);
            Apply(cells, Tag(Through(log, r), false)) == Survivors(cells, r)
    ensures Apply(ApplyAll(text, log), Through(log, r)) == Values(Survivors(Track(Cells(text), log, r), r))
  {
    var cells := Track(Cells(text), log, r);
    var now := Through(log, r);
    ThroughKeepsValid(log, r);
    TrackFaithful(Cells(text), log, r, text);
    TrackErases(Cells(text), log, r);
    assert Values(Cells(text)) == text;
    RangeKept(Cells(text), log, r, r);
    RemovingTheRange(cells, now, r);
    ValuesOfApply(cells, now, false);
  }

  lemma {:induction false} SurvivorsMembership<T>(cells: seq<Cell<T>>, r: Chunk<T>, cell: Cell<T>)
    ensures cell in Survivors(cells, r) <==> cell in cells && !Doomed(cell, r)
  {
    if cells != [] {
      SurvivorsMembership(cells[1..], r, cell);
    }
  }

  // ---- insertions ----

  /** Base cells of index below `a.pos` are exactly the ones left of the insertion point. */
  ghost predicate SplitAt<T>(cells: seq<Cell<T>>, now: Chunk<T>, a: Chunk<T>) {
    && InBounds(|cells|, now)
    && now.op == ADD
    && forall j | 0 <= j < |cells| && cells[j].origin.Base? :: cells[j].origin.index < a.pos <==> j < now.pos
  }

  lemma {:induction false} SplitStep<T>(cells: seq<Cell<T>>, c: Chunk<T>, inside: bool, now: Chunk<T>, a: Chunk<T>)
    requires Valid(c) && SplitAt(cells, now, a)
    ensures SplitAt(Apply(cells, Tag(c, inside)), Transform(c, now), a)
  {
    hide Apply;
    ApplyShape(cells, Tag(c, inside));
  }

  lemma {:induction false} SplitKept<T>(cells: seq<Cell<T>>, log: seq<Chunk<T>>, now: Chunk<T>, a: Chunk<T>)
    requires ValidAll(log) && SplitAt(cells, now, a)
    ensures SplitAt(Track(cells, log, a), Through(log, now), a)
    decreases |log|
  {
    if log != [] {
      var inside := SplitsRange(cells, log[0], a);
      SplitStep(cells, log[0], inside, now, a);
      SplitKept(Apply(cells, Tag(log[0], inside)), log[1..], Transform(log[0], now), a);
    }
  }

  /** An insertion made at position `a.pos` of the base version and carried through any
      valid log lands, in one piece and unchanged, after every base rune still there of a
      smaller index and before every one of an equal or greater index. */
  lemma {:induction false} InsertionIntent<T>(text: seq<T>, log: seq<Chunk<T>>, a: Chunk<T>)
    requires ValidAll(log) && InBounds(|text|, a) && a.op == ADD
    ensures Valid(Through(log, a)) && Through(log, a).pos <= |ApplyAll(text, log)|
    ensures Faithful(Track(Cells(text), log, a), text)
    ensures Values(Track(Cells(text), log, a)) == ApplyAll(text, log)
    ensures var q := Through(log, a).pos;
            Apply(ApplyAll(text, log), Through(log, a)) == ApplyAll(text, log)[..q] + a.text + ApplyAll(text, log)[q..]
    ensures var cells := Track(Cells(text), log, a);
            forall j | 0 <= j < |cells| && cells[j].origin.Base? ::
              cells[j].origin.index < a.pos <==> j < Through(log, a).pos
  {
    ThroughKeepsValid(log, a);
    TrackFaithful(Cells(text), log, a, text);
    TrackErases(Cells(text), log, a);
    assert Values(Cells(text)) == text;
    SplitKept(Cells(text), log, a, a);
    ApplyShape(ApplyAll(text, log), Through(log, a));
  }
}
