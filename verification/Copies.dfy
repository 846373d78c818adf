/** Several copies of one file may sit in memory, loaded independently of each other.  The
    primary key of the operations table and the single transaction of a commit keep the
    history linear all the same. */
module Copies {
  import opened Chunks
  import opened Files
  import opened Runs

  /** The shared rows and the copies; no row is ever purged. */
  datatype Fleet = Fleet(version: int, disk: Text, ops: seq<OpRow>, clock: nat, copies: seq<Cached>)

  datatype FleetAction =
    | Load
    | CommitFrom(copy: nat, version: int, chunks: seq<Edit>, fault: Fault)
    | FlushFrom(copy: nat, fault: Fault)
    | Wait(delta: nat)

  /** The file as the holder of one copy sees it. */
  function SeenBy(fl: Fleet, copy: nat): FileState
    requires copy < |fl.copies|
  {
    FileState(fl.version, fl.disk, fl.ops, [], Some(fl.copies[copy]), fl.clock)
  }

  function Back(fl: Fleet, copy: nat, s: FileState): Fleet
    requires copy < |fl.copies| && s.cached.Some?
  {
    Fleet(s.version, s.disk, s.ops, s.clock, fl.copies[copy := s.cached.value])
  }

  predicate FleetValid(fl: Fleet) {
    forall i | 0 <= i < |fl.ops| :: ValidAll(fl.ops[i].chunks)
  }

  function FleetStep(fl: Fleet, a: FleetAction): (r: (Fleet, Outcome))
    requires FleetValid(fl)
  {
    match a
    case Load => (fl.(copies := fl.copies + [Cached(fl.disk, fl.version, 0)]), Silent)
    case CommitFrom(i, v, chunks, fault) =>
      if i >= |fl.copies| then (fl, Ignored)
      else
        var (s, o) := OnChunks(SeenBy(fl, i), v, chunks, fault);
        OnChunksCases(SeenBy(fl, i), v, chunks, fault);
        (Back(fl, i, s), o)
    case FlushFrom(i, fault) =>
      if i >= |fl.copies| then (fl, Ignored)
      else (Back(fl, i, Flush(SeenBy(fl, i), fault).0), Silent)
    case Wait(delta) => (fl.(clock := fl.clock + delta), Silent)
  }

  /** The committed versions are exactly 1 to the row's version; no copy is ahead of it. */
  ghost predicate Linear(fl: Fleet) {
    && FleetValid(fl)
    && fl.version == |fl.ops|
    && Contiguous(fl.ops, 1)
    && forall i | 0 <= i < |fl.copies| :: 0 <= fl.copies[i].version <= fl.version
  }

  /** With the rows unbroken from version 1 a stale message always reaches the newest one. */
  lemma {:induction false} AlwaysReady(fl: Fleet, current: int, v: nat, chunks: seq<Edit>)
    requires Linear(fl)
    ensures TransformStale(fl.ops, current, v, chunks).Ready?
  {
    NewerIsSuffix(fl.ops, 1, v);
    WalkUnbroken(NewerThan(fl.ops, v), v, chunks);
  }

  /** A commit succeeds exactly from a copy that is at the row's version; any other leaves
      rows and copies as they were. */
  lemma {:induction false} CommitExact(fl: Fleet, i: nat, v: int, chunks: seq<Edit>, fault: Fault)
    requires Linear(fl) && i < |fl.copies|
    ensures var (next, o) := FleetStep(fl, CommitFrom(i, v, chunks, fault));
            && (o.Committed? ==>
                  && fl.copies[i].version == fl.version
                  && o.version == next.version == fl.version + 1
                  && |next.ops| == |fl.ops| + 1 && next.ops[..|fl.ops|] == fl.ops
                  && ValidAll(o.chunks)
                  && next.ops[|fl.ops|] == OpRow(o.version, o.chunks, fl.clock)
                  && next.copies == fl.copies[i := Cached(ApplyAll(fl.copies[i].content, o.chunks), o.version, fl.copies[i].pending + 1)])
            && (!o.Committed? ==> next == fl)
            && (fault == NoFault && v >= 0 && chunks != [] && ValidAll(chunks) ==>
                  (o.Committed? <==> fl.copies[i].version == fl.version))
  {
    hide ApplyAll, ValidAll, Walk, InsertOp;
    var s, m := SeenBy(fl, i), fl.copies[i].version;
    OnChunksCases(s, v, chunks, fault);
    assert fl.copies[i := fl.copies[i]] == fl.copies;
    if m < fl.version {
      assert fl.ops[m].version == m + 1;
      assert HasOp(fl.ops, m + 1);
    } else {
      assert !HasOp(fl.ops, m + 1);
      if OnChunks(s, v, chunks, fault).1.Committed? {
        InsertAppends(fl.ops, OpRow(m + 1, OnChunks(s, v, chunks, fault).1.chunks, fl.clock));
      }
    }
    if v >= 0 {
      AlwaysReady(fl, m, v, chunks);
    }
  }

  lemma {:induction false} FleetStepLinear(fl: Fleet, a: FleetAction)
    requires Linear(fl)
    ensures Linear(FleetStep(fl, a).0)
  {
    hide OnChunks, ApplyAll, ValidAll;
    if a.CommitFrom? && a.copy < |fl.copies| {
      CommitExact(fl, a.copy, a.version, a.chunks, a.fault);
    }
  }

  ghost function FleetRun(fl: Fleet, acts: seq<FleetAction>): (r: Fleet)
    requires Linear(fl)
    ensures Linear(r)
    decreases |acts|
  {
    if acts == [] then fl
    else
      FleetStepLinear(fl, acts[0]);
      FleetRun(FleetStep(fl, acts[0]).0, acts[1..])
  }

  /** How many steps of a run were commits. */
  ghost function Commits(fl: Fleet, acts: seq<FleetAction>): nat
    requires Linear(fl)
    decreases |acts|
  {
    if acts == [] then 0
    else
      FleetStepLinear(fl, acts[0]);
      (if FleetStep(fl, acts[0]).1.Committed? then 1 else 0) + Commits(FleetStep(fl, acts[0]).0, acts[1..])
  }

  /** Over any run, with any number of copies: the row's version counts the commits, the
      rows are exactly the versions up to it, and no stored operation is ever replaced. */
  lemma {:induction false} HistoryStaysLinear(fl: Fleet, acts: seq<FleetAction>)
    requires Linear(fl)
    ensures var r := FleetRun(fl, acts);
            && r.version == fl.version + Commits(fl, acts)
            && (forall i | 0 <= i < |r.ops| :: r.ops[i].version == i + 1) && |r.ops| == r.version
            && fl.ops <= r.ops
    decreases |acts|
  {
    if acts != [] {
      var a := acts[0];
      if a.CommitFrom? && a.copy < |fl.copies| {
        CommitExact(fl, a.copy, a.version, a.chunks, a.fault);
      }
      FleetStepLinear(fl, a);
      HistoryStaysLinear(FleetStep(fl, a).0, acts[1..]);
    }
  }

  // ---- contents ----

  /** The text that the first `v` rows make of the first content. */
  function TextAt(first: Text, rows: seq<OpRow>, v: nat): Text
    requires v <= |rows| && forall i | 0 <= i < |rows| :: ValidAll(rows[i].chunks)
  {
    if v == 0 then first else ApplyAll(TextAt(first, rows, v - 1), rows[v - 1].chunks)
  }

  /** The copy holds the text of its version. */
  ghost predicate Truthful(first: Text, fl: Fleet, i: nat)
    requires Linear(fl) && i < |fl.copies|
  {
    fl.copies[i].content == TextAt(first, fl.ops, fl.copies[i].version)
  }

  lemma {:induction false} TextAtGrows(first: Text, rows: seq<OpRow>, more: seq<OpRow>, v: nat)
    requires v <= |rows| <= |more| && more[..|rows|] == rows
    requires (forall i | 0 <= i < |rows| :: ValidAll(rows[i].chunks)) && (forall i | 0 <= i < |more| :: ValidAll(more[i].chunks))
    ensures TextAt(first, rows, v) == TextAt(first, more, v)
  {
    if v > 0 {
      TextAtGrows(first, rows, more, v - 1);
      assert rows[v - 1] == more[v - 1];
    }
  }

  /** A copy loaded now is truthful if and only if the disk is current. */
  lemma {:induction false} LoadTruthful(first: Text, fl: Fleet)
    requires Linear(fl)
    ensures var next := FleetStep(fl, Load).0;
            Linear(next) && (Truthful(first, next, |fl.copies|) <==> fl.disk == TextAt(first, fl.ops, fl.version))
  {
    FleetStepLinear(fl, Load);
  }

  /** A commit applies to what the copy holds.  From a truthful copy it leaves a truthful one;
      from a copy of an older text everything committed since that text is lost, in the copy
      and, once it is flushed, on disk, while the rows still have it. */
  lemma {:induction false} CommitFromCopy(first: Text, fl: Fleet, i: nat, k: nat, v: int, chunks: seq<Edit>)
    requires Linear(fl) && i < |fl.copies| && FleetStep(fl, CommitFrom(i, v, chunks, NoFault)).1.Committed?
    requires k <= fl.version && fl.copies[i].content == TextAt(first, fl.ops, k) && fl.copies[i].pending >= 0
    ensures var (next, o) := FleetStep(fl, CommitFrom(i, v, chunks, NoFault));
            && Linear(next) && ValidAll(o.chunks) && i < |next.copies|
            && next.copies[i].content == ApplyAll(TextAt(first, fl.ops, k), o.chunks)
            && TextAt(first, next.ops, next.version) == ApplyAll(TextAt(first, fl.ops, fl.version), o.chunks)
            && (k == fl.version ==> Truthful(first, next, i))
            && FleetStep(next, FlushFrom(i, NoFault)).0.disk == ApplyAll(TextAt(first, fl.ops, k), o.chunks)
  {
    hide OnChunks, ApplyAll, ValidAll;
    CommitExact(fl, i, v, chunks, NoFault);
    FleetStepLinear(fl, CommitFrom(i, v, chunks, NoFault));
    var next := FleetStep(fl, CommitFrom(i, v, chunks, NoFault)).0;
    TextAtGrows(first, fl.ops, next.ops, fl.version);
  }

  /** One copy has committed an insertion and not flushed it; a second one, loaded meanwhile,
      commits another and loses the first. */
  lemma {:induction false} StaleLoadLoses()
    ensures var a, b := Chunk(ADD, 0, "x", 1), Chunk(ADD, 3, "y", 1);
            var fl := Fleet(1, "abc", [OpRow(1, [a], 0)], 0, [Cached("xabc", 1, 1)]);
            && Linear(fl) && Truthful("abc", fl, 0)
            && var (next, o) := FleetStep(FleetStep(fl, Load).0, CommitFrom(1, 1, [b], NoFault));
               && o == Committed(2, [b]) && |next.copies| == 2 && next.copies[1].content == "abcy"
  {
    var a, b := Chunk(ADD, 0, "x", 1), Chunk(ADD, 3, "y", 1);
    var rows := [OpRow(1, [a], 0)];
    var fl := Fleet(1, "abc", rows, 0, [Cached("xabc", 1, 1)]);
    hide ApplyAll, OnChunks, InsertOp;
    AppliedOne("abc", a);
    assert Apply("abc", a) == "xabc";
    assert TextAt("abc", rows, 0) == "abc" && TextAt("abc", rows, 1) == "xabc";
    AppliedOne("abc", b);
    assert Apply("abc", b) == "abcy";
    var loaded := FleetStep(fl, Load).0;
    var s := SeenBy(loaded, 1);
    assert ValidAll([b]) && !HasOp(rows, 2) && StoredValid(s);
    assert TransformStale(rows, 1, 1, [b]) == Ready([b]);
    OnCachedFile(s, 1, [b], NoFault);
  }
}
