/** The server on 64-bit integers: when its runs are the runs of the other modules. */
module MachineRuns {
  import opened Chunks
  import opened Files
  import opened Runs
  import opened Snapshots
  import opened Intent
  import opened MachineInts

  // ---- lists of chunks ----

  /** `ApplyMultiple` as the machine computes it; `None` is a panic. */
  function ApplyAll64<T>(text: seq<T>, cs: seq<Chunk<T>>): Option<seq<T>>
    decreases |cs|
  {
    if cs == [] then Some(text)
    else match Apply64(text, cs[0])
      case None => None
      case Some(t) => ApplyAll64(t, cs[1..])
  }

  /** No removal that starts inside the text of its stage has an overflowing end. */
  predicate SlicesAlong<T>(text: seq<T>, cs: seq<Chunk<T>>)
    requires ValidAll(cs)
    decreases |cs|
  {
    cs == [] ||
    ((cs[0].op == REMOVE && Over(cs[0]) ==> cs[0].pos >= |text|) && SlicesAlong(Apply(text, cs[0]), cs[1..]))
  }

  lemma {:induction false} ApplyAllExact<T>(text: seq<T>, cs: seq<Chunk<T>>)
    requires ValidAll(cs) && All64(cs)
    ensures ApplyAll64(text, cs) == if SlicesAlong(text, cs) then Some(ApplyAll(text, cs)) else None
    decreases |cs|
  {
    if cs != [] {
      ApplyExact(text, cs[0]);
      ApplyAllExact(Apply(text, cs[0]), cs[1..]);
    }
  }

  function TransformAll64<T>(log: seq<Chunk<T>>, m: seq<Chunk<T>>): seq<Chunk<T>> {
    seq(|m|, i requires 0 <= i < |m| => Through64(log, m[i]))
  }

  /** How many runes the insertions of a log add. */
  function Inserted<T>(log: seq<Chunk<T>>): (n: nat)
    requires ValidAll(log)
  {
    if log == [] then 0 else (if log[0].op == ADD then log[0].len else 0) + Inserted(log[1..])
  }

  predicate AllFit<T>(cs: seq<Chunk<T>>) {
    forall i | 0 <= i < |cs| :: !Over(cs[i])
  }

  predicate HasRoom<T>(c: Chunk<T>, room: int) {
    c.pos + c.len + room <= MAX64
  }

  predicate AllHaveRoom<T>(m: seq<Chunk<T>>, room: int) {
    forall i | 0 <= i < |m| :: HasRoom(m[i], room)
  }

  lemma {:induction false} StepFits<T>(op: Chunk<T>, c: Chunk<T>, room: nat)
    requires Valid(op) && !Over(op) && Valid(c) && HasRoom(c, (if op.op == ADD then op.len else 0) + room)
    ensures Transform64(op, c) == Transform(op, c) && Valid(Transform(op, c)) && HasRoom(Transform(op, c), room)
  {
    TransformExact(op, c);
  }

  /** A chunk with room for everything the log inserts is moved as specified, clamped or not. */
  lemma {:induction false} ThroughFits<T>(log: seq<Chunk<T>>, c: Chunk<T>, room: nat)
    requires ValidAll(log) && AllFit(log) && Valid(c) && HasRoom(c, Inserted(log) + room)
    ensures Through64(log, c) == Through(log, c) && Valid(Through(log, c)) && HasRoom(Through(log, c), room)
  {
    if log != [] {
      StepFits(log[0], c, Inserted(log[1..]) + room);
      ThroughFits(log[1..], Transform(log[0], c), room);
    }
  }

  lemma {:induction false} TransformAllFits<T>(log: seq<Chunk<T>>, m: seq<Chunk<T>>, room: nat)
    requires ValidAll(log) && AllFit(log) && ValidAll(m) && AllHaveRoom(m, Inserted(log) + room)
    ensures TransformAll64(log, m) == TransformAll(log, m)
    ensures ValidAll(TransformAll(log, m)) && AllHaveRoom(TransformAll(log, m), room)
  {
    forall i | 0 <= i < |m|
      ensures Through64(log, m[i]) == Through(log, m[i]) && Valid(Through(log, m[i])) && HasRoom(Through(log, m[i]), room)
    {
      ThroughFits(log, m[i], room);
    }
  }

  lemma {:induction false} FittingSlices<T>(text: seq<T>, cs: seq<Chunk<T>>)
    requires ValidAll(cs) && AllFit(cs)
    ensures ApplyAll64(text, cs) == Some(ApplyAll(text, cs))
    decreases |cs|
  {
    if cs != [] {
      ApplyExact(text, cs[0]);
      FittingSlices(Apply(text, cs[0]), cs[1..]);
    }
  }

  /** The intent of a stale removal, on the machine and over any log that the server could
      apply: right at every stage, and finally in effect, if and only if no removal of the log
      has an overflowing end (the second half at every stage of the log). */
  lemma {:induction false} RemovalIntentOnMachine<T>(text: seq<T>, log: seq<Chunk<T>>, r: Chunk<T>)
    requires ValidAll(log) && All64(log) && LengthsFit(text, log) && SlicesAlong(text, log)
    requires Chunk64(r) && InBounds(|text|, r) && r.op == REMOVE
    ensures ApplyAll64(text, log) == Some(ApplyAll(text, log))
    ensures RightAtEveryStage(log, r) <==> EndsFit(log)
    ensures EndsFit(log) ==>
              Apply64(ApplyAll(text, log), Through64(log, r)) == Some(Values(Survivors(Track(Cells(text), log, r), r)))
  {
    ApplyAllExact(text, log);
    ThroughAgrees(text, log, r);
    RemovalIntent(text, log, r);
  }

  // ---- the server ----

  function Walk64(rows: seq<OpRow>, at: int, chunks: seq<Edit>): Stale {
    if rows == [] then Ready(chunks)
    else if at + 1 != rows[0].version then MissingOperation(at + 1)
    else Walk64(rows[1..], rows[0].version, TransformAll64(rows[0].chunks, chunks))
  }

  function TransformStale64(rows: seq<OpRow>, current: int, v: int, chunks: seq<Edit>): Stale {
    if v >= current then Ready(chunks) else Walk64(NewerThan(rows, v), v, chunks)
  }

  /** `OnChunks` as the machine does it; `None` is a panic. */
  function OnChunks64(s: FileState, v: int, chunks: seq<Edit>, fault: Fault): Option<(FileState, Outcome)> {
    if chunks == [] || !ValidAll(chunks) then Some((s, Ignored))
    else if s.cached.None? && fault == LoadFault then Some((s, Failed))
    else
      var l := Loaded(s);
      var c := l.cached.value;
      if v < c.version && fault == QueryFault then Some((l, Failed))
      else match TransformStale64(l.ops, c.version, v, chunks)
        case MissingOperation(_) => Some((l, Rejected))
        case Ready(moved) =>
          match ApplyAll64(c.content, moved)
          case None => None
          case Some(text) =>
            if fault == PersistFault || HasOp(l.ops, c.version + 1) then Some((l, Failed))
            else
              var next := l.(version := c.version + 1,
                             ops := InsertOp(l.ops, OpRow(c.version + 1, moved, l.clock)),
                             cached := Some(Cached(text, c.version + 1, c.pending + 1)));
              Some((next, Committed(c.version + 1, moved)))
  }

  predicate RowFits(row: OpRow) { ValidAll(row.chunks) && AllFit(row.chunks) }

  predicate RowsFit(rows: seq<OpRow>) {
    forall i | 0 <= i < |rows| :: RowFits(rows[i])
  }

  /** How many runes the operations newer than `v` insert. */
  function InsertedSince(rows: seq<OpRow>, v: int): (n: nat)
    requires RowsFit(rows)
  {
    if rows == [] then 0
    else (if rows[0].version > v then Inserted(rows[0].chunks) else 0) + InsertedSince(rows[1..], v)
  }

  /** What the server would have to check on receipt: every end stays representable when all
      that was inserted since lies before it. */
  predicate MessageFits(rows: seq<OpRow>, v: int, chunks: seq<Edit>)
    requires RowsFit(rows)
  {
    AllHaveRoom(chunks, InsertedSince(rows, v))
  }

  /** The number of runes that the queried rows insert. */
  function InsertedBy(rows: seq<OpRow>): (n: nat)
    requires RowsFit(rows)
  {
    if rows == [] then 0 else Inserted(rows[0].chunks) + InsertedBy(rows[1..])
  }

  lemma {:induction false} InsertedByNewer(rows: seq<OpRow>, v: int)
    requires RowsFit(rows)
    ensures RowsFit(NewerThan(rows, v)) && InsertedBy(NewerThan(rows, v)) == InsertedSince(rows, v)
  {
    if rows != [] {
      InsertedByNewer(rows[1..], v);
      var rest := NewerThan(rows[1..], v);
      assert ([rows[0]] + rest)[1..] == rest;
      assert [] + rest == rest;
    }
  }

  lemma {:induction false} WalkFits(rows: seq<OpRow>, at: int, chunks: seq<Edit>)
    requires RowsFit(rows) && ValidAll(chunks) && AllHaveRoom(chunks, InsertedBy(rows))
    ensures Walk64(rows, at, chunks) == Walk(rows, at, chunks)
    ensures Walk(rows, at, chunks).Ready? ==> ValidAll(Walk(rows, at, chunks).chunks) && AllFit(Walk(rows, at, chunks).chunks)
    decreases |rows|
  {
    if rows != [] {
      assert RowFits(rows[0]);
      TransformAllFits(rows[0].chunks, chunks, InsertedBy(rows[1..]));
      WalkFits(rows[1..], rows[0].version, TransformAll(rows[0].chunks, chunks));
    } else {
      assert forall i | 0 <= i < |chunks| :: HasRoom(chunks[i], 0);
    }
  }

  lemma {:induction false} StaleFits(rows: seq<OpRow>, current: int, v: int, chunks: seq<Edit>)
    requires RowsFit(rows) && ValidAll(chunks) && MessageFits(rows, v, chunks)
    ensures TransformStale64(rows, current, v, chunks) == TransformStale(rows, current, v, chunks)
    ensures var t := TransformStale(rows, current, v, chunks); t.Ready? ==> ValidAll(t.chunks) && AllFit(t.chunks)
  {
    InsertedByNewer(rows, v);
    if v >= current {
      assert forall i | 0 <= i < |chunks| :: HasRoom(chunks[i], InsertedSince(rows, v));
    } else {
      WalkFits(NewerThan(rows, v), v, chunks);
    }
  }

  lemma {:induction false} InsertOpFits(rows: seq<OpRow>, row: OpRow)
    requires RowsFit(rows) && RowFits(row)
    ensures RowsFit(InsertOp(rows, row))
  {
    if !(rows == [] || row.version < rows[0].version) {
      assert RowFits(rows[0]);
      InsertOpFits(rows[1..], row);
    }
  }

  /** A message with room is handled exactly as specified and leaves a log of the same kind. */
  lemma {:induction false} OnChunksFits(s: FileState, v: int, chunks: seq<Edit>, fault: Fault)
    requires StoredValid(s) && RowsFit(s.ops) && (ValidAll(chunks) ==> MessageFits(s.ops, v, chunks))
    ensures OnChunks64(s, v, chunks, fault) == Some(OnChunks(s, v, chunks, fault))
    ensures RowsFit(OnChunks(s, v, chunks, fault).0.ops)
  {
    hide RowsFit, MessageFits, ApplyAll, TransformStale, TransformStale64, InsertOp, ApplyAll64, StoredValid, HasOp, ValidAll, AllFit;
    if ValidAll(chunks) {
      var c := Loaded(s).cached.value;
      StaleFits(s.ops, c.version, v, chunks);
      var t := TransformStale(s.ops, c.version, v, chunks);
      if t.Ready? {
        FittingSlices(c.content, t.chunks);
        InsertOpFits(s.ops, OpRow(c.version + 1, t.chunks, s.clock));
      }
    }
  }

  /** A step on the machine; a state that holds an invalid chunk has no next one. */
  function Step64(cfg: Config, s: FileState, a: Action): Option<(FileState, Outcome)>
    requires cfg.checkpoint != 0
  {
    if !StoredValid(s) then None
    else if a.Receive? then OnChunks64(s, a.version, a.chunks, a.fault)
    else Some(Step(cfg, s, a))
  }

  function Run64(cfg: Config, s: FileState, acts: seq<Action>): Option<FileState>
    requires cfg.checkpoint != 0
    decreases |acts|
  {
    if acts == [] then Some(s)
    else match Step64(cfg, s, acts[0])
      case None => None
      case Some(r) => Run64(cfg, r.0, acts[1..])
  }

  /** Every valid message of the run has room when it is received. */
  ghost predicate RunFits(cfg: Config, t: Traced, acts: seq<Action>)
    requires Reached(cfg, t) && DurableAll(acts)
    decreases |acts|
  {
    acts == [] ||
    (&& (acts[0].Receive? && ValidAll(acts[0].chunks) ==>
           RowsFit(t.now.ops) && MessageFits(t.now.ops, acts[0].version, acts[0].chunks))
     && RunFits(cfg, TracedStep(cfg, t, acts[0]), acts[1..]))
  }

  lemma {:induction false} NotOlderThanFits(rows: seq<OpRow>, cutoff: nat)
    requires RowsFit(rows)
    ensures RowsFit(NotOlderThan(rows, cutoff))
  {
    if rows != [] {
      assert RowFits(rows[0]);
      NotOlderThanFits(rows[1..], cutoff);
    }
  }

  lemma {:induction false} StepAgrees(cfg: Config, t: Traced, a: Action)
    requires Reached(cfg, t) && Durable(a) && RowsFit(t.now.ops)
    requires a.Receive? && ValidAll(a.chunks) ==> MessageFits(t.now.ops, a.version, a.chunks)
    ensures Step64(cfg, t.now, a) == Some(Step(cfg, t.now, a))
    ensures RowsFit(TracedStep(cfg, t, a).now.ops)
  {
    hide OnChunks, OnChunks64, RowsFit, SnapsOk, OpsOk, CacheOk, StoredValid, HistoryOk;
    if a.Receive? {
      OnChunksFits(t.now, a.version, a.chunks, a.fault);
    } else if a.Purge? {
      NotOlderThanFits(t.now.ops, a.cutoff);
    }
  }

  /** As long as every message has room, the machine neither panics nor departs from the
      specified run, so that everything proved about runs holds of it. */
  lemma {:induction false} MachineRunAgrees(cfg: Config, t: Traced, acts: seq<Action>)
    requires Reached(cfg, t) && DurableAll(acts) && RowsFit(t.now.ops) && RunFits(cfg, t, acts)
    ensures Run64(cfg, t.now, acts) == Some(Run(cfg, t, acts).now)
    decreases |acts|
  {
    if acts != [] {
      StepAgrees(cfg, t, acts[0]);
      hide Step64, Step, Inv, OnChunks64, RowsFit, MessageFits, StoredValid;
      MachineRunAgrees(cfg, TracedStep(cfg, t, acts[0]), acts[1..]);
    }
  }

  // ---- a message without room ----

  lemma {:induction false} OneApplied(text: Text, e: Edit)
    ensures ApplyAll64(text, [e]) == Apply64(text, e)
  {
    assert [e][1..] == [];
    if Apply64(text, e).Some? {
      assert ApplyAll64(Apply64(text, e).value, [e][1..]) == Apply64(text, e);
    }
  }

  lemma {:induction false} OneRowWalked(row: OpRow, b: Edit)
    requires row.version == 1 && |row.chunks| == 1
    ensures TransformStale64([row], 1, 0, [b]) == Ready([Transform64(row.chunks[0], b)])
  {
    assert row.chunks[1..] == [];
    assert NewerThan([row], 0) == [row] by {
      assert [row][1..] == [] && NewerThan([row][1..], 0) == [];
    }
    assert Through64(row.chunks, b) == Transform64(row.chunks[0], b);
    var moved := TransformAll64(row.chunks, [b]);
    assert moved == [Transform64(row.chunks[0], b)];
    assert [row][1..] == [];
    assert Walk64([row][1..], 1, moved) == Ready(moved);
  }

  /** Two accepted messages after which the server is gone: the first removes nothing, the
      second is an ordinary removal of one version earlier. */
  lemma {:induction false} MessageWithoutRoomPanics()
    ensures var a, b := Chunk(REMOVE, 9223372036854774784, "", 1024), Chunk(REMOVE, 0, "abc", 3);
            var s := Created("abc", 0);
            var s' := FileState(1, "abc", [OpRow(1, [a], 0)], [], Some(Cached("abc", 1, 1)), 0);
            && OnChunks64(s, 0, [a], NoFault) == Some((s', Committed(1, [a])))
            && OnChunks64(s', 0, [b], NoFault) == None
  {
    var a, b := Chunk(REMOVE, 9223372036854774784, "", 1024), Chunk(REMOVE, 0, "abc", 3);
    StoredRemovalPanics();
    OneApplied("abc", a);
    OneApplied("abc", Transform64(a, b));
    OneRowWalked(OpRow(1, [a], 0), b);
    hide ApplyAll64, Apply64, Transform64, Walk64;
    var s := Created("abc", 0);
    var s' := FileState(1, "abc", [OpRow(1, [a], 0)], [], Some(Cached("abc", 1, 1)), 0);
    assert Valid(a) && Valid(b);
    assert TransformStale64([], 0, 0, [a]) == Ready([a]);
    assert !HasOp([], 1) && InsertOp([], OpRow(1, [a], 0)) == [OpRow(1, [a], 0)];
    assert OnChunks64(s, 0, [a], NoFault) == Some((s', Committed(1, [a])));
    assert OnChunks64(s', 0, [b], NoFault) == None;
  }
}
