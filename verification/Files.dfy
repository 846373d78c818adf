/** One synchronised file as the server sees it: its row, its object on disk, its rows in
    the operations and snapshots tables and its entry in the cache, with one function per
    server routine.  The classes of module Server refine these functions. */
module Files {
  import opened Chunks
  import opened EditScripts

  type Text = seq<char>
  type Edit = Chunk<char>

  datatype Option<T> = None | Some(value: T)

  /** A row of the operations table. */
  datatype OpRow = OpRow(version: int, chunks: seq<Edit>, createdAt: nat)

  /** A row of the snapshots table together with the object its path names. */
  datatype Snapshot =
    | Full(version: int, createdAt: nat, text: Text)
    | Delta(version: int, createdAt: nat, chunks: seq<Edit>)

  datatype Cached = Cached(content: Text, version: int, pending: int)

  /** `ops` is listed by ascending version, `snaps` newest first: the orders in which the
      queries return them.  `clock` is the database clock. */
  datatype FileState = FileState(
    version: int, disk: Text, ops: seq<OpRow>, snaps: seq<Snapshot>, cached: Option<Cached>, clock: nat)

  /** `differ` stands for the diff library. */
  datatype Config = Config(threshold: int, checkpoint: int, maxChain: int, differ: (Text, Text) -> seq<Diff<char>>)

  /** Where a routine may be cut short by the database or the disk. */
  datatype Fault = NoFault | LoadFault | QueryFault | PersistFault | WriteFault | HashFault

  datatype Outcome =
    | Ignored
    | Rejected
    | Failed
    | Committed(version: int, chunks: seq<Edit>)
    | Content(version: int, text: Text)
    | Operations(rows: seq<OpRow>)
    | Silent

  datatype Action =
    | Receive(version: int, chunks: seq<Edit>, fault: Fault)
    | Fetch(fault: Fault)
    | Catchup(version: int)
    | Process(idle: bool, snapFault: Fault, flushFault: Fault)
    | Evict(fault: Fault)
    | Purge(cutoff: nat)
    | Tick(delta: nat)

  predicate StoredValid(s: FileState) {
    && (forall i | 0 <= i < |s.ops| :: ValidAll(s.ops[i].chunks))
    && (forall i | 0 <= i < |s.snaps| && s.snaps[i].Delta? :: ValidAll(s.snaps[i].chunks))
  }

  // ---- operations table ----

  /** The rows newer than `v`, in version order. */
  function NewerThan(rows: seq<OpRow>, v: int): (r: seq<OpRow>) {
    if rows == [] then []
    else (if rows[0].version > v then [rows[0]] else []) + NewerThan(rows[1..], v)
  }

  predicate HasOp(rows: seq<OpRow>, version: int) {
    exists i | 0 <= i < |rows| :: rows[i].version == version
  }

  function InsertOp(rows: seq<OpRow>, row: OpRow): seq<OpRow> {
    if rows == [] || row.version < rows[0].version then [row] + rows
    else [rows[0]] + InsertOp(rows[1..], row)
  }

  function NotOlderThan(rows: seq<OpRow>, cutoff: nat): seq<OpRow> {
    if rows == [] then []
    else (if rows[0].createdAt < cutoff then [] else [rows[0]]) + NotOlderThan(rows[1..], cutoff)
  }

  // ---- incoming messages ----

  datatype Stale = Ready(chunks: seq<Edit>) | MissingOperation(version: int)

  /** The loop over the queried rows, entered with `chunks` valid at version `at`. */
  function Walk(rows: seq<OpRow>, at: int, chunks: seq<Edit>): Stale {
    if rows == [] then Ready(chunks)
    else if at + 1 != rows[0].version then MissingOperation(at + 1)
    else Walk(rows[1..], rows[0].version, TransformAll(rows[0].chunks, chunks))
  }

  function TransformStale(rows: seq<OpRow>, current: int, v: int, chunks: seq<Edit>): Stale {
    if v >= current then Ready(chunks) else Walk(NewerThan(rows, v), v, chunks)
  }

  lemma {:induction false} WalkValid(rows: seq<OpRow>, at: int, chunks: seq<Edit>)
    requires ValidAll(chunks) && forall i | 0 <= i < |rows| :: ValidAll(rows[i].chunks)
    ensures Walk(rows, at, chunks).Ready? ==> ValidAll(Walk(rows, at, chunks).chunks)
    ensures Walk(rows, at, chunks).Ready? ==> |Walk(rows, at, chunks).chunks| == |chunks|
    decreases |rows|
  {
    if rows != [] {
      ValidityClosed(rows[0].chunks, chunks);
      WalkValid(rows[1..], rows[0].version, TransformAll(rows[0].chunks, chunks));
    }
  }

  lemma {:induction false} NewerThanMembers(rows: seq<OpRow>, v: int)
    ensures forall row :: row in NewerThan(rows, v) <==> row in rows && row.version > v
  {
    if rows != [] {
      NewerThanMembers(rows[1..], v);
      assert rows == [rows[0]] + rows[1..];
    }
  }

  lemma {:induction false} TransformStaleValid(rows: seq<OpRow>, current: int, v: int, chunks: seq<Edit>)
    requires ValidAll(chunks) && forall i | 0 <= i < |rows| :: ValidAll(rows[i].chunks)
    ensures var t := TransformStale(rows, current, v, chunks);
            t.Ready? ==> ValidAll(t.chunks) && |t.chunks| == |chunks|
  {
    NewerThanMembers(rows, v);
    WalkValid(NewerThan(rows, v), v, chunks);
  }

  function Loaded(s: FileState): FileState {
    if s.cached.Some? then s else s.(cached := Some(Cached(s.disk, s.version, 0)))
  }

  /** The state after operation `chunks` has been stored and applied to the cached copy. */
  function Commit(s: FileState, chunks: seq<Edit>): FileState
    requires s.cached.Some? && ValidAll(chunks)
  {
    var c := s.cached.value;
    s.(version := c.version + 1,
       ops := InsertOp(s.ops, OpRow(c.version + 1, chunks, s.clock)),
       cached := Some(Cached(ApplyAll(c.content, chunks), c.version + 1, c.pending + 1)))
  }

  function OnChunks(s: FileState, v: int, chunks: seq<Edit>, fault: Fault): (FileState, Outcome)
    requires StoredValid(s)
  {
    if chunks == [] || !ValidAll(chunks) then (s, Ignored)
    else if s.cached.None? && fault == LoadFault then (s, Failed)
    else
      var l := Loaded(s);
      var c := l.cached.value;
      if v < c.version && fault == QueryFault then (l, Failed)
      else
        TransformStaleValid(l.ops, c.version, v, chunks);
        match TransformStale(l.ops, c.version, v, chunks)
        case MissingOperation(_) => (l, Rejected)
        case Ready(moved) =>
          if fault == PersistFault || HasOp(l.ops, c.version + 1) then (l, Failed)
          else (Commit(l, moved), Committed(c.version + 1, moved))
  }

  lemma {:induction false} OnUnusable(s: FileState, v: int, chunks: seq<Edit>, fault: Fault)
    requires StoredValid(s) && (chunks == [] || !ValidAll(chunks))
    ensures OnChunks(s, v, chunks, fault) == (s, Ignored)
  {
  }

  /** The outcomes for a valid message once the file is in memory. */
  lemma {:induction false} OnCachedFile(s: FileState, v: int, chunks: seq<Edit>, fault: Fault)
    requires StoredValid(s) && chunks != [] && ValidAll(chunks) && s.cached.Some?
    ensures var c := s.cached.value;
            var t := TransformStale(s.ops, c.version, v, chunks);
            && (v < c.version && fault == QueryFault ==> OnChunks(s, v, chunks, fault) == (s, Failed))
            && (!(v < c.version && fault == QueryFault) && t.MissingOperation? ==> OnChunks(s, v, chunks, fault) == (s, Rejected))
            && (!(v < c.version && fault == QueryFault) && t.Ready? ==>
                  && ValidAll(t.chunks)
                  && OnChunks(s, v, chunks, fault) ==
                     if fault == PersistFault || HasOp(s.ops, c.version + 1) then (s, Failed)
                     else (Commit(s, t.chunks), Committed(c.version + 1, t.chunks)))
  {
    TransformStaleValid(s.ops, s.cached.value.version, v, chunks);
  }

  lemma {:induction false} OnLoaded(s: FileState, v: int, chunks: seq<Edit>, fault: Fault)
    requires StoredValid(s) && chunks != [] && ValidAll(chunks)
    ensures Loaded(s).cached.Some? && StoredValid(Loaded(s))
    ensures OnChunks(s, v, chunks, fault) ==
            if s.cached.None? && fault == LoadFault then (s, Failed) else OnChunks(Loaded(s), v, chunks, fault)
  {
  }

  // ---- write-back ----

  /** Writes the cached content; the flag says whether the routine returned no error. */
  function Flush(s: FileState, fault: Fault): (FileState, bool) {
    if s.cached.None? then (s, true)
    else if s.cached.value.pending <= 0 then (s.(cached := Some(s.cached.value.(pending := 0))), true)
    else if fault == WriteFault then (s, false)
    else
      var written := s.(disk := s.cached.value.content);
      if fault == HashFault then (written, false)
      else (written.(cached := Some(s.cached.value.(pending := 0))), true)
  }

  /** Eviction flushes what is pending; an error is only logged. */
  function Evicted(s: FileState, fault: Fault): FileState {
    Flush(s, fault).0.(cached := None)
  }

  function FetchFile(s: FileState, fault: Fault): (FileState, Outcome) {
    var (t, ok) := Flush(s, fault);
    (t, if ok then Content(s.version, t.disk) else Failed)
  }

  // ---- snapshots ----

  function AddedAfter(a: Snapshot, b: Snapshot): bool {
    a.createdAt > b.createdAt || (a.createdAt == b.createdAt && a.version > b.version)
  }

  predicate HasSnapshot(snaps: seq<Snapshot>, version: int) {
    exists i | 0 <= i < |snaps| :: snaps[i].version == version
  }

  function InsertSnapshot(snaps: seq<Snapshot>, snap: Snapshot): seq<Snapshot> {
    if snaps == [] || AddedAfter(snap, snaps[0]) then [snap] + snaps
    else [snaps[0]] + InsertSnapshot(snaps[1..], snap)
  }

  /** How many deltas head the table. */
  function LeadingDeltas(snaps: seq<Snapshot>): nat {
    if snaps == [] || snaps[0].Full? then 0 else 1 + LeadingDeltas(snaps[1..])
  }

  predicate NeedsFull(cfg: Config, snaps: seq<Snapshot>, version: int)
    requires cfg.checkpoint != 0
  {
    snaps == [] || version % cfg.checkpoint == 0 || LeadingDeltas(snaps) >= cfg.maxChain
  }

  predicate DeltasValid(snaps: seq<Snapshot>) {
    forall i | 0 <= i < |snaps| && snaps[i].Delta? :: ValidAll(snaps[i].chunks)
  }

  /** The content at version `w`: newest base not after `w`, then the deltas above it. */
  function Reconstruct(snaps: seq<Snapshot>, w: int): Option<Text>
    requires DeltasValid(snaps)
  {
    if snaps == [] then None
    else if snaps[0].version > w then Reconstruct(snaps[1..], w)
    else match snaps[0]
      case Full(_, _, text) => Some(text)
      case Delta(_, _, chunks) =>
        match Reconstruct(snaps[1..], w)
        case None => None
        case Some(base) => Some(ApplyAll(base, chunks))
  }

  function SnapshotBase(snaps: seq<Snapshot>): Option<Text>
    requires DeltasValid(snaps) && snaps != []
  {
    match snaps[0]
    case Full(_, _, text) => Some(text)
    case Delta(v, _, _) => Reconstruct(snaps, v)
  }

  /** The primary key keeps the first snapshot of a version. */
  function WithSnapshot(s: FileState, snap: Snapshot): FileState {
    if HasSnapshot(s.snaps, snap.version) then s else s.(snaps := InsertSnapshot(s.snaps, snap))
  }

  /** The row a snapshot of the cached content would get, if its base can be resolved. */
  function NewSnapshot(cfg: Config, s: FileState): Option<Snapshot>
    requires cfg.checkpoint != 0 && s.cached.Some? && StoredValid(s)
  {
    var c := s.cached.value;
    if NeedsFull(cfg, s.snaps, c.version) then Some(Full(c.version, s.clock, c.content))
    else match SnapshotBase(s.snaps)
      case None => None
      case Some(base) => Some(Delta(c.version, s.clock, ScriptChunks(cfg.differ(base, c.content), 0)))
  }

  function TakeSnapshot(cfg: Config, s: FileState, fault: Fault): FileState
    requires cfg.checkpoint != 0 && s.cached.Some? && StoredValid(s)
  {
    if fault != NoFault && !(fault == LoadFault && NeedsFull(cfg, s.snaps, s.cached.value.version)) then s
    else match NewSnapshot(cfg, s)
      case None => s
      case Some(snap) => WithSnapshot(s, snap)
  }

  lemma {:induction false} SnapshotTaken(cfg: Config, s: FileState, fault: Fault)
    requires cfg.checkpoint != 0 && s.cached.Some? && StoredValid(s)
    ensures !NeedsFull(cfg, s.snaps, s.cached.value.version) ==> s.snaps != [] && DeltasValid(s.snaps)
    ensures var c := s.cached.value;
            if fault in {QueryFault, WriteFault, HashFault, PersistFault} then TakeSnapshot(cfg, s, fault) == s
            else if NeedsFull(cfg, s.snaps, c.version) then
              TakeSnapshot(cfg, s, fault) == WithSnapshot(s, Full(c.version, s.clock, c.content))
            else if fault == LoadFault then TakeSnapshot(cfg, s, fault) == s
            else
              match SnapshotBase(s.snaps)
              case None => TakeSnapshot(cfg, s, fault) == s
              case Some(base) =>
                var snap := Delta(c.version, s.clock, ScriptChunks(cfg.differ(base, c.content), 0));
                TakeSnapshot(cfg, s, fault) == WithSnapshot(s, snap)
  {
  }

  /** One visit of the background routine. */
  function ProcessFile(cfg: Config, s: FileState, idle: bool, snapFault: Fault, flushFault: Fault): FileState
    requires cfg.checkpoint != 0 && StoredValid(s)
  {
    if s.cached.None? || s.cached.value.pending <= 0 then s
    else if s.cached.value.pending > cfg.threshold || idle then Flush(TakeSnapshot(cfg, s, snapFault), flushFault).0
    else s
  }

  // ---- one step, and runs ----

  function Step(cfg: Config, s: FileState, a: Action): (FileState, Outcome)
    requires cfg.checkpoint != 0 && StoredValid(s)
  {
    match a
    case Receive(v, chunks, fault) => OnChunks(s, v, chunks, fault)
    case Fetch(fault) => FetchFile(s, fault)
    case Catchup(v) => (s, Operations(NewerThan(s.ops, v)))
    case Process(idle, snapFault, flushFault) => (ProcessFile(cfg, s, idle, snapFault, flushFault), Silent)
    case Evict(fault) => (Evicted(s, fault), Silent)
    case Purge(cutoff) => (s.(ops := NotOlderThan(s.ops, cutoff)), Silent)
    case Tick(delta) => (s.(clock := s.clock + delta), Silent)
  }

  /** Everything that was ever committed: the text of each version and the operations. */
  datatype History = History(texts: seq<Text>, log: seq<seq<Edit>>)

  predicate HistoryOk(h: History) {
    && |h.texts| == |h.log| + 1
    && forall i | 0 <= i < |h.log| :: ValidAll(h.log[i]) && h.texts[i + 1] == ApplyAll(h.texts[i], h.log[i])
  }

  function Record(h: History, o: Outcome): History
    requires HistoryOk(h) && (o.Committed? ==> ValidAll(o.chunks))
    ensures HistoryOk(Record(h, o))
  {
    if o.Committed?
    then History(h.texts + [ApplyAll(h.texts[|h.log|], o.chunks)], h.log + [o.chunks])
    else h
  }
}
