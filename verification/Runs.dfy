/** What every run of the server keeps for one file: the log, the cache and the disk, the
    snapshots; and what that means for stale messages. */
module Runs {
  import opened Chunks
  import opened EditScripts
  import opened Files
  import opened Snapshots

  /** The surviving rows are the newest versions, without a gap, in order of creation. */
  ghost predicate OpsOk(s: FileState, h: History) {
    var n, m := |h.log|, |s.ops|;
    && m <= n
    && (forall i | 0 <= i < m :: s.ops[i].version == n - m + 1 + i && s.ops[i].chunks == h.log[n - m + i])
    && (forall i | 0 <= i < m :: s.ops[i].createdAt <= s.clock)
    && (forall i, j | 0 <= i < j < m :: s.ops[i].createdAt <= s.ops[j].createdAt)
  }

  /** The disk holds a version that the pending changes can bring up to date. */
  ghost predicate LagsBy(s: FileState, h: History, k: int, pending: int) {
    && 0 <= k < |h.texts|
    && s.version - pending <= k <= s.version
    && s.disk == h.texts[k]
  }

  ghost predicate CacheOk(s: FileState, h: History)
    requires HistoryOk(h) && s.version == |h.log|
  {
    match s.cached
    case None => s.disk == h.texts[s.version]
    case Some(c) =>
      && c.version == s.version
      && c.content == h.texts[s.version]
      && 0 <= c.pending
      && exists k :: LagsBy(s, h, k, c.pending)
  }

  ghost predicate Inv(cfg: Config, s: FileState, h: History) {
    && GoodConfig(cfg)
    && HistoryOk(h)
    && s.version == |h.log|
    && StoredValid(s)
    && OpsOk(s, h)
    && CacheOk(s, h)
    && SnapsOk(cfg, s.snaps, h)
    && (s.snaps != [] ==> s.snaps[0].createdAt <= s.clock)
  }

  /** A file just created with content `text`. */
  function Created(text: Text, clock: nat): FileState {
    FileState(0, text, [], [], None, clock)
  }

  lemma {:induction false} CreatedInv(cfg: Config, text: Text, clock: nat)
    requires GoodConfig(cfg)
    ensures Inv(cfg, Created(text, clock), History([text], []))
  {
  }

  // ---- the operations table ----

  ghost predicate Contiguous(rows: seq<OpRow>, first: int) {
    forall i | 0 <= i < |rows| :: rows[i].version == first + i
  }

  lemma {:induction false} InsertAppends(rows: seq<OpRow>, row: OpRow)
    requires forall i | 0 <= i < |rows| :: rows[i].version < row.version
    ensures InsertOp(rows, row) == rows + [row]
  {
    if rows != [] {
      InsertAppends(rows[1..], row);
    }
  }

  lemma {:induction false} NewerIsSuffix(rows: seq<OpRow>, first: int, v: int)
    requires Contiguous(rows, first)
    ensures NewerThan(rows, v) == rows[Max(0, Min(|rows|, v + 1 - first))..]
  {
    if rows != [] {
      var rest := rows[1..];
      var k := Max(0, Min(|rest|, v - first));
      NewerIsSuffix(rest, first + 1, v);
      if first > v {
        assert rest[0..] == rest;
      } else {
        assert rest[k..] == rows[k + 1..];
      }
    }
  }

  lemma {:induction false} SurvivorsAreSuffix(rows: seq<OpRow>, cutoff: nat) returns (k: nat)
    requires forall i, j | 0 <= i < j < |rows| :: rows[i].createdAt <= rows[j].createdAt
    ensures k <= |rows| && NotOlderThan(rows, cutoff) == rows[k..]
    ensures forall i | 0 <= i < k :: rows[i].createdAt < cutoff
    ensures forall i | k <= i < |rows| :: rows[i].createdAt >= cutoff
  {
    if rows == [] {
      k := 0;
    } else if rows[0].createdAt < cutoff {
      var rest := rows[1..];
      var j := SurvivorsAreSuffix(rest, cutoff);
      FirstExpired(rows, cutoff);
      hide NotOlderThan;
      assert forall i | 0 < i < |rows| :: rows[i] == rest[i - 1];
      assert rest[j..] == rows[j + 1..];
      k := j + 1;
    } else {
      NoneOlder(rows, cutoff);
      k := 0;
    }
  }

  lemma {:induction false} FirstExpired(rows: seq<OpRow>, cutoff: nat)
    requires rows != [] && rows[0].createdAt < cutoff
    ensures NotOlderThan(rows, cutoff) == NotOlderThan(rows[1..], cutoff)
  {
  }

  lemma {:induction false} NoneOlder(rows: seq<OpRow>, cutoff: nat)
    requires forall i | 0 <= i < |rows| :: rows[i].createdAt >= cutoff
    ensures NotOlderThan(rows, cutoff) == rows
  {
    if rows != [] {
      NoneOlder(rows[1..], cutoff);
    }
  }

  function ChunksOf(rows: seq<OpRow>): seq<seq<Edit>> {
    seq(|rows|, i requires 0 <= i < |rows| => rows[i].chunks)
  }

  /** Walking an unbroken run of rows is one transform against all their chunks. */
  lemma {:induction false} WalkUnbroken(rows: seq<OpRow>, at: int, chunks: seq<Edit>)
    requires Contiguous(rows, at + 1)
    ensures Walk(rows, at, chunks) == Ready(TransformAll(Flatten(ChunksOf(rows)), chunks))
    decreases |rows|
  {
    if rows == [] {
      assert TransformAll([], chunks) == chunks;
    } else {
      var rest := Flatten(ChunksOf(rows[1..]));
      WalkUnbroken(rows[1..], at + 1, TransformAll(rows[0].chunks, chunks));
      LogFolding(rows[0].chunks, rest, chunks);
      assert ChunksOf(rows)[1..] == ChunksOf(rows[1..]);
    }
  }

  /** Whether and how a message of version `v` is brought up to date: against every later
      version exactly once, or refused, never in part.  Only when every later row has been
      purged does it go through as it is. */
  lemma {:induction false} StaleExact(cfg: Config, s: FileState, h: History, v: int, chunks: seq<Edit>)
    requires Inv(cfg, s, h)
    ensures TransformStale(s.ops, s.version, v, chunks) ==
            if v >= s.version || s.ops == [] then Ready(chunks)
            else if v < s.version - |s.ops| then MissingOperation(v + 1)
            else Ready(TransformAll(Flatten(h.log[v..]), chunks))
  {
    hide Flatten, TransformAll, CacheOk, SnapsOk, StoredValid, HistoryOk, ApplyAll, NewerThan, OpsOk;
    if v < s.version {
      NewerRows(s, h, v);
      var rows := NewerThan(s.ops, v);
      if s.ops != [] && v >= s.version - |s.ops| {
        WalkUnbroken(rows, v, chunks);
      }
    }
  }

  /** The rows newer than `v`: all that survive, or exactly the operations after `v`. */
  lemma {:induction false} NewerRows(s: FileState, h: History, v: int)
    requires OpsOk(s, h) && s.version == |h.log| && v <= s.version
    ensures var rows, gone := NewerThan(s.ops, v), s.version - |s.ops|;
            if v < gone then rows == s.ops && (rows != [] ==> rows[0].version > v + 1)
            else Contiguous(rows, v + 1) && ChunksOf(rows) == h.log[v..]
  {
    var gone := s.version - |s.ops|;
    NewerIsSuffix(s.ops, gone + 1, v);
    hide NewerThan;
    if v < gone {
      assert s.ops[0..] == s.ops;
    } else {
      assert NewerThan(s.ops, v) == s.ops[v - gone..];
    }
  }

  // ---- one step keeps the invariant ----

  lemma {:induction false} LoadedInv(cfg: Config, s: FileState, h: History)
    requires Inv(cfg, s, h)
    ensures Inv(cfg, Loaded(s), h)
  {
    if s.cached.None? {
      assert LagsBy(Loaded(s), h, s.version, 0);
    }
  }

  /** A message either commits a valid operation to the loaded copy or changes no content. */
  lemma {:induction false} OnChunksCases(s: FileState, v: int, chunks: seq<Edit>, fault: Fault)
    requires StoredValid(s)
    ensures var (t, o) := OnChunks(s, v, chunks, fault);
            if o.Committed? then
              ValidAll(o.chunks) && t == Commit(Loaded(s), o.chunks) && o.version == Loaded(s).cached.value.version + 1
            else t == s || t == Loaded(s)
  {
    var c := Loaded(s).cached.value;
    if ValidAll(chunks) {
      TransformStaleValid(s.ops, c.version, v, chunks);
    }
  }

  lemma {:induction false} OnChunksInv(cfg: Config, s: FileState, h: History, v: int, chunks: seq<Edit>, fault: Fault)
    requires Inv(cfg, s, h)
    ensures var (t, o) := OnChunks(s, v, chunks, fault);
            && (o.Committed? ==> ValidAll(o.chunks) && o.version == |h.log| + 1)
            && Inv(cfg, t, Record(h, o))
  {
    hide OnChunks, Commit;
    OnChunksCases(s, v, chunks, fault);
    LoadedInv(cfg, s, h);
    var (t, o) := OnChunks(s, v, chunks, fault);
    if o.Committed? {
      CommitInv(cfg, Loaded(s), h, o.chunks);
    }
  }

  lemma {:induction false} CommitInv(cfg: Config, s: FileState, h: History, chunks: seq<Edit>)
    requires Inv(cfg, s, h) && s.cached.Some? && ValidAll(chunks)
    ensures Inv(cfg, Commit(s, chunks), Record(h, Committed(s.version + 1, chunks)))
  {
    hide ApplyAll, ValidAll, InsertOp, SnapsOk;
    var t, h' := Commit(s, chunks), Record(h, Committed(s.version + 1, chunks));
    InsertAppends(s.ops, OpRow(s.version + 1, chunks, s.clock));
    SnapsOkGrows(cfg, s.snaps, h, h');
    var k :| LagsBy(s, h, k, s.cached.value.pending);
    assert LagsBy(t, h', k, t.cached.value.pending);
  }

  lemma {:induction false} FlushInv(cfg: Config, s: FileState, h: History, fault: Fault)
    requires Inv(cfg, s, h)
    ensures Inv(cfg, Flush(s, fault).0, h)
  {
    hide ApplyAll, ValidAll, SnapsOk, GoodConfig;
    var t := Flush(s, fault).0;
    if s.cached.Some? {
      var k :| LagsBy(s, h, k, s.cached.value.pending);
      assert LagsBy(t, h, if t.disk == s.disk then k else s.version, t.cached.value.pending)
          || LagsBy(t, h, s.version, t.cached.value.pending);
    }
  }

  /** The eviction loses nothing unless the write itself fails on a stale disk. */
  lemma {:induction false} EvictedInv(cfg: Config, s: FileState, h: History, fault: Fault)
    requires Inv(cfg, s, h) && fault != WriteFault
    ensures Inv(cfg, Evicted(s, fault), h)
  {
    hide ApplyAll, ValidAll, SnapsOk, GoodConfig, CacheOk, Evicted;
    EvictedFile(s, h, fault);
  }

  lemma {:induction false} EvictedFile(s: FileState, h: History, fault: Fault)
    requires HistoryOk(h) && s.version == |h.log| && CacheOk(s, h) && fault != WriteFault
    ensures Evicted(s, fault) == s.(disk := h.texts[s.version], cached := None)
    ensures CacheOk(Evicted(s, fault), h)
  {
    hide HistoryOk;
    if s.cached.Some? {
      var k :| LagsBy(s, h, k, s.cached.value.pending);
    }
  }

  lemma {:induction false} PurgeInv(cfg: Config, s: FileState, h: History, cutoff: nat)
    requires Inv(cfg, s, h)
    ensures Inv(cfg, s.(ops := NotOlderThan(s.ops, cutoff)), h)
  {
    hide SnapsOk, ApplyAll, ValidAll, HistoryOk, OpsOk, CacheOk, NotOlderThan;
    var t := s.(ops := NotOlderThan(s.ops, cutoff));
    SurvivorsOk(s, h, cutoff);
    SameCache(s, t, h);
  }

  /** The surviving rows are a gapless suffix of the versions again. */
  lemma {:induction false} SurvivorsOk(s: FileState, h: History, cutoff: nat)
    requires OpsOk(s, h) && StoredValid(s)
    ensures OpsOk(s.(ops := NotOlderThan(s.ops, cutoff)), h) && StoredValid(s.(ops := NotOlderThan(s.ops, cutoff)))
  {
    hide NotOlderThan, ValidAll;
    var k := SurvivorsAreSuffix(s.ops, cutoff);
  }

  lemma {:induction false} SameCache(s: FileState, t: FileState, h: History)
    requires HistoryOk(h) && s.version == |h.log| && CacheOk(s, h)
    requires t.version == s.version && t.disk == s.disk && t.cached == s.cached
    ensures CacheOk(t, h)
  {
    if s.cached.Some? {
      var k :| LagsBy(s, h, k, s.cached.value.pending);
      assert LagsBy(t, h, k, s.cached.value.pending);
    }
  }

  lemma {:induction false} ProcessInv(cfg: Config, s: FileState, h: History, idle: bool, snapFault: Fault, flushFault: Fault)
    requires Inv(cfg, s, h)
    ensures Inv(cfg, ProcessFile(cfg, s, idle, snapFault, flushFault), h)
  {
    hide ApplyAll, ValidAll, SnapsOk, TakeSnapshot, Flush, HistoryOk;
    if s.cached.Some? && s.cached.value.pending > 0 {
      TakesOnlySnapshots(cfg, s, snapFault);
      var t := TakeSnapshot(cfg, s, snapFault);
      SnapshotKeepsTable(cfg, s, h, snapFault);
      SameCache(s, t, h);
      FlushInv(cfg, t, h, flushFault);
    }
  }

  lemma {:induction false} TakesOnlySnapshots(cfg: Config, s: FileState, fault: Fault)
    requires cfg.checkpoint != 0 && s.cached.Some? && StoredValid(s)
    ensures TakeSnapshot(cfg, s, fault) == s.(snaps := TakeSnapshot(cfg, s, fault).snaps)
  {
  }

  /** The steps of a run: the write made on eviction succeeds. */
  predicate Durable(a: Action) {
    !(a.Evict? && a.fault == WriteFault)
  }

  lemma {:induction false} StepInv(cfg: Config, s: FileState, h: History, a: Action)
    requires Inv(cfg, s, h) && Durable(a)
    ensures var (t, o) := Step(cfg, s, a);
            && (o.Committed? ==> ValidAll(o.chunks) && o.version == |h.log| + 1)
            && Inv(cfg, t, Record(h, o))
  {
    hide OnChunks, Flush, Evicted, ProcessFile, NotOlderThan, NewerThan, OpsOk, CacheOk, SnapsOk, ApplyAll, ValidAll;
    match a
    case Receive(v, chunks, fault) => OnChunksInv(cfg, s, h, v, chunks, fault);
    case Fetch(fault) => FlushInv(cfg, s, h, fault);
    case Catchup(v) =>
    case Process(idle, snapFault, flushFault) => ProcessInv(cfg, s, h, idle, snapFault, flushFault);
    case Evict(fault) => EvictedInv(cfg, s, h, fault);
    case Purge(cutoff) => PurgeInv(cfg, s, h, cutoff);
    case Tick(delta) => TickInv(cfg, s, h, delta);
  }

  lemma {:induction false} TickInv(cfg: Config, s: FileState, h: History, delta: nat)
    requires Inv(cfg, s, h)
    ensures Inv(cfg, s.(clock := s.clock + delta), h)
  {
    hide SnapsOk, ApplyAll, ValidAll, CacheOk;
    SameCache(s, s.(clock := s.clock + delta), h);
  }

  // ---- runs ----

  datatype Traced = Traced(now: FileState, past: History)

  ghost predicate Reached(cfg: Config, t: Traced) {
    Inv(cfg, t.now, t.past)
  }

  predicate DurableAll(acts: seq<Action>) {
    forall i | 0 <= i < |acts| :: Durable(acts[i])
  }

  ghost function TracedStep(cfg: Config, t: Traced, a: Action): (r: Traced)
    requires Reached(cfg, t) && Durable(a)
    ensures Reached(cfg, r)
  {
    StepInv(cfg, t.now, t.past, a);
    var (now, o) := Step(cfg, t.now, a);
    Traced(now, Record(t.past, o))
  }

  ghost function Run(cfg: Config, t: Traced, acts: seq<Action>): (r: Traced)
    requires Reached(cfg, t) && DurableAll(acts)
    ensures Reached(cfg, r)
    decreases |acts|
  {
    if acts == [] then t else Run(cfg, TracedStep(cfg, t, acts[0]), acts[1..])
  }

  /** The past is never rewritten: versions, texts and operations only get added. */
  lemma {:induction false} RunKeepsPast(cfg: Config, t: Traced, acts: seq<Action>)
    requires Reached(cfg, t) && DurableAll(acts)
    ensures t.past.texts <= Run(cfg, t, acts).past.texts
    ensures t.past.log <= Run(cfg, t, acts).past.log
    decreases |acts|
  {
    if acts != [] {
      RunKeepsPast(cfg, TracedStep(cfg, t, acts[0]), acts[1..]);
    }
  }

  /** Rows of the snapshot table are never changed or removed. */
  lemma {:induction false} RunKeepsSnapshots(cfg: Config, t: Traced, acts: seq<Action>)
    requires Reached(cfg, t) && DurableAll(acts)
    ensures forall snap | snap in t.now.snaps :: snap in Run(cfg, t, acts).now.snaps
    decreases |acts|
  {
    if acts != [] {
      var next := TracedStep(cfg, t, acts[0]);
      forall snap | snap in t.now.snaps ensures snap in next.now.snaps {
        StepKeepsSnapshot(cfg, t.now, acts[0], snap);
      }
      RunKeepsSnapshots(cfg, next, acts[1..]);
    }
  }

  lemma {:induction false} InsertKeepsSnapshot(snaps: seq<Snapshot>, snap: Snapshot, earlier: Snapshot)
    requires earlier in snaps
    ensures earlier in InsertSnapshot(snaps, snap)
  {
    if AddedAfter(snap, snaps[0]) {
    } else if earlier != snaps[0] {
      assert earlier in snaps[1..];
      InsertKeepsSnapshot(snaps[1..], snap, earlier);
    }
  }

  lemma {:induction false} StepKeepsSnapshot(cfg: Config, s: FileState, a: Action, earlier: Snapshot)
    requires cfg.checkpoint != 0 && StoredValid(s) && earlier in s.snaps
    ensures earlier in Step(cfg, s, a).0.snaps
  {
    if a.Process? && s.cached.Some? && NewSnapshot(cfg, s).Some? {
      InsertKeepsSnapshot(s.snaps, NewSnapshot(cfg, s).value, earlier);
    }
  }
}
