/** What each step of one file achieves from any reached state, said in terms of the history
    and of the rows themselves, not of the routines that do it. */
module Effects {
  import opened Chunks
  import opened EditScripts
  import opened Files
  import opened Snapshots
  import opened Runs
  import opened Guarantees

  // ---- messages ----

  /** The chunks that a message of version `v` is committed as. */
  function Moved(t: Traced, v: int, chunks: seq<Edit>): seq<Edit> {
    if 0 <= v < |t.past.log| && t.now.ops != [] then TransformAll(Flatten(t.past.log[v..]), chunks) else chunks
  }

  /** The state of `t` but for the file being in memory. */
  predicate OnlyLoaded(t: FileState, s: FileState) {
    t == s || (s.cached.None? && t == s.(cached := Some(Cached(s.disk, s.version, 0))))
  }

  /** Every answer to a message, and which one it is.  A message that is not committed changes
      nothing; one that is adds one row, one version and one pending change, and writes
      nothing to disk. */
  lemma {:induction false} MessageAnswered(cfg: Config, t: Traced, v: int, chunks: seq<Edit>, fault: Fault)
    requires Reached(cfg, t)
    ensures var (s, h) := (t.now, t.past);
            var (r, o) := Step(cfg, s, Receive(v, chunks, fault));
            var pending := if s.cached.Some? then s.cached.value.pending else 0;
            && (o == Ignored <==> chunks == [] || !ValidAll(chunks))
            && (o == Failed <==>
                  && chunks != [] && ValidAll(chunks)
                  && (|| (s.cached.None? && fault == LoadFault)
                      || (v < s.version && fault == QueryFault)
                      || (fault == PersistFault && (v >= s.version - |s.ops| || s.ops == []))))
            && (o == Rejected <==>
                  && chunks != [] && ValidAll(chunks) && s.ops != [] && v < s.version - |s.ops|
                  && !(s.cached.None? && fault == LoadFault) && fault != QueryFault)
            && (!o.Committed? ==> o in {Ignored, Failed, Rejected} && OnlyLoaded(r, s))
            && (o.Committed? ==>
                  && o == Committed(s.version + 1, Moved(t, v, chunks)) && ValidAll(o.chunks)
                  && r == s.(version := s.version + 1,
                             ops := s.ops + [OpRow(s.version + 1, o.chunks, s.clock)],
                             cached := Some(Cached(ApplyAll(h.texts[s.version], o.chunks), s.version + 1, pending + 1))))
  {
    hide SnapsOk, OpsOk, CacheOk, HistoryOk, ApplyAll, ValidAll, TransformAll, Flatten, GoodConfig, TransformStale, InsertOp,
      OnChunks, HasOp;
    var s, h := t.now, t.past;
    CurrentCopy(cfg, t);
    if chunks == [] || !ValidAll(chunks) {
      OnUnusable(s, v, chunks, fault);
    } else {
      var l := Loaded(s);
      LoadedInv(cfg, s, h);
      OnLoaded(s, v, chunks, fault);
      OnCachedFile(l, v, chunks, fault);
      StaleExact(cfg, l, h, v, chunks);
      var moved := TransformStale(l.ops, l.version, v, chunks);
      if moved.Ready? {
        NextRowAppended(cfg, t, OpRow(s.version + 1, moved.chunks, s.clock));
      }
    }
  }

  lemma {:induction false} CurrentCopy(cfg: Config, t: Traced)
    requires Reached(cfg, t)
    ensures t.now.version == |t.past.log| < |t.past.texts| && |t.now.ops| <= t.now.version
    ensures t.now.cached.None? ==> t.now.disk == t.past.texts[t.now.version]
    ensures t.now.cached.Some? ==>
              t.now.cached.value == Cached(t.past.texts[t.now.version], t.now.version, t.now.cached.value.pending)
  {
  }

  lemma {:induction false} NextRowAppended(cfg: Config, t: Traced, row: OpRow)
    requires Reached(cfg, t) && row.version == t.now.version + 1
    ensures !HasOp(t.now.ops, row.version) && InsertOp(t.now.ops, row) == t.now.ops + [row]
  {
    InsertAppends(t.now.ops, row);
  }

  // ---- write-back ----

  /** What writing back does, for every fault: a dirty file is on disk afterwards unless the
      write failed, and clean only if nothing failed. */
  predicate WrittenBack(r: FileState, s: FileState, h: History, fault: Fault)
    requires 0 <= s.version < |h.texts|
  {
    match s.cached
    case None => r == s
    case Some(c) =>
      && r.disk == (if c.pending > 0 && fault != WriteFault then h.texts[s.version] else s.disk)
      && r.cached == Some(Cached(h.texts[s.version], s.version,
                                 if fault == WriteFault || fault == HashFault then c.pending else 0))
      && r == s.(disk := r.disk, cached := r.cached)
  }

  lemma {:induction false} FlushWritesBack(cfg: Config, t: Traced, fault: Fault)
    requires Reached(cfg, t)
    ensures 0 <= t.now.version < |t.past.texts|
    ensures WrittenBack(Flush(t.now, fault).0, t.now, t.past, fault)
    ensures Flush(t.now, fault).1 <==>
              t.now.cached.None? || t.now.cached.value.pending == 0 || fault !in {WriteFault, HashFault}
  {
    hide SnapsOk, OpsOk, StoredValid, GoodConfig;
  }

  /** Fetching answers with the newest version and its text, and writes back on the way. */
  lemma {:induction false} FetchAnswers(cfg: Config, t: Traced, fault: Fault)
    requires Reached(cfg, t)
    ensures var (r, o) := Step(cfg, t.now, Fetch(fault));
            && 0 <= t.now.version < |t.past.texts|
            && WrittenBack(r, t.now, t.past, fault)
            && o == if t.now.cached.Some? && t.now.cached.value.pending > 0 && fault in {WriteFault, HashFault} then Failed
                    else Content(t.now.version, t.past.texts[t.now.version])
  {
    FlushWritesBack(cfg, t, fault);
    LagWithin(cfg, t);
    hide SnapsOk, OpsOk, StoredValid, GoodConfig;
  }

  /** Evicting takes the file out of memory and loses nothing. */
  lemma {:induction false} EvictAchieves(cfg: Config, t: Traced, fault: Fault)
    requires Reached(cfg, t) && fault != WriteFault
    ensures 0 <= t.now.version < |t.past.texts|
    ensures TracedStep(cfg, t, Evict(fault)) == t.(now := t.now.(disk := t.past.texts[t.now.version], cached := None))
  {
    EvictedFile(t.now, t.past, fault);
    hide SnapsOk, OpsOk, StoredValid, GoodConfig, CacheOk, Evicted;
  }

  // ---- snapshots ----

  /** The newest rows are deltas, as many as the limit allows. */
  predicate ChainFull(cfg: Config, snaps: seq<Snapshot>) {
    cfg.maxChain <= |snaps| && forall i | 0 <= i < cfg.maxChain :: snaps[i].Delta?
  }

  predicate FullIsDue(cfg: Config, snaps: seq<Snapshot>, version: int)
    requires cfg.checkpoint != 0
  {
    snaps == [] || version % cfg.checkpoint == 0 || ChainFull(cfg, snaps)
  }

  lemma {:induction false} LeadingAre(snaps: seq<Snapshot>, n: nat)
    ensures LeadingDeltas(snaps) >= n <==> n <= |snaps| && forall i | 0 <= i < n :: snaps[i].Delta?
  {
    if snaps != [] && n > 0 {
      LeadingAre(snaps[1..], n - 1);
      if snaps[0].Delta? && LeadingDeltas(snaps) >= n {
        assert forall i | 0 < i < n :: snaps[i] == snaps[1..][i - 1];
      }
    }
  }

  lemma {:induction false} FullDueExactly(cfg: Config, snaps: seq<Snapshot>, version: int)
    requires GoodConfig(cfg)
    ensures NeedsFull(cfg, snaps, version) <==> FullIsDue(cfg, snaps, version)
  {
    LeadingAre(snaps, cfg.maxChain);
  }

  /** The row a visit stores: the newest text, whole when due and otherwise as a delta that
      turns the text of the newest row into it. */
  ghost predicate StoresNewest(cfg: Config, row: Snapshot, t: Traced)
    requires cfg.checkpoint != 0
  {
    && 0 <= t.now.version < |t.past.texts|
    && row.version == t.now.version && row.createdAt == t.now.clock
    && (row.Full? <==> FullIsDue(cfg, t.now.snaps, t.now.version))
    && (row.Full? ==> row.text == t.past.texts[t.now.version])
    && (row.Delta? ==>
          && ValidAll(row.chunks)
          && t.now.snaps != [] && 0 <= t.now.snaps[0].version < |t.past.texts|
          && ApplyAll(t.past.texts[t.now.snaps[0].version], row.chunks) == t.past.texts[t.now.version])
  }

  /** What comes of taking a snapshot: exactly one new row, in front, unless the version has
      one or something failed; reading a base can only fail where a delta is due. */
  ghost predicate Stored(cfg: Config, snaps: seq<Snapshot>, t: Traced, fault: Fault)
    requires cfg.checkpoint != 0
  {
    if || fault in {QueryFault, WriteFault, HashFault, PersistFault}
       || (fault == LoadFault && !FullIsDue(cfg, t.now.snaps, t.now.version))
       || exists i | 0 <= i < |t.now.snaps| :: t.now.snaps[i].version == t.now.version
    then snaps == t.now.snaps
    else snaps != [] && StoresNewest(cfg, snaps[0], t) && snaps[1..] == t.now.snaps
  }

  lemma {:induction false} TakesSnapshot(cfg: Config, t: Traced, fault: Fault)
    requires Reached(cfg, t) && t.now.cached.Some?
    ensures Stored(cfg, TakeSnapshot(cfg, t.now, fault).snaps, t, fault)
  {
    hide OpsOk, ApplyAll, ValidAll, ScriptChunks, LeadingDeltas, NeedsFull, SnapshotBase;
    var s, h := t.now, t.past;
    var c := s.cached.value;
    FullDueExactly(cfg, s.snaps, c.version);
    SnapshotTaken(cfg, s, fault);
    if !FullIsDue(cfg, s.snaps, s.version) {
      BaseIsNewest(cfg, s.snaps, h);
      DeltaRewrites(cfg, h.texts[s.snaps[0].version], c.content);
    }
    VersionsDescend(cfg, s.snaps, h);
  }

  lemma {:induction false} BaseIsNewest(cfg: Config, snaps: seq<Snapshot>, h: History)
    requires cfg.checkpoint != 0 && SnapsOk(cfg, snaps, h) && snaps != []
    ensures DeltasValid(snaps) && 0 <= snaps[0].version < |h.texts|
    ensures SnapshotBase(snaps) == Some(h.texts[snaps[0].version])
  {
    StoredVersionsExact(cfg, snaps, h);
    assert Reconstruct(snaps, snaps[0].version) == Some(h.texts[snaps[0].version]);
  }

  lemma {:induction false} DeltaRewrites(cfg: Config, before: Text, after: Text)
    requires GoodConfig(cfg)
    ensures ValidAll(ScriptChunks(cfg.differ(before, after), 0))
    ensures ApplyAll(before, ScriptChunks(cfg.differ(before, after), 0)) == after
  {
    RoundTrip(cfg.differ(before, after), before, after);
  }

  predicate VisitDue(cfg: Config, s: FileState, idle: bool) {
    s.cached.Some? && s.cached.value.pending > 0 && (s.cached.value.pending > cfg.threshold || idle)
  }

  /** What a visit of the background routine achieves, for every fault: nothing where none is
      due; otherwise a snapshot of the newest text, and the newest text on disk. */
  lemma {:induction false} VisitAchieves(cfg: Config, t: Traced, idle: bool, snapFault: Fault, flushFault: Fault)
    requires Reached(cfg, t)
    ensures 0 <= t.now.version < |t.past.texts|
    ensures var r := TracedStep(cfg, t, Process(idle, snapFault, flushFault));
            && r.past == t.past
            && (!VisitDue(cfg, t.now, idle) ==> r.now == t.now)
            && (VisitDue(cfg, t.now, idle) ==>
                  && Stored(cfg, r.now.snaps, t, snapFault)
                  && WrittenBack(r.now.(snaps := t.now.snaps), t.now, t.past, flushFault))
  {
    hide SnapsOk, OpsOk, StoredValid, TakeSnapshot, Flush, Stored, WrittenBack;
    LagWithin(cfg, t);
    if VisitDue(cfg, t.now, idle) {
      TakesSnapshot(cfg, t, snapFault);
      TakesOnlySnapshots(cfg, t.now, snapFault);
      FlushWritesBack(cfg, t, flushFault);
      FlushIgnoresSnapshots(t.now, TakeSnapshot(cfg, t.now, snapFault).snaps, flushFault);
    }
  }

  lemma {:induction false} FlushIgnoresSnapshots(s: FileState, snaps: seq<Snapshot>, fault: Fault)
    ensures Flush(s.(snaps := snaps), fault).0 == Flush(s, fault).0.(snaps := snaps)
    ensures Flush(s, fault).0.snaps == s.snaps
  {
  }

  predicate HasVersion(snaps: seq<Snapshot>, version: int) {
    exists i | 0 <= i < |snaps| :: snaps[i].version == version
  }

  /** After a due visit without faults the newest version has a row and reconstructs to its
      text; every row of before is still there, and no other row but that one has come. */
  lemma {:induction false} VisitStoresNewest(cfg: Config, t: Traced, idle: bool, flushFault: Fault)
    requires Reached(cfg, t) && VisitDue(cfg, t.now, idle)
    ensures var r := TracedStep(cfg, t, Process(idle, NoFault, flushFault));
            var snaps := r.now.snaps;
            && 0 <= t.now.version < |t.past.texts|
            && DeltasValid(snaps)
            && HasVersion(snaps, t.now.version)
            && Reconstruct(snaps, t.now.version) == Some(t.past.texts[t.now.version])
            && (forall row :: row in t.now.snaps ==> row in snaps)
            && (forall row :: row in snaps ==> row in t.now.snaps || row.version == t.now.version)
            && |snaps| == |t.now.snaps| + if HasVersion(t.now.snaps, t.now.version) then 0 else 1
  {
    hide StoresNewest, SnapsOk;
    VisitAchieves(cfg, t, idle, NoFault, flushFault);
    var snaps := TracedStep(cfg, t, Process(idle, NoFault, flushFault)).now.snaps;
    NewestStored(cfg, t, snaps);
    TableExact(cfg, TracedStep(cfg, t, Process(idle, NoFault, flushFault)));
    var i :| 0 <= i < |snaps| && snaps[i].version == t.now.version;
    assert Reconstruct(snaps, snaps[i].version) == Some(t.past.texts[snaps[i].version]);
  }

  lemma {:induction false} NewestStored(cfg: Config, t: Traced, snaps: seq<Snapshot>)
    requires cfg.checkpoint != 0 && Stored(cfg, snaps, t, NoFault)
    ensures HasVersion(snaps, t.now.version)
    ensures forall row :: row in t.now.snaps ==> row in snaps
    ensures forall row :: row in snaps ==> row in t.now.snaps || row.version == t.now.version
    ensures |snaps| == |t.now.snaps| + if HasVersion(t.now.snaps, t.now.version) then 0 else 1
  {
    if !HasVersion(t.now.snaps, t.now.version) {
      assert snaps == [snaps[0]] + t.now.snaps && snaps[0].version == t.now.version;
    }
  }

  lemma {:induction false} TableExact(cfg: Config, t: Traced)
    requires Reached(cfg, t)
    ensures DeltasValid(t.now.snaps)
    ensures forall i | 0 <= i < |t.now.snaps| ::
              && 0 <= t.now.snaps[i].version < |t.past.texts|
              && Reconstruct(t.now.snaps, t.now.snaps[i].version) == Some(t.past.texts[t.now.snaps[i].version])
  {
    StoredVersionsExact(cfg, t.now.snaps, t.past);
  }

  // ---- purging and time ----

  /** Exactly the rows older than the cutoff go. */
  lemma {:induction false} PurgedExactly(rows: seq<OpRow>, cutoff: nat)
    ensures forall row :: row in NotOlderThan(rows, cutoff) <==> row in rows && row.createdAt >= cutoff
  {
    if rows != [] {
      PurgedExactly(rows[1..], cutoff);
      assert rows == [rows[0]] + rows[1..];
    }
  }

  /** A purge removes exactly the expired rows, which are the oldest, and nothing else. */
  lemma {:induction false} PurgeAchieves(cfg: Config, t: Traced, cutoff: nat) returns (k: nat)
    requires Reached(cfg, t)
    ensures var r := TracedStep(cfg, t, Purge(cutoff));
            && k <= |t.now.ops|
            && r == t.(now := t.now.(ops := t.now.ops[k..]))
            && (forall i | 0 <= i < k :: t.now.ops[i].createdAt < cutoff)
            && (forall i | k <= i < |t.now.ops| :: t.now.ops[i].createdAt >= cutoff)
            && (forall row :: row in r.now.ops <==> row in t.now.ops && row.createdAt >= cutoff)
  {
    hide SnapsOk, CacheOk, StoredValid, GoodConfig, NotOlderThan;
    k := SurvivorsAreSuffix(t.now.ops, cutoff);
    PurgedExactly(t.now.ops, cutoff);
  }

  /** What purging means for a message sent against version `v`: it is brought up to date as
      long as the row after `v` is kept, passes as it is once no row is, and is otherwise
      refused. */
  lemma {:induction false} MessageAfterPurge(cfg: Config, t: Traced, cutoff: nat, v: nat, chunks: seq<Edit>)
    requires Reached(cfg, t) && v < t.now.version && LogReaches(t.now, v) && chunks != [] && ValidAll(chunks)
    ensures var next := t.now.ops[v - (t.now.version - |t.now.ops|)];
            var newest := t.now.ops[|t.now.ops| - 1];
            var o := Step(cfg, TracedStep(cfg, t, Purge(cutoff)).now, Receive(v, chunks, NoFault)).1;
            && next.version == v + 1 && newest.version == t.now.version
            && o == if newest.createdAt < cutoff then Committed(t.now.version + 1, chunks)
                    else if next.createdAt < cutoff then Rejected
                    else Committed(t.now.version + 1, TransformAll(Flatten(t.past.log[v..]), chunks))
  {
    hide SnapsOk, CacheOk, StoredValid, GoodConfig, NotOlderThan, ValidAll, TransformAll, Flatten, OnChunks, Step;
    RowsNumbered(cfg, t);
    var k := PurgeAchieves(cfg, t, cutoff);
    MessageAnswered(cfg, TracedStep(cfg, t, Purge(cutoff)), v, chunks, NoFault);
  }

  lemma {:induction false} RowsNumbered(cfg: Config, t: Traced)
    requires Reached(cfg, t)
    ensures t.now.version == |t.past.log| && |t.now.ops| <= t.now.version
    ensures forall i | 0 <= i < |t.now.ops| :: t.now.ops[i].version == t.now.version - |t.now.ops| + 1 + i
  {
  }

  lemma {:induction false} TickAchieves(cfg: Config, t: Traced, delta: nat)
    requires Reached(cfg, t)
    ensures TracedStep(cfg, t, Tick(delta)) == t.(now := t.now.(clock := t.now.clock + delta))
  {
  }
}
