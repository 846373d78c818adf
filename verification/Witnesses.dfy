/** Runs of the server, each from a new file, that show what its guarantees leave out. */
module Witnesses {
  import opened Chunks
  import opened Files
  import opened Snapshots
  import opened Runs
  import opened Guarantees
  import opened ServerModel
  import opened Replicas

  lemma {:induction false} RunCons(cfg: Config, t: Traced, a: Action, rest: seq<Action>)
    requires Reached(cfg, t) && Durable(a) && DurableAll(rest)
    ensures DurableAll([a] + rest)
    ensures Run(cfg, t, [a] + rest) == Run(cfg, TracedStep(cfg, t, a), rest)
  {
    hide Reached, TracedStep, Durable;
    assert ([a] + rest)[1..] == rest;
  }

  const INSERTED: Edit := Chunk(ADD, 0, "x", 1)
  const REMOVED: Edit := Chunk(REMOVE, 0, "a", 1)

  lemma {:induction false} InsertedAndRemoved()
    ensures Valid(INSERTED) && Valid(REMOVED)
    ensures ApplyAll("abc", [INSERTED]) == "xabc" && ApplyAll("xabc", [REMOVED]) == "abc"
  {
    hide ApplyAll;
    AppliedOne("abc", INSERTED);
    assert Apply("abc", INSERTED) == "xabc";
    AppliedOne("xabc", REMOVED);
    assert Apply("xabc", REMOVED) == "abc";
  }

  /** A new file "abc" after its first message. */
  lemma {:induction false} AfterInsertion(cfg: Config)
    requires GoodConfig(cfg)
    ensures TracedStep(cfg, Fresh(cfg, "abc", 0), Receive(0, [INSERTED], NoFault)) ==
            Traced(FileState(1, "abc", [OpRow(1, [INSERTED], 0)], [], Some(Cached("xabc", 1, 1)), 0),
                   History(["abc", "xabc"], [[INSERTED]]))
  {
    InsertedAndRemoved();
    hide ApplyAll, SnapsOk, OpsOk, CacheOk, GoodConfig;
    var s, m := Loaded(Created("abc", 0)), [INSERTED];
    assert ValidAll(m);
    assert TransformStale([], 0, 0, m) == Ready(m);
    assert !HasOp([], 1) && InsertOp([], OpRow(1, m, 0)) == [OpRow(1, m, 0)];
    OnLoaded(Created("abc", 0), 0, m, NoFault);
    OnCachedFile(s, 0, m, NoFault);
  }

  /** The row is read at version 0, a message is committed, the content is flushed and read:
      version 0 is answered with the text of version 1. */
  lemma {:induction false} FetchedPairWrong(cfg: Config)
    requires GoodConfig(cfg)
    ensures var t, between := Fresh(cfg, "abc", 0), [Receive(0, [INSERTED], NoFault)];
            var (after, ok) := Flush(Run(cfg, t, between).now, NoFault);
            ok && t.now.version == 0 && t.past.texts[0] == "abc" && after.disk == "xabc"
  {
    var t, a := Fresh(cfg, "abc", 0), Receive(0, [INSERTED], NoFault);
    AfterInsertion(cfg);
    LastStep(cfg, t, a);
  }

  lemma {:induction false} NothingNewer(m: seq<Edit>)
    ensures TransformStale([], 1, 0, m) == Ready(m)
  {
    assert NewerThan([], 0) == [];
  }

  /** The insertion ages and is purged; the removal of "a", made against version 0, then goes
      through untransformed and removes "x", which its author never saw. */
  lemma {:induction false} PurgedLogIgnoresStaleness(cfg: Config)
    requires GoodConfig(cfg)
    ensures var acts := [Receive(0, [INSERTED], NoFault), Tick(1), Purge(1), Receive(0, [REMOVED], NoFault)];
            Run(cfg, Fresh(cfg, "abc", 0), acts).past == History(["abc", "xabc", "abc"], [[INSERTED], [REMOVED]])
  {
    hide TracedStep, Reached, GoodConfig, Run, Fresh;
    var a, b, c, d := Receive(0, [INSERTED], NoFault), Tick(1), Purge(1), Receive(0, [REMOVED], NoFault);
    var t := Fresh(cfg, "abc", 0);
    AfterInsertion(cfg);
    var t1 := TracedStep(cfg, t, a);
    AgedAndPurged(cfg, t1);
    var t2 := TracedStep(cfg, t1, b);
    var t3 := TracedStep(cfg, t2, c);
    RemovalAfterPurge(cfg, t3);
    LastStep(cfg, t3, d);
    RunCons(cfg, t2, c, [d]);
    RunCons(cfg, t1, b, [c, d]);
    RunCons(cfg, t, a, [b, c, d]);
    assert [a] + [b, c, d] == [a, b, c, d] && [b] + [c, d] == [b, c, d] && [c] + [d] == [c, d];
  }

  lemma {:induction false} LastStep(cfg: Config, t: Traced, a: Action)
    requires Reached(cfg, t) && Durable(a)
    ensures Run(cfg, t, [a]) == TracedStep(cfg, t, a)
  {
    RunCons(cfg, t, a, []);
    assert [a] + [] == [a];
  }

  lemma {:induction false} AgedAndPurged(cfg: Config, t: Traced)
    requires Reached(cfg, t)
    requires t.now == FileState(1, "abc", [OpRow(1, [INSERTED], 0)], [], Some(Cached("xabc", 1, 1)), 0)
    ensures var aged := TracedStep(cfg, t, Tick(1));
            var purged := TracedStep(cfg, aged, Purge(1));
            && purged.past == t.past
            && purged.now == FileState(1, "abc", [], [], Some(Cached("xabc", 1, 1)), 1)
  {
    hide SnapsOk, OpsOk, CacheOk;
    var rows := [OpRow(1, [INSERTED], 0)];
    assert rows[1..] == [];
    assert NotOlderThan(rows[1..], 1) == [];
    assert NotOlderThan(rows, 1) == [];
  }

  lemma {:induction false} RemovalAfterPurge(cfg: Config, t: Traced)
    requires Reached(cfg, t)
    requires t.now == FileState(1, "abc", [], [], Some(Cached("xabc", 1, 1)), 1)
    requires t.past == History(["abc", "xabc"], [[INSERTED]])
    ensures TracedStep(cfg, t, Receive(0, [REMOVED], NoFault)).past
            == History(["abc", "xabc", "abc"], [[INSERTED], [REMOVED]])
  {
    hide Reached, TracedStep, ApplyAll, TransformStale;
    InsertedAndRemoved();
    NothingNewer([REMOVED]);
    assert ValidAll([REMOVED]);
    ReceiveCommits(cfg, t, 0, [REMOVED], [REMOVED]);
  }

  // ---- a queue that nobody drains ----

  /** `n` messages about `f`, each committed and announced. */
  function Flood<K>(f: FileId, v: int, chunks: seq<Edit>, n: nat): seq<WorldAction<K>> {
    if n == 0 then [] else [Serve(On(f, Receive(v, chunks, NoFault))), Announce(f)] + Flood(f, v, chunks, n - 1)
  }

  lemma {:induction false} FloodDurable<K>(f: FileId, v: int, chunks: seq<Edit>, n: nat)
    ensures forall i | 0 <= i < |Flood<K>(f, v, chunks, n)| :: DurableWorld(Flood<K>(f, v, chunks, n)[i])
  {
    if n > 0 { FloodDurable<K>(f, v, chunks, n - 1); }
  }

  /** A current message for an unlocked file is committed as it is, and then owed. */
  lemma {:induction false} CurrentMessage<K>(cfg: Config, w: World<K>, hs: map<FileId, History>, f: FileId, v: int, chunks: seq<Edit>)
    requires WorldInv(cfg, w, hs) && f in w.files && f !in w.owed && v >= w.files[f].version
    requires chunks != [] && ValidAll(chunks)
    ensures var a := Serve(On(f, Receive(v, chunks, NoFault)));
            var w' := WorldStep(cfg, w, a).0;
            && w'.subs == w.subs && f in w'.files && w'.files[f].version == w.files[f].version + 1
            && w'.owed == w.owed[f := Message(f, w.files[f].version + 1, chunks)]
  {
    hide ApplyAll, SnapsOk, InsertOp, Walk, SubInv, OpsOk, CacheOk, GoodConfig, ValidAll, HistoryOk, NewerThan;
    var t := Traced(w.files[f], hs[f]);
    assert Reached(cfg, t);
    ReceiveCommits(cfg, t, v, chunks, chunks);
    VersionCounts(cfg, TracedStep(cfg, t, Receive(v, chunks, NoFault)));
    VersionCounts(cfg, t);
  }

  lemma {:induction false} VersionCounts(cfg: Config, t: Traced)
    requires Reached(cfg, t)
    ensures t.now.version == |t.past.log|
  {
  }

  /** One message more in a queue with room; one lost in a full one. */
  lemma {:induction false} OneAnnounced<K(!new)>(cfg: Config, t: WorldTrace<K>, k: K, f: FileId, v: int, chunks: seq<Edit>)
    requires WorldInv(cfg, t.now, t.past) && f in t.now.files && f !in t.now.owed && v >= t.now.files[f].version
    requires k in t.now.subs && t.now.subs[k].connected && chunks != [] && ValidAll(chunks)
    ensures var r := TracedWorldStep(cfg, TracedWorldStep(cfg, t, Serve(On(f, Receive(v, chunks, NoFault)))), Announce(f));
            && WorldInv(cfg, r.now, r.past)
            && f in r.now.files && f !in r.now.owed && r.now.files[f].version == t.now.files[f].version + 1
            && k in r.now.subs
            && r.now.subs[k] == Enqueue(t.now.subs[k], Message(f, t.now.files[f].version + 1, chunks))
  {
    CurrentMessage(cfg, t.now, t.past, f, v, chunks);
    hide WorldInv, Enqueue, ServerStep, WorldRecord;
    var u := TracedWorldStep(cfg, t, Serve(On(f, Receive(v, chunks, NoFault))));
    var r := TracedWorldStep(cfg, u, Announce(f));
  }

  /** What `n` undrained messages about `f` do to a subscriber. */
  predicate Filled(before: Sub, s: Sub, f: FileId, n: nat) {
    && s.connected && s.sent == before.sent
    && |s.queue| == Min(8, |before.queue| + n)
    && (f in s.lost <==> f in before.lost || |before.queue| + n > 8)
    && (s.closing <==> before.closing || |before.queue| + n > 8)
  }

  lemma {:induction false} FilledBy(before: Sub, s: Sub, f: FileId, chunks: seq<Edit>, n: nat)
    requires before.connected && |before.queue| <= 8
    ensures Filled(before, before, f, 0)
    ensures forall v :: var one := Enqueue(before, Message(f, v, chunks));
                        one.connected && |one.queue| <= 8 && (n > 0 && Filled(one, s, f, n - 1) ==> Filled(before, s, f, n))
  {
  }

  lemma {:induction false} NoSteps<K(!new)>(cfg: Config, t: WorldTrace<K>)
    requires WorldInv(cfg, t.now, t.past)
    ensures WorldRun(cfg, t, []) == t
  {
  }

  lemma {:induction false} Flooded<K(!new)>(cfg: Config, t: WorldTrace<K>, k: K, f: FileId, v: int, chunks: seq<Edit>, n: nat)
    requires WorldInv(cfg, t.now, t.past) && f in t.now.files && f !in t.now.owed && v >= t.now.files[f].version + n
    requires k in t.now.subs && t.now.subs[k].connected && |t.now.subs[k].queue| <= 8
    requires chunks != [] && ValidAll(chunks)
    requires forall i | 0 <= i < |Flood<K>(f, v, chunks, n)| :: DurableWorld(Flood<K>(f, v, chunks, n)[i])
    ensures var w := WorldRun(cfg, t, Flood(f, v, chunks, n)).now;
            && f in w.files && f !in w.owed && w.files[f].version == t.now.files[f].version + n
            && k in w.subs && Filled(t.now.subs[k], w.subs[k], f, n)
    decreases n
  {
    hide WorldInv, TracedWorldStep, WorldRun, Enqueue, Filled;
    if n == 0 {
      FilledBy(t.now.subs[k], t.now.subs[k], f, chunks, 0);
      NoSteps(cfg, t);
    } else {
      var a, b, rest := Serve(On(f, Receive(v, chunks, NoFault))), Announce(f), Flood<K>(f, v, chunks, n - 1);
      FloodDurable<K>(f, v, chunks, n - 1);
      OneAnnounced(cfg, t, k, f, v, chunks);
      var r := TracedWorldStep(cfg, TracedWorldStep(cfg, t, a), b);
      FilledBy(t.now.subs[k], t.now.subs[k], f, chunks, n);
      Flooded(cfg, r, k, f, v, chunks, n - 1);
      TwoSteps(cfg, t, a, b, rest);
      FilledBy(t.now.subs[k], WorldRun(cfg, r, rest).now.subs[k], f, chunks, n);
    }
  }

  lemma {:induction false} TwoSteps<K(!new)>(cfg: Config, t: WorldTrace<K>, a: WorldAction<K>, b: WorldAction<K>, rest: seq<WorldAction<K>>)
    requires WorldInv(cfg, t.now, t.past) && DurableWorld(a) && DurableWorld(b)
    requires forall i | 0 <= i < |rest| :: DurableWorld(rest[i])
    ensures forall i | 0 <= i < |[a, b] + rest| :: DurableWorld(([a, b] + rest)[i])
    ensures WorldRun(cfg, t, [a, b] + rest) == WorldRun(cfg, TracedWorldStep(cfg, TracedWorldStep(cfg, t, a), b), rest)
  {
    hide WorldInv, TracedWorldStep;
    var acts := [a, b] + rest;
    assert acts[1..] == [b] + rest && acts[1..][1..] == rest;
  }

  /** From the empty server: a file, a client that subscribes and does not read, `n` messages. */
  function UnreadActions<K>(k: K, n: nat): seq<WorldAction<K>> {
    [Create(0, "abc", 0), Subscribe(k)] + Flood(0, n, [INSERTED], n)
  }

  ghost function UnreadRun<K(!new)>(cfg: Config, k: K, n: nat): (r: WorldTrace<K>)
    requires GoodConfig(cfg)
    ensures WorldInv(cfg, r.now, r.past)
  {
    EmptyWorldInv<K>(cfg);
    FloodDurable<K>(0, n, [INSERTED], n);
    WorldRun(cfg, WorldTrace(EmptyWorld(), map[]), UnreadActions(k, n))
  }

  /** The file's state once the client has subscribed. */
  lemma {:induction false} Subscribed<K(!new)>(cfg: Config, k: K)
    requires GoodConfig(cfg) && WorldInv<K>(cfg, EmptyWorld(), map[])
    ensures var t: WorldTrace<K> := WorldTrace(EmptyWorld(), map[]);
            var u := TracedWorldStep(cfg, TracedWorldStep(cfg, t, Create(0, "abc", 0)), Subscribe(k));
            && WorldInv(cfg, u.now, u.past)
            && u.now.files == map[0 := Created("abc", 0)] && u.now.owed == map[]
            && k in u.now.subs && u.now.subs[k] == Sub(true, false, [], [], {}, map[0 := 0])
  {
    hide WorldInv;
    var t: WorldTrace<K> := WorldTrace(EmptyWorld(), map[]);
    var c := TracedWorldStep(cfg, t, Create(0, "abc", 0));
    assert c.now.files == map[0 := Created("abc", 0)] && c.now.owed == map[] && c.now.subs == map[];
    var u := TracedWorldStep(cfg, c, Subscribe(k));
    assert Joined(c.now.files, c.now.owed).base == map[0 := 0];
  }

  /** The client misses a version, and its connection is being closed, if and only if more
      messages are committed than its queue holds, that is from the ninth on. */
  lemma {:induction false} UnreadMessagesAreLost<K(!new)>(cfg: Config, k: K, n: nat)
    requires GoodConfig(cfg)
    ensures var r := UnreadRun(cfg, k, n);
            && k in r.now.subs && 0 in r.past && |r.past[0].log| == n && 0 in r.now.subs[k].base
            && var s := r.now.subs[k];
               && |s.queue| == Min(8, n)
               && (s.closing <==> n > 8)
               && (n > 8 <==> exists w | s.base[0] < w <= n :: !Has(Of(s.sent + s.queue, 0), w))
  {
    hide WorldInv, TracedWorldStep, Created, EmptyWorld, Has, Of;
    EmptyWorldInv<K>(cfg);
    FloodDurable<K>(0, n, [INSERTED], n);
    InsertedAndRemoved();
    Subscribed(cfg, k);
    var t: WorldTrace<K> := WorldTrace(EmptyWorld(), map[]);
    var a, b, rest := Create(0, "abc", 0), Subscribe(k), Flood<K>(0, n, [INSERTED], n);
    var u := TracedWorldStep(cfg, TracedWorldStep(cfg, t, a), b);
    assert u.now.files[0].version == 0 by { hide *; NewFileVersion("abc", 0); }
    Flooded(cfg, u, k, 0, n, [INSERTED], n);
    TwoSteps(cfg, t, a, b, rest);
    FileHasPast(cfg, UnreadRun(cfg, k, n), 0);
    ReplicasConverge(cfg, t, UnreadActions(k, n), k, 0);
  }

  lemma {:induction false} NewFileVersion(text: Text, clock: nat)
    ensures Created(text, clock).version == 0
  {
  }

  lemma {:induction false} FileHasPast<K>(cfg: Config, t: WorldTrace<K>, f: FileId)
    requires WorldInv(cfg, t.now, t.past) && f in t.now.files
    ensures f in t.past && t.now.files[f].version == |t.past[f].log|
  {
  }
}
