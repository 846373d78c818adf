/** What the steps that concern subscribers achieve: who is told what, what reaches a client,
    and who is told nothing any more. */
module Delivery {
  import opened Chunks
  import opened Files
  import opened Runs
  import opened ServerModel
  import opened Replicas
  import Effects

  // ---- announcing ----

  /** What one announcement does to a connected subscriber: with fewer than 8 messages queued
      it gets `m`; otherwise it misses it and its connection is being closed. */
  predicate Told(after: Sub, before: Sub, m: Message) {
    && after.queue == (if |before.queue| < 8 then before.queue + [m] else before.queue)
    && after.lost == (if |before.queue| < 8 then before.lost else before.lost + {m.file})
    && (after.closing <==> before.closing || |before.queue| >= 8)
    && after.connected && after.sent == before.sent && after.base == before.base
  }

  /** Announcing the newest operation of `f` tells every connected subscriber, drops the
      others, and unlocks the file. */
  lemma {:induction false} AnnouncementReaches<K>(cfg: Config, t: WorldTrace<K>, f: FileId)
    requires WorldInv(cfg, t.now, t.past) && f in t.now.owed
    ensures f in t.past && |t.past[f].log| > 0
    ensures var r := TracedWorldStep(cfg, t, Announce(f));
            var h := t.past[f];
            var m := Message(f, |h.log|, h.log[|h.log| - 1]);
            && r.past == t.past && r.now.files == t.now.files && r.now.owed == t.now.owed - {f}
            && (forall k :: k in r.now.subs <==> k in t.now.subs && t.now.subs[k].connected)
            && (forall k | k in r.now.subs :: Told(r.now.subs[k], t.now.subs[k], m))
  {
    hide ServerInv, SubInv;
  }

  /** A subscriber that is not being closed yet is so after one more message exactly if 8
      messages wait for it. */
  lemma {:induction false} ClosingExactly(s: Sub, m: Message)
    requires !s.closing && |s.queue| <= 8
    ensures Enqueue(s, m).closing <==> |s.queue| == 8
    ensures Enqueue(s, m).closing <==> m.file in Enqueue(s, m).lost && Enqueue(s, m).queue == s.queue
  {
    assert |s.queue| < 8 ==> |Enqueue(s, m).queue| == |s.queue| + 1;
  }

  // ---- delivering ----

  /** `n` successful writes in a row. */
  function Deliveries<K>(k: K, n: nat): (acts: seq<WorldAction<K>>)
    ensures forall i | 0 <= i < |acts| :: DurableWorld(acts[i])
    decreases n
  {
    if n == 0 then [] else [Deliver(k, Written)] + Deliveries(k, n - 1)
  }

  lemma {:induction false} OneDelivered<K>(cfg: Config, t: WorldTrace<K>, k: K)
    requires WorldInv(cfg, t.now, t.past) && k in t.now.subs && t.now.subs[k].queue != []
    ensures var r := TracedWorldStep(cfg, t, Deliver(k, Written));
            var s := t.now.subs[k];
            && r.past == t.past
            && r.now == t.now.(subs := t.now.subs[k := s.(queue := s.queue[1..], sent := s.sent + [s.queue[0]])])
  {
    hide ServerInv, SubInv;
  }

  lemma {:induction false} RunFirst<K(!new)>(cfg: Config, t: WorldTrace<K>, a: WorldAction<K>, rest: seq<WorldAction<K>>)
    requires WorldInv(cfg, t.now, t.past) && DurableWorld(a) && forall i | 0 <= i < |rest| :: DurableWorld(rest[i])
    ensures forall i | 0 <= i < |[a] + rest| :: DurableWorld(([a] + rest)[i])
    ensures WorldRun(cfg, t, [a] + rest) == WorldRun(cfg, TracedWorldStep(cfg, t, a), rest)
  {
    hide WorldInv, TracedWorldStep;
    assert ([a] + rest)[1..] == rest;
  }

  /** Successful writes take exactly the first messages of the queue to the client, in order. */
  lemma {:induction false} DeliveriesReach<K(!new)>(cfg: Config, t: WorldTrace<K>, k: K, n: nat)
    requires WorldInv(cfg, t.now, t.past) && k in t.now.subs && n <= |t.now.subs[k].queue|
    ensures var s := t.now.subs[k];
            WorldRun(cfg, t, Deliveries(k, n)) ==
            t.(now := t.now.(subs := t.now.subs[k := s.(queue := s.queue[n..], sent := s.sent + s.queue[..n])]))
    decreases n
  {
    hide WorldInv, TracedWorldStep;
    var s := t.now.subs[k];
    if n == 0 {
      assert s.queue[0..] == s.queue && s.sent + s.queue[..0] == s.sent;
      assert t.now.subs[k := s] == t.now.subs;
    } else {
      OneDelivered(cfg, t, k);
      var u := TracedWorldStep(cfg, t, Deliver(k, Written));
      var next := s.(queue := s.queue[1..], sent := s.sent + [s.queue[0]]);
      DeliveriesReach(cfg, u, k, n - 1);
      RunFirst(cfg, t, Deliver(k, Written), Deliveries(k, n - 1));
      assert s.queue[1..][n - 1..] == s.queue[n..];
      assert s.sent + [s.queue[0]] + s.queue[1..][..n - 1] == s.sent + s.queue[..n];
      var last := s.(queue := s.queue[n..], sent := s.sent + s.queue[..n]);
      assert t.now.subs[k := next][k := last] == t.now.subs[k := last];
    }
  }

  /** The queue is empty once it was written out, and what a client received about a file of
      which nothing was lost brings it from the version it started at to the newest one
      announced: every commit reaches every client that keeps up. */
  lemma {:induction false} DrainedReplicaIsCurrent<K(!new)>(cfg: Config, t: WorldTrace<K>, k: K, f: FileId)
    requires WorldInv(cfg, t.now, t.past) && k in t.now.subs && f in t.past && f !in t.now.subs[k].lost
    ensures var r := WorldRun(cfg, t, Deliveries(k, |t.now.subs[k].queue|));
            var h := t.past[f];
            var announced := if f in t.now.owed then |h.log| - 1 else |h.log|;
            && k in r.now.subs && f in r.now.subs[k].base
            && var s := r.now.subs[k];
               && s.queue == [] && s.sent == t.now.subs[k].sent + t.now.subs[k].queue
               && 0 <= s.base[f] <= announced < |h.texts|
               && MessagesValid(Of(s.sent, f))
               && Replay(h.texts[s.base[f]], Of(s.sent, f)) == h.texts[announced]
  {
    hide WorldInv, WorldRun, Has, Of, AtVersion, Subsequence, Deliveries, HistoryOk;
    var n := |t.now.subs[k].queue|;
    DeliveriesReach(cfg, t, k, n);
    assert t.now.subs[k].queue[..n] == t.now.subs[k].queue;
    var r := WorldRun(cfg, t, Deliveries(k, n));
    ReplicasConverge(cfg, t, Deliveries(k, n), k, f);
    NoneOf([], f);
    var ms := Of(r.now.subs[k].sent, f);
    assert AtVersion(t.past[f], r.now.subs[k].base[f], ms[..|ms|]);
    assert ms[..|ms|] == ms;
    HoldsVersion(t.past[f], r.now.subs[k].base[f], ms);
  }

  lemma {:induction false} HoldsVersion(h: History, base: int, ms: seq<Message>)
    requires AtVersion(h, base, ms)
    ensures 0 <= base && base + |ms| < |h.texts| && MessagesValid(ms) && Replay(h.texts[base], ms) == h.texts[base + |ms|]
  {
  }

  /** A failed write loses the head of the queue; only a fatal one disconnects. */
  lemma {:induction false} FailedWriteLoses<K>(cfg: Config, t: WorldTrace<K>, k: K, fatal: bool)
    requires WorldInv(cfg, t.now, t.past) && k in t.now.subs && t.now.subs[k].queue != []
    ensures var r := TracedWorldStep(cfg, t, Deliver(k, NotWritten(fatal)));
            var s := t.now.subs[k];
            && r.past == t.past && k in r.now.subs
            && r.now == t.now.(subs := t.now.subs[k := r.now.subs[k]])
            && r.now.subs[k].sent == s.sent
            && s.queue == [s.queue[0]] + r.now.subs[k].queue
            && r.now.subs[k].lost == s.lost + {s.queue[0].file}
            && (r.now.subs[k].connected <==> s.connected && !fatal)
            && r.now.subs[k].closing == s.closing && r.now.subs[k].base == s.base
  {
    hide ServerInv, SubInv;
  }

  lemma {:induction false} NothingToDeliver<K>(cfg: Config, t: WorldTrace<K>, k: K, write: Write)
    requires WorldInv(cfg, t.now, t.past) && (k in t.now.subs ==> t.now.subs[k].queue == [])
    ensures TracedWorldStep(cfg, t, Deliver(k, write)) == t
  {
    hide ServerInv, SubInv;
    assert k in t.now.subs ==> t.now.subs[k := t.now.subs[k]] == t.now.subs;
  }

  // ---- leaving ----

  lemma {:induction false} DisconnectAchieves<K>(cfg: Config, t: WorldTrace<K>, k: K)
    requires WorldInv(cfg, t.now, t.past) && k in t.now.subs
    ensures var r := TracedWorldStep(cfg, t, Disconnect(k));
            && r.past == t.past && k in r.now.subs
            && r.now == t.now.(subs := t.now.subs[k := r.now.subs[k]])
            && !r.now.subs[k].connected && t.now.subs[k] == r.now.subs[k].(connected := t.now.subs[k].connected)
  {
    hide ServerInv, SubInv;
  }

  /** After a fatal write, or a disconnect, the next announcement drops the subscriber. */
  lemma {:induction false} NextAnnouncementDrops<K>(cfg: Config, t: WorldTrace<K>, k: K, f: FileId)
    requires WorldInv(cfg, t.now, t.past) && k in t.now.subs && t.now.subs[k].queue != [] && f in t.now.owed
    ensures var u := TracedWorldStep(cfg, t, Deliver(k, NotWritten(true)));
            k in u.now.subs && k !in TracedWorldStep(cfg, u, Announce(f)).now.subs
    ensures var u := TracedWorldStep(cfg, t, Disconnect(k));
            k in u.now.subs && k !in TracedWorldStep(cfg, u, Announce(f)).now.subs
  {
    hide WorldInv, TracedWorldStep;
    FailedWriteLoses(cfg, t, k, true);
    AnnouncementReaches(cfg, TracedWorldStep(cfg, t, Deliver(k, NotWritten(true))), f);
    DisconnectAchieves(cfg, t, k);
    AnnouncementReaches(cfg, TracedWorldStep(cfg, t, Disconnect(k)), f);
  }

  /** Unsubscribing removes the subscriber and touches nothing else. */
  lemma {:induction false} UnsubscribedIsGone<K>(cfg: Config, t: WorldTrace<K>, k: K)
    requires WorldInv(cfg, t.now, t.past)
    ensures var r := TracedWorldStep(cfg, t, Unsubscribe(k));
            && r.past == t.past && r.now.files == t.now.files && r.now.owed == t.now.owed
            && k !in r.now.subs
            && (forall j | j != k :: j in r.now.subs <==> j in t.now.subs)
            && (forall j | j in r.now.subs :: r.now.subs[j] == t.now.subs[j])
  {
    hide ServerInv, SubInv;
  }

  lemma {:induction false} OnlySubscribingJoins<K>(cfg: Config, t: WorldTrace<K>, k: K, a: WorldAction<K>)
    requires WorldInv(cfg, t.now, t.past) && DurableWorld(a) && k !in t.now.subs && a != Subscribe(k)
    ensures k !in TracedWorldStep(cfg, t, a).now.subs
  {
    hide ServerInv, SubInv, ServerStep;
  }

  /** Whoever has left, unsubscribed or dropped, is told nothing until it subscribes again. */
  lemma {:induction false} GoneUntilItSubscribes<K(!new)>(cfg: Config, t: WorldTrace<K>, k: K, acts: seq<WorldAction<K>>)
    requires WorldInv(cfg, t.now, t.past) && k !in t.now.subs
    requires forall i | 0 <= i < |acts| :: DurableWorld(acts[i]) && acts[i] != Subscribe(k)
    ensures k !in WorldRun(cfg, t, acts).now.subs
    decreases |acts|
  {
    if acts != [] {
      OnlySubscribingJoins(cfg, t, k, acts[0]);
      hide WorldInv, TracedWorldStep;
      GoneUntilItSubscribes(cfg, TracedWorldStep(cfg, t, acts[0]), k, acts[1..]);
    }
  }

  // ---- joining ----

  /** A new subscriber is connected, has received nothing, and starts from what was announced. */
  lemma {:induction false} SubscribedStartsAnew<K>(cfg: Config, t: WorldTrace<K>, k: K)
    requires WorldInv(cfg, t.now, t.past) && k !in t.now.subs
    ensures var r := TracedWorldStep(cfg, t, Subscribe(k));
            && r.past == t.past && k in r.now.subs
            && r.now == t.now.(subs := t.now.subs[k := r.now.subs[k]])
            && r.now.subs[k] == Sub(true, false, [], [], {}, r.now.subs[k].base)
            && r.now.subs[k].base.Keys == t.past.Keys
            && (forall f | f in t.past :: r.now.subs[k].base[f] == |t.past[f].log| - if f in t.now.owed then 1 else 0)
  {
    hide Inv, SubInv;
    forall f | f in t.past ensures t.now.files[f].version == |t.past[f].log| {
      InvParts(cfg, t.now.files[f], t.past[f]);
    }
  }

  /** A new file is at version 0 with its text and nothing else, and whoever is subscribed
      follows it from there. */
  lemma {:induction false} CreationReaches<K>(cfg: Config, t: WorldTrace<K>, f: FileId, text: Text, clock: nat)
    requires WorldInv(cfg, t.now, t.past) && f !in t.now.files
    ensures var r := TracedWorldStep(cfg, t, Create(f, text, clock));
            && r.past == t.past[f := History([text], [])]
            && r.now.files == t.now.files[f := FileState(0, text, [], [], None, clock)] && r.now.owed == t.now.owed
            && r.now.subs.Keys == t.now.subs.Keys
            && (forall k | k in r.now.subs :: r.now.subs[k] == t.now.subs[k].(base := t.now.subs[k].base[f := 0]))
  {
    hide Inv, SubInv;
  }

  /** Every commit is owed until it is announced; nobody is told by the commit itself. */
  lemma {:induction false} CommitIsOwed<K>(cfg: Config, t: WorldTrace<K>, f: FileId, a: Action)
    requires WorldInv(cfg, t.now, t.past) && DurableWorld<K>(Serve(On(f, a)))
    requires f in t.past && (f !in t.now.owed || a.Catchup?)
    ensures var (files, o) := ServerStep(cfg, t.now.files, On(f, a));
            var r := TracedWorldStep(cfg, t, Serve(On(f, a)));
            && WorldStep(cfg, t.now, Serve(On(f, a))).1 == o
            && r.now.files == files && r.now.subs == t.now.subs
            && f in r.past
            && (o.Committed? ==> r.past[f].log == t.past[f].log + [o.chunks]
                                 && r.now.owed == t.now.owed[f := Message(f, |t.past[f].log| + 1, o.chunks)])
            && (!o.Committed? ==> r.now.owed == t.now.owed && r.past[f] == t.past[f])
  {
    hide Inv, SubInv, ServerStep, Record;
    ServerStepInv(cfg, t.now.files, t.past, On(f, a));
    forall g | g in t.past ensures HistoryOk(t.past[g]) && StoredValid(t.now.files[g]) {
      InvParts(cfg, t.now.files[g], t.past[g]);
    }
    var o := ServerStep(cfg, t.now.files, On(f, a)).1;
    if o.Committed? {
      RecordedLog(t.past[f], o);
    } else {
      NothingRecorded(t.past[f], o);
    }
  }

  /** While an operation of `f` is owed, whatever needs the file waits. */
  lemma {:induction false} LockedFileWaits<K>(cfg: Config, t: WorldTrace<K>, f: FileId, a: Action)
    requires WorldInv(cfg, t.now, t.past) && DurableWorld<K>(Serve(On(f, a))) && f in t.now.owed && !a.Catchup?
    ensures TracedWorldStep(cfg, t, Serve(On(f, a))) == t
  {
    hide ServerInv, SubInv, ServerStep;
  }

  // ---- steps that concern every file ----

  /** A purge of the server removes exactly the expired rows of every file; the passing of
      time moves every clock. */
  lemma {:induction false} ForEveryFile(cfg: Config, m: map<FileId, FileState>, cutoff: nat, delta: nat)
    requires cfg.checkpoint != 0 && AllStoredValid(m)
    ensures var p := ServerStep(cfg, m, PurgeAll(cutoff)).0;
            && p.Keys == m.Keys
            && (forall f | f in m :: p[f] == m[f].(ops := p[f].ops)
                                     && forall row :: row in p[f].ops <==> row in m[f].ops && row.createdAt >= cutoff)
    ensures var p := ServerStep(cfg, m, TickAll(delta)).0;
            p.Keys == m.Keys && forall f | f in m :: p[f] == m[f].(clock := m[f].clock + delta)
  {
    forall f | f in m { Effects.PurgedExactly(m[f].ops, cutoff); }
    hide NotOlderThan, StoredValid;
  }
}
