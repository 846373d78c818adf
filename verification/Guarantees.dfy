/** What a client of one file can rely on in every reachable state. */
module Guarantees {
  import opened Chunks
  import opened Files
  import opened Snapshots
  import opened Runs
  import opened Intent

  ghost function Fresh(cfg: Config, text: Text, clock: nat): (t: Traced)
    requires GoodConfig(cfg)
    ensures Reached(cfg, t)
  {
    CreatedInv(cfg, text, clock);
    Traced(Created(text, clock), History([text], []))
  }

  // ---- snapshots over runs ----

  /** In every reachable state each stored version reconstructs to the text it had, any
      other version to the text of the greatest stored one before it, with few deltas. */
  lemma {:induction false} SnapshotsExactInEveryRun(cfg: Config, text: Text, clock: nat, acts: seq<Action>)
    requires GoodConfig(cfg) && DurableAll(acts)
    ensures var t := Run(cfg, Fresh(cfg, text, clock), acts);
            var snaps := t.now.snaps;
            && DeltasValid(snaps)
            && (forall i | 0 <= i < |snaps| ::
                  0 <= snaps[i].version < |t.past.texts| &&
                  Reconstruct(snaps, snaps[i].version) == Some(t.past.texts[snaps[i].version]))
            && (forall w, i: nat | Selects(snaps, w, i) ::
                  && Reconstruct(snaps, w) == Some(t.past.texts[snaps[i].version])
                  && DeltasApplied(snaps, w) <= cfg.maxChain
                  && forall j | 0 <= j < |snaps| && snaps[j].version <= w :: snaps[j].version <= snaps[i].version)
  {
    var t := Run(cfg, Fresh(cfg, text, clock), acts);
    var snaps := t.now.snaps;
    StoredVersionsExact(cfg, snaps, t.past);
    VersionsDescend(cfg, snaps, t.past);
    forall w, i: nat | Selects(snaps, w, i)
      ensures Reconstruct(snaps, w) == Some(t.past.texts[snaps[i].version])
      ensures DeltasApplied(snaps, w) <= cfg.maxChain
    {
      ReconstructSelected(cfg, snaps, t.past, w);
    }
  }

  /** Whatever happens later, an already stored version keeps reconstructing to the same text. */
  lemma {:induction false} SnapshotsNeverRewritten(cfg: Config, t: Traced, acts: seq<Action>, snap: Snapshot)
    requires Reached(cfg, t) && DurableAll(acts) && snap in t.now.snaps
    ensures Reconstruct(Run(cfg, t, acts).now.snaps, snap.version) == Reconstruct(t.now.snaps, snap.version) != None
  {
    var r := Run(cfg, t, acts);
    RunKeepsSnapshots(cfg, t, acts);
    RunKeepsPast(cfg, t, acts);
    StoredVersionsExact(cfg, t.now.snaps, t.past);
    StoredVersionsExact(cfg, r.now.snaps, r.past);
    var i :| 0 <= i < |t.now.snaps| && t.now.snaps[i] == snap;
    var j :| 0 <= j < |r.now.snaps| && r.now.snaps[j] == snap;
    assert t.past.texts[snap.version] == r.past.texts[snap.version];
  }

  lemma {:induction false} DeltaChainsShortInEveryRun(cfg: Config, text: Text, clock: nat, acts: seq<Action>)
    requires GoodConfig(cfg) && DurableAll(acts)
    ensures var snaps := Run(cfg, Fresh(cfg, text, clock), acts).now.snaps;
            && (forall i: nat, j: nat | i < j <= |snaps| && AllDeltas(snaps, i, j) :: j - i <= cfg.maxChain)
            && (forall i | 0 <= i < |snaps| && snaps[i].version % cfg.checkpoint == 0 :: snaps[i].Full?)
            && (snaps != [] ==> snaps[|snaps| - 1].Full?)
  {
    var t := Run(cfg, Fresh(cfg, text, clock), acts);
    ChainsShort(cfg, t.now.snaps, t.past);
  }

  // ---- write-back ----

  /** While a file is cached the disk is behind by at most the pending changes; with none
      pending, or nothing cached, it is current.  The cached copy always is. */
  lemma {:induction false} WriteBackLag(cfg: Config, text: Text, clock: nat, acts: seq<Action>)
    requires GoodConfig(cfg) && DurableAll(acts)
    ensures var t := Run(cfg, Fresh(cfg, text, clock), acts);
            && t.now.version == |t.past.log| < |t.past.texts|
            && (t.now.cached.None? ==> t.now.disk == t.past.texts[t.now.version])
            && (t.now.cached.Some? ==>
                  var c := t.now.cached.value;
                  && c.version == t.now.version
                  && c.content == t.past.texts[c.version]
                  && (c.pending == 0 ==> t.now.disk == c.content)
                  && exists k :: LagsBy(t.now, t.past, k, c.pending))
  {
    LagWithin(cfg, Run(cfg, Fresh(cfg, text, clock), acts));
  }

  lemma {:induction false} LagWithin(cfg: Config, t: Traced)
    requires Reached(cfg, t)
    ensures t.now.version == |t.past.log| < |t.past.texts|
    ensures t.now.cached.None? ==> t.now.disk == t.past.texts[t.now.version]
    ensures t.now.cached.Some? ==>
              var c := t.now.cached.value;
              && c.version == t.now.version
              && c.content == t.past.texts[c.version]
              && (c.pending == 0 ==> t.now.disk == c.content)
              && exists k :: LagsBy(t.now, t.past, k, c.pending)
  {
    if t.now.cached.Some? {
      var k :| LagsBy(t.now, t.past, k, t.now.cached.value.pending);
    }
  }

  /** Evicting and loading again gives back the content exactly when the write succeeded or
      was not needed; the version read from the row is current either way. */
  lemma {:induction false} ReloadExact(cfg: Config, s: FileState, h: History, fault: Fault)
    requires Inv(cfg, s, h) && s.cached.Some?
    ensures var c := Loaded(Evicted(s, fault)).cached.value;
            && c.version == s.version
            && (c.content == s.cached.value.content <==>
                fault != WriteFault || s.cached.value.pending == 0 || s.disk == s.cached.value.content)
  {
    var k :| LagsBy(s, h, k, s.cached.value.pending);
  }

  /** An edit that leaves every text of length `n` as it is. */
  predicate NoOp(n: nat, e: Edit) {
    if e.op == ADD then e.text == [] else e.len == 0 || e.pos >= n
  }

  lemma {:induction false} NoOpExact(text: Text, e: Edit)
    requires Valid(e)
    ensures Apply(text, e) == text <==> NoOp(|text|, e)
  {
    ApplyShape(text, e);
    if e.op == ADD {
      assert |Apply(text, e)| == |text| + |e.text|;
    } else {
      assert |Apply(text, e)| == |text| - (Min(e.pos + e.len, |text|) - Min(e.pos, |text|));
    }
  }

  /** Only messages commit. */
  lemma {:induction false} NoCommitWithoutMessage(cfg: Config, t: Traced, acts: seq<Action>)
    requires Reached(cfg, t) && DurableAll(acts) && forall i | 0 <= i < |acts| :: !acts[i].Receive?
    ensures Run(cfg, t, acts).past == t.past
    decreases |acts|
  {
    if acts != [] {
      QuietStep(cfg, t, acts[0]);
      hide Reached, TracedStep;
      NoCommitWithoutMessage(cfg, TracedStep(cfg, t, acts[0]), acts[1..]);
    }
  }

  lemma {:induction false} QuietStep(cfg: Config, t: Traced, a: Action)
    requires Reached(cfg, t) && Durable(a) && !a.Receive?
    ensures TracedStep(cfg, t, a).past == t.past
  {
    hide Flush, ProcessFile, Evicted, NewerThan, NotOlderThan, SnapsOk, CacheOk, OpsOk, StoredValid;
  }

  /** The row of a file is read before its lock is taken.  What is committed in between shows
      in the text answered but not in the version: without a message in between the pair is
      exact, and after exactly one commit, of one chunk, if and only if that chunk does nothing
      to the text. */
  lemma {:induction false} FetchAcrossCommits(cfg: Config, t: Traced, between: seq<Action>, fault: Fault)
    requires Reached(cfg, t) && DurableAll(between)
    ensures var r := Run(cfg, t, between);
            var (after, ok) := Flush(r.now, fault);
            var text := t.past.texts[t.now.version];
            && t.now.version <= r.now.version < |r.past.texts|
            && (ok ==> after.disk == r.past.texts[r.now.version])
            && (ok && (forall i | 0 <= i < |between| :: !between[i].Receive?) ==> after.disk == text)
            && (ok && r.now.version == t.now.version ==> after.disk == text)
            && (forall e | ok && r.past.log == t.past.log + [[e]] :: after.disk == text <==> NoOp(|text|, e))
  {
    hide Run, SnapsOk, OpsOk, StoredValid, ApplyAll, CacheOk, GoodConfig;
    var r := Run(cfg, t, between);
    RunKeepsPast(cfg, t, between);
    LagWithin(cfg, t);
    LagWithin(cfg, r);
    var text := t.past.texts[t.now.version];
    assert |t.past.texts| <= |r.past.texts| && r.past.texts[t.now.version] == text;
    if forall i | 0 <= i < |between| :: !between[i].Receive? {
      NoCommitWithoutMessage(cfg, t, between);
    }
    forall e | r.past.log == t.past.log + [[e]]
      ensures r.past.texts[r.now.version] == text <==> NoOp(|text|, e)
    {
      assert r.past.log[t.now.version] == [e] && Valid([e][0]);
      AppliedOne(text, e);
      NoOpExact(text, e);
    }
  }

  // ---- stale messages ----

  /** The log still has every operation after version `v`. */
  predicate LogReaches(s: FileState, v: int) {
    s.version - |s.ops| <= v <= s.version
  }

  lemma {:induction false} Replay(h: History, v: nat)
    requires HistoryOk(h) && v <= |h.log|
    ensures ValidAll(Flatten(h.log[v..]))
    ensures ApplyAll(h.texts[v], Flatten(h.log[v..])) == h.texts[|h.log|]
    decreases |h.log| - v
  {
    FlattenValid(h.log[v..]);
    if v < |h.log| {
      Replay(h, v + 1);
      assert h.log[v..][1..] == h.log[v + 1..];
      FlattenValid(h.log[v + 1..]);
      ApplyAllConcat(h.texts[v], h.log[v], Flatten(h.log[v + 1..]));
    }
  }

  /** A valid message is committed exactly as transformed, and its text recorded. */
  lemma {:induction false} ReceiveCommits(cfg: Config, t: Traced, v: int, chunks: seq<Edit>, moved: seq<Edit>)
    requires Reached(cfg, t) && chunks != [] && ValidAll(chunks)
    requires TransformStale(t.now.ops, t.now.version, v, chunks) == Ready(moved)
    ensures ValidAll(moved)
    ensures Step(cfg, t.now, Receive(v, chunks, NoFault)).1 == Committed(t.now.version + 1, moved)
    ensures var r := TracedStep(cfg, t, Receive(v, chunks, NoFault));
            && r.past == History(t.past.texts + [ApplyAll(t.past.texts[t.now.version], moved)], t.past.log + [moved])
            && |r.now.ops| == |t.now.ops| + 1
  {
    hide ApplyAll, SnapsOk, InsertOp, Walk, NewerThan;
    TransformStaleValid(t.now.ops, t.now.version, v, chunks);
    var l := Loaded(t.now);
    LoadedInv(cfg, t.now, t.past);
    InsertAppends(l.ops, OpRow(l.version + 1, moved, l.clock));
    assert !HasOp(l.ops, l.version + 1);
  }

  lemma {:induction false} StaleMoved(cfg: Config, t: Traced, v: nat, e: Edit)
    requires Reached(cfg, t) && LogReaches(t.now, v)
    ensures TransformStale(t.now.ops, t.now.version, v, [e]) == Ready([Through(Flatten(t.past.log[v..]), e)])
  {
    StaleExact(cfg, t.now, t.past, v, [e]);
    if v == t.now.version {
      assert t.past.log[v..] == [];
    } else {
      assert TransformAll(Flatten(t.past.log[v..]), [e]) == [Through(Flatten(t.past.log[v..]), e)];
    }
  }

  /** A removal sent against version `v` removes, of the runes its author saw, exactly those
      of its range that are still there. */
  lemma {:induction false} StaleRemovalOnServer(cfg: Config, t: Traced, v: nat, r: Edit)
    requires Reached(cfg, t) && LogReaches(t.now, v)
    requires InBounds(|t.past.texts[v]|, r) && r.op == REMOVE
    ensures Step(cfg, t.now, Receive(v, [r], NoFault)).1.Committed?
    ensures ValidAll(Flatten(t.past.log[v..]))
    ensures var cells := Track(Cells(t.past.texts[v]), Flatten(t.past.log[v..]), r);
            && Faithful(cells, t.past.texts[v])
            && Values(cells) == t.past.texts[t.now.version]
            && TracedStep(cfg, t, Receive(v, [r], NoFault)).past.texts[t.now.version + 1] == Values(Survivors(cells, r))
  {
    hide Apply, ApplyAll, Step, Flatten, Through, Track, OpsOk, CacheOk, SnapsOk, StoredValid;
    var log := Flatten(t.past.log[v..]);
    var moved := Through(log, r);
    Replay(t.past, v);
    RemovalIntent(t.past.texts[v], log, r);
    StaleMoved(cfg, t, v, r);
    ReceiveCommits(cfg, t, v, [r], [moved]);
    AppliedOne(t.past.texts[t.now.version], moved);
  }

  /** An insertion sent against version `v` lands in one piece between the runes its author
      put it between. */
  lemma {:induction false} StaleInsertionOnServer(cfg: Config, t: Traced, v: nat, a: Edit)
    requires Reached(cfg, t) && LogReaches(t.now, v)
    requires InBounds(|t.past.texts[v]|, a) && a.op == ADD
    ensures Step(cfg, t.now, Receive(v, [a], NoFault)).1.Committed?
    ensures ValidAll(Flatten(t.past.log[v..]))
    ensures var cells := Track(Cells(t.past.texts[v]), Flatten(t.past.log[v..]), a);
            var q := Through(Flatten(t.past.log[v..]), a).pos;
            && Faithful(cells, t.past.texts[v])
            && Values(cells) == t.past.texts[t.now.version]
            && 0 <= q <= |cells|
            && TracedStep(cfg, t, Receive(v, [a], NoFault)).past.texts[t.now.version + 1]
               == Values(cells[..q]) + a.text + Values(cells[q..])
            && forall j | 0 <= j < |cells| && cells[j].origin.Base? :: cells[j].origin.index < a.pos <==> j < q
  {
    hide Apply, ApplyAll, Step, Flatten, Through, Track, OpsOk, CacheOk, SnapsOk, StoredValid;
    var log := Flatten(t.past.log[v..]);
    var moved := Through(log, a);
    Replay(t.past, v);
    InsertionIntent(t.past.texts[v], log, a);
    StaleMoved(cfg, t, v, a);
    ReceiveCommits(cfg, t, v, [a], [moved]);
    AppliedOne(t.past.texts[t.now.version], moved);
    var cells, now := Track(Cells(t.past.texts[v]), log, a), t.past.texts[t.now.version];
    assert |Values(cells)| == |cells|;
    assert Values(cells[..moved.pos]) == now[..moved.pos];
    assert Values(cells[moved.pos..]) == now[moved.pos..];
  }

  // ---- ties ----

  function InsertionAt(p: nat, t: Text): Edit { Chunk(ADD, p, t, |t|) }

  /** The operations stored for insertions all made at position `p` of one version. */
  function TieLog(p: nat, texts: seq<Text>): seq<seq<Edit>>
    decreases |texts|
  {
    if texts == [] then [] else [[InsertionAt(p, texts[0])]] + TieLog(p + |texts[0]|, texts[1..])
  }

  lemma {:induction false} TieLogSnoc(p: nat, texts: seq<Text>, t: Text)
    ensures TieLog(p, texts + [t]) == TieLog(p, texts) + [[InsertionAt(p + |Flatten(texts)|, t)]]
    decreases |texts|
  {
    if texts == [] {
      assert texts + [t] == [t] && [t][1..] == [];
      assert TieLog(p + |t|, [t][1..]) == [];
    } else {
      var rest := texts[1..];
      assert (texts + [t])[1..] == rest + [t];
      TieLogSnoc(p + |texts[0]|, rest, t);
      assert TieLog(p, texts + [t]) == [[InsertionAt(p, texts[0])]] + TieLog(p + |texts[0]|, rest + [t]);
    }
  }

  lemma {:induction false} FlattenSnoc(texts: seq<Text>, t: Text)
    ensures Flatten(texts + [t]) == Flatten(texts) + t
  {
    FlattenConcat(texts, [t]);
    assert [t][1..] == [];
    assert Flatten([t]) == t + Flatten([t][1..]);
  }

  lemma {:induction false} PastTies(p: nat, texts: seq<Text>, t: Text)
    ensures Through(Flatten(TieLog(p, texts)), InsertionAt(p, t)) == InsertionAt(p + |Flatten(texts)|, t)
    decreases |texts|
  {
    if texts != [] {
      var rest := Flatten(TieLog(p + |texts[0]|, texts[1..]));
      assert Flatten(TieLog(p, texts)) == [InsertionAt(p, texts[0])] + rest;
      assert ([InsertionAt(p, texts[0])] + rest)[1..] == rest;
      PastTies(p + |texts[0]|, texts[1..], t);
    }
  }

  function TieMessages(v: int, p: nat, texts: seq<Text>): seq<Action> {
    seq(|texts|, i requires 0 <= i < |texts| => Receive(v, [InsertionAt(p, texts[i])], NoFault))
  }

  /** After the insertions `done` made at `p` of version `v`, and nothing else. */
  ghost predicate TiesSoFar(t: Traced, v: nat, p: nat, done: seq<Text>) {
    && LogReaches(t.now, v)
    && HistoryOk(t.past) && t.now.version == |t.past.log| == v + |done|
    && t.past.log[v..] == TieLog(p, done)
    && p <= |t.past.texts[v]|
    && t.past.texts[t.now.version] == Paste(t.past.texts[v], p, Flatten(done))
  }

  lemma {:induction false} TieStep(cfg: Config, t: Traced, v: nat, p: nat, done: seq<Text>, next: Text)
    requires Reached(cfg, t) && TiesSoFar(t, v, p, done)
    ensures var r := TracedStep(cfg, t, Receive(v, [InsertionAt(p, next)], NoFault));
            TiesSoFar(r, v, p, done + [next]) && r.past.texts[v] == t.past.texts[v]
  {
    hide TieLog, Flatten, Step, SnapsOk, OpsOk, CacheOk, StoredValid, Apply;
    var e, base := InsertionAt(p, next), t.past.texts[v];
    var q := p + |Flatten(done)|;
    PastTies(p, done, next);
    StaleMoved(cfg, t, v, e);
    ReceiveCommits(cfg, t, v, [e], [InsertionAt(q, next)]);
    TieLogSnoc(p, done, next);
    FlattenSnoc(done, next);
    var r := TracedStep(cfg, t, Receive(v, [e], NoFault));
    assert r.past.log[v..] == t.past.log[v..] + [[InsertionAt(q, next)]];
    var now := t.past.texts[t.now.version];
    AppliedOne(now, InsertionAt(q, next));
    PasteAfter(base, p, Flatten(done), next);
  }

  lemma {:induction false} PasteAfter(base: Text, p: nat, s: Text, t: Text)
    requires p <= |base|
    ensures Apply(Paste(base, p, s), InsertionAt(p + |s|, t)) == Paste(base, p, s + t)
  {
    ApplyShape(Paste(base, p, s), InsertionAt(p + |s|, t));
  }

  /** Insertions made concurrently at one position end up in the order they were committed. */
  lemma {:induction false} CommitOrderDecidesTies(cfg: Config, t: Traced, p: nat, texts: seq<Text>)
    requires Reached(cfg, t) && p <= |t.past.texts[t.now.version]|
    ensures var v := t.now.version;
            var r := Run(cfg, t, TieMessages(v, p, texts));
            && r.now.version == v + |texts|
            && r.past.texts[v + |texts|] == t.past.texts[v][..p] + Flatten(texts) + t.past.texts[v][p..]
  {
    hide Run, Step, SnapsOk, OpsOk, CacheOk, StoredValid, ApplyAll;
    assert t.past.log[t.now.version..] == [];
    TiesContinue(cfg, t, t.now.version, p, [], texts);
    assert [] + texts == texts;
  }

  lemma {:induction false} TiesContinue(cfg: Config, t: Traced, v: nat, p: nat, done: seq<Text>, texts: seq<Text>)
    requires Reached(cfg, t) && TiesSoFar(t, v, p, done)
    ensures var r := Run(cfg, t, TieMessages(v, p, texts));
            TiesSoFar(r, v, p, done + texts) && r.past.texts[v] == t.past.texts[v]
    decreases |texts|
  {
    if texts == [] {
      assert done + texts == done;
    } else {
      TieStep(cfg, t, v, p, done, texts[0]);
      assert done + texts == (done + [texts[0]]) + texts[1..];
      assert TieMessages(v, p, texts)[1..] == TieMessages(v, p, texts[1..]);
      TiesContinue(cfg, TracedStep(cfg, t, Receive(v, [InsertionAt(p, texts[0])], NoFault)), v, p, done + [texts[0]], texts[1..]);
    }
  }
}
