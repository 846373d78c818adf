/** The cache is invisible: the server, which keeps recent contents in memory and writes
    them back late, answers exactly like one that has no cache at all. */
module Refinement {
  import opened Chunks
  import opened Files
  import opened Snapshots
  import opened Runs
  import opened ServerModel

  /** A file of the uncached server. */
  datatype Eager = Eager(version: int, content: Text, ops: seq<OpRow>, clock: nat)

  predicate EagerValid(e: Eager) {
    forall i | 0 <= i < |e.ops| :: ValidAll(e.ops[i].chunks)
  }

  function EagerStep(e: Eager, a: Action): (Eager, Outcome)
    requires EagerValid(e)
  {
    match a
    case Receive(v, chunks, _) =>
      if chunks == [] || !ValidAll(chunks) then (e, Ignored)
      else
        TransformStaleValid(e.ops, e.version, v, chunks);
        (match TransformStale(e.ops, e.version, v, chunks)
         case MissingOperation(_) => (e, Rejected)
         case Ready(moved) =>
           (Eager(e.version + 1, ApplyAll(e.content, moved), e.ops + [OpRow(e.version + 1, moved, e.clock)], e.clock),
            Committed(e.version + 1, moved)))
    case Fetch(_) => (e, Content(e.version, e.content))
    case Catchup(v) => (e, Operations(NewerThan(e.ops, v)))
    case Purge(cutoff) => (e.(ops := NotOlderThan(e.ops, cutoff)), Silent)
    case Tick(delta) => (e.(clock := e.clock + delta), Silent)
    case Process(_, _, _) => (e, Silent)
    case Evict(_) => (e, Silent)
  }

  function EagerEverywhere(m: map<FileId, Eager>, a: Action): map<FileId, Eager>
    requires forall f | f in m :: EagerValid(m[f])
  {
    map f | f in m :: EagerStep(m[f], a).0
  }

  function EagerServerStep(m: map<FileId, Eager>, a: ServerAction): (map<FileId, Eager>, Outcome)
    requires forall f | f in m :: EagerValid(m[f])
  {
    match a
    case On(f, action) =>
      if f !in m then (m, Ignored)
      else
        var (t, o) := EagerStep(m[f], action);
        (m[f := t], o)
    case PurgeAll(cutoff) => (EagerEverywhere(m, Purge(cutoff)), Silent)
    case TickAll(delta) => (EagerEverywhere(m, Tick(delta)), Silent)
  }

  /** What the lazy file stands for. */
  function Abs(s: FileState): Eager {
    Eager(s.version, if s.cached.Some? then s.cached.value.content else s.disk, s.ops, s.clock)
  }

  function AbsAll(m: map<FileId, FileState>): map<FileId, Eager> {
    map f | f in m :: Abs(m[f])
  }

  function FaultOf(a: Action): Fault {
    match a
    case Receive(_, _, fault) => fault
    case Fetch(fault) => fault
    case Catchup(_) => NoFault
    case Process(_, _, _) => NoFault
    case Evict(_) => NoFault
    case Purge(_) => NoFault
    case Tick(_) => NoFault
  }

  lemma {:induction false} ReceiveRefines(cfg: Config, s: FileState, h: History, v: int, chunks: seq<Edit>, fault: Fault)
    requires Inv(cfg, s, h)
    ensures var (t, o) := OnChunks(s, v, chunks, fault);
            && EagerValid(Abs(s))
            && (o.Failed? ==> fault != NoFault && Abs(t) == Abs(s))
            && (!o.Failed? ==> EagerStep(Abs(s), Receive(v, chunks, fault)) == (Abs(t), o))
  {
    var l := Loaded(s);
    assert Abs(l) == Abs(s);
    assert l.version == l.cached.value.version == s.version && l.ops == s.ops;
    if chunks != [] && ValidAll(chunks) {
      TransformStaleValid(s.ops, s.version, v, chunks);
      var moved := TransformStale(s.ops, s.version, v, chunks);
      if moved.Ready? {
        InsertAppends(s.ops, OpRow(s.version + 1, moved.chunks, s.clock));
        assert !HasOp(s.ops, s.version + 1);
      }
    }
  }

  /** A step either fails, through a fault of its environment and without visible effect,
      or does and answers what the uncached server does and answers. */
  lemma {:induction false} StepRefines(cfg: Config, s: FileState, h: History, a: Action)
    requires Inv(cfg, s, h) && Durable(a)
    ensures var (t, o) := Step(cfg, s, a);
            && EagerValid(Abs(s))
            && (o.Failed? ==> FaultOf(a) != NoFault && Abs(t) == Abs(s))
            && (!o.Failed? ==> EagerStep(Abs(s), a) == (Abs(t), o))
  {
    if a.Receive? {
      ReceiveRefines(cfg, s, h, a.version, a.chunks, a.fault);
    } else if s.cached.Some? {
      var k :| LagsBy(s, h, k, s.cached.value.pending);
    }
  }

  lemma {:induction false} UpdateAbs(m: map<FileId, FileState>, f: FileId, t: FileState)
    requires f in m
    ensures AbsAll(m[f := t]) == AbsAll(m)[f := Abs(t)]
    ensures Abs(t) == Abs(m[f]) ==> AbsAll(m[f := t]) == AbsAll(m)
  {
  }

  lemma {:induction false} OnRefines(cfg: Config, m: map<FileId, FileState>, hs: map<FileId, History>, f: FileId, action: Action)
    requires ServerInv(cfg, m, hs) && Durable(action)
    requires forall g | g in m :: EagerValid(Abs(m[g]))
    ensures var (m', o) := ServerStep(cfg, m, On(f, action));
            && (o.Failed? ==> FaultOf(action) != NoFault && AbsAll(m') == AbsAll(m))
            && (!o.Failed? ==> EagerServerStep(AbsAll(m), On(f, action)) == (AbsAll(m'), o))
  {
    if f in m {
      StepRefines(cfg, m[f], hs[f], action);
      UpdateAbs(m, f, Step(cfg, m[f], action).0);
    }
    hide Step, EagerStep, Inv, Abs, EagerValid;
  }

  /** Purging and the passing of time, which concern every file. */
  lemma {:induction false} EverywhereRefines(cfg: Config, m: map<FileId, FileState>, hs: map<FileId, History>, a: Action)
    requires ServerInv(cfg, m, hs) && (a.Purge? || a.Tick?)
    requires forall f | f in m :: EagerValid(Abs(m[f]))
    ensures EagerEverywhere(AbsAll(m), a) == AbsAll(Everywhere(cfg, m, a))
  {
    hide Step, EagerStep, Inv, Abs, EagerValid, StoredValid;
    forall f | f in m ensures StoredValid(m[f]) && EagerStep(Abs(m[f]), a).0 == Abs(Step(cfg, m[f], a).0) {
      QuietRefines(cfg, m[f], hs[f], a);
    }
    var left, right := EagerEverywhere(AbsAll(m), a), AbsAll(Everywhere(cfg, m, a));
    assert left.Keys == m.Keys == right.Keys;
    forall f | f in m ensures left[f] == right[f] {
      assert AbsAll(m)[f] == Abs(m[f]);
    }
  }

  lemma {:induction false} ServerStepRefines(cfg: Config, m: map<FileId, FileState>, hs: map<FileId, History>, a: ServerAction)
    requires ServerInv(cfg, m, hs) && DurableAction(a)
    ensures forall f | f in m :: EagerValid(Abs(m[f]))
    ensures var (m', o) := ServerStep(cfg, m, a);
            && (o.Failed? ==> a.On? && FaultOf(a.action) != NoFault && AbsAll(m') == AbsAll(m))
            && (!o.Failed? ==> EagerServerStep(AbsAll(m), a) == (AbsAll(m'), o))
  {
    forall f | f in m ensures EagerValid(Abs(m[f])) { QuietRefines(cfg, m[f], hs[f], Tick(0)); }
    if a.On? {
      OnRefines(cfg, m, hs, a.file, a.action);
    } else {
      EverywhereRefines(cfg, m, hs, if a.PurgeAll? then Purge(a.cutoff) else Tick(a.delta));
      assert ServerStep(cfg, m, a).1 == Silent;
    }
  }

  lemma {:induction false} QuietRefines(cfg: Config, s: FileState, h: History, a: Action)
    requires Inv(cfg, s, h) && (a.Purge? || a.Tick?)
    ensures StoredValid(s) && EagerValid(Abs(s))
    ensures EagerStep(Abs(s), a).0 == Abs(Step(cfg, s, a).0)
  {
  }

  /** An answer of the server and the action that got it. */
  datatype Exchange = Exchange(action: ServerAction, answer: Outcome)

  /** The exchanges of a run that were not cut short by a fault. */
  ghost function Exchanges(cfg: Config, m: map<FileId, FileState>, hs: map<FileId, History>, acts: seq<ServerAction>): seq<Exchange>
    requires ServerInv(cfg, m, hs) && forall i | 0 <= i < |acts| :: DurableAction(acts[i])
    decreases |acts|
  {
    if acts == [] then []
    else
      ServerStepInv(cfg, m, hs, acts[0]);
      var (m', o) := ServerStep(cfg, m, acts[0]);
      (if o.Failed? then [] else [Exchange(acts[0], o)]) + Exchanges(cfg, m', RecordAll(hs, acts[0], o), acts[1..])
  }

  /** The uncached server, given the same actions in the same order, gives those answers. */
  ghost predicate EagerAnswers(m: map<FileId, Eager>, xs: seq<Exchange>)
    decreases |xs|
  {
    xs == [] ||
    (&& (forall f | f in m :: EagerValid(m[f]))
     && EagerServerStep(m, xs[0].action).1 == xs[0].answer
     && EagerAnswers(EagerServerStep(m, xs[0].action).0, xs[1..]))
  }

  /** Over any run, with any policy of loading, flushing and evicting, no client can tell
      the server from the uncached one. */
  lemma {:induction false} Indistinguishable(cfg: Config, m: map<FileId, FileState>, hs: map<FileId, History>, acts: seq<ServerAction>)
    requires ServerInv(cfg, m, hs) && forall i | 0 <= i < |acts| :: DurableAction(acts[i])
    ensures EagerAnswers(AbsAll(m), Exchanges(cfg, m, hs, acts))
    decreases |acts|
  {
    if acts != [] {
      ServerStepRefines(cfg, m, hs, acts[0]);
      ServerStepInv(cfg, m, hs, acts[0]);
      var (m', o) := ServerStep(cfg, m, acts[0]);
      Indistinguishable(cfg, m', RecordAll(hs, acts[0], o), acts[1..]);
      var rest := Exchanges(cfg, m', RecordAll(hs, acts[0], o), acts[1..]);
      assert [Exchange(acts[0], o)] + rest == Exchanges(cfg, m, hs, acts) || rest == Exchanges(cfg, m, hs, acts);
      assert ([Exchange(acts[0], o)] + rest)[1..] == rest;
    }
  }
}
