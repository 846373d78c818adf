/** All files of the server together: each action touches one file, except that purging
    and the passing of time concern every file. */
module ServerModel {
  import opened Chunks
  import opened Files
  import opened Snapshots
  import opened Runs

  type FileId = nat

  datatype ServerAction =
    | On(file: FileId, action: Action)
    | PurgeAll(cutoff: nat)
    | TickAll(delta: nat)

  predicate AllStoredValid(m: map<FileId, FileState>) {
    forall f | f in m :: StoredValid(m[f])
  }

  function Everywhere(cfg: Config, m: map<FileId, FileState>, a: Action): map<FileId, FileState>
    requires cfg.checkpoint != 0 && AllStoredValid(m)
  {
    map f | f in m :: Step(cfg, m[f], a).0
  }

  function ServerStep(cfg: Config, m: map<FileId, FileState>, a: ServerAction): (map<FileId, FileState>, Outcome)
    requires cfg.checkpoint != 0 && AllStoredValid(m)
  {
    match a
    case On(f, action) =>
      if f !in m then (m, Ignored)
      else
        var (t, o) := Step(cfg, m[f], action);
        (m[f := t], o)
    case PurgeAll(cutoff) => (Everywhere(cfg, m, Purge(cutoff)), Silent)
    case TickAll(delta) => (Everywhere(cfg, m, Tick(delta)), Silent)
  }

  lemma {:induction false} ServerProcess(cfg: Config, m: map<FileId, FileState>, f: FileId, idle: bool, snapFault: Fault, flushFault: Fault)
    requires cfg.checkpoint != 0 && AllStoredValid(m)
    ensures var m' := ServerStep(cfg, m, On(f, Process(idle, snapFault, flushFault))).0;
            if f !in m || m[f].cached.None? || m[f].cached.value.pending <= 0
               || !(m[f].cached.value.pending > cfg.threshold || idle) then m' == m
            else
              var l := m[f := TakeSnapshot(cfg, m[f], snapFault)];
              m' == l[f := Flush(l[f], flushFault).0]
  {
    hide Flush, TakeSnapshot;
    if f in m {
      assert StoredValid(m[f]) && m[f := m[f]] == m;
      assert Step(cfg, m[f], Process(idle, snapFault, flushFault)).0 == ProcessFile(cfg, m[f], idle, snapFault, flushFault);
    }
  }

  /** The cases of an incoming message, in the order in which the server decides them. */
  lemma {:induction false} ServerReceive(cfg: Config, m: map<FileId, FileState>, f: FileId, v: int, chunks: seq<Edit>, fault: Fault)
    requires cfg.checkpoint != 0 && AllStoredValid(m)
    ensures var r := ServerStep(cfg, m, On(f, Receive(v, chunks, fault)));
            if f !in m || chunks == [] || !ValidAll(chunks) then r == (m, Ignored)
            else if m[f].cached.None? && fault == LoadFault then r == (m, Failed)
            else
              var l := m[f := Loaded(m[f])];
              && StoredValid(l[f])
              && var (s, o) := OnChunks(l[f], v, chunks, fault);
                 r == (l[f := s], o)
  {
    hide Loaded, OnChunks, ValidAll, Flush, Evicted, FetchFile, ProcessFile, NotOlderThan, NewerThan;
    if f in m {
      var (s, o) := OnChunks(m[f], v, chunks, fault);
      assert StoredValid(m[f]) && Step(cfg, m[f], Receive(v, chunks, fault)) == (s, o);
      assert m[f := m[f]] == m;
      assert ServerStep(cfg, m, On(f, Receive(v, chunks, fault))) == (m[f := s], o);
      if chunks == [] || !ValidAll(chunks) {
        OnUnusable(m[f], v, chunks, fault);
      } else {
        OnLoaded(m[f], v, chunks, fault);
        assert m[f := Loaded(m[f])][f := s] == m[f := s];
      }
    }
  }

  function RecordAll(hs: map<FileId, History>, a: ServerAction, o: Outcome): map<FileId, History>
    requires (forall f | f in hs :: HistoryOk(hs[f])) && (o.Committed? ==> ValidAll(o.chunks))
  {
    if a.On? && a.file in hs then hs[a.file := Record(hs[a.file], o)] else hs
  }

  ghost predicate ServerInv(cfg: Config, m: map<FileId, FileState>, hs: map<FileId, History>) {
    GoodConfig(cfg) && hs.Keys == m.Keys && forall f | f in m :: Inv(cfg, m[f], hs[f])
  }

  predicate DurableAction(a: ServerAction) {
    a.On? ==> Durable(a.action)
  }

  lemma {:induction false} ServerStepInv(cfg: Config, m: map<FileId, FileState>, hs: map<FileId, History>, a: ServerAction)
    requires ServerInv(cfg, m, hs) && DurableAction(a)
    ensures var (m', o) := ServerStep(cfg, m, a);
            && (o.Committed? ==> ValidAll(o.chunks) && a.On? && a.file in hs && o.version == |hs[a.file].log| + 1)
            && ServerInv(cfg, m', RecordAll(hs, a, o))
  {
    hide Step, Inv;
    forall f | f in m ensures HistoryOk(hs[f]) && StoredValid(m[f]) && m[f].version == |hs[f].log| {
      InvParts(cfg, m[f], hs[f]);
    }
    match a
    case On(f, action) =>
      if f in m { StepInv(cfg, m[f], hs[f], action); }
    case PurgeAll(cutoff) =>
      forall f | f in m ensures Inv(cfg, Step(cfg, m[f], Purge(cutoff)).0, hs[f]) { QuietInv(cfg, m[f], hs[f], Purge(cutoff)); }
    case TickAll(delta) =>
      forall f | f in m ensures Inv(cfg, Step(cfg, m[f], Tick(delta)).0, hs[f]) { QuietInv(cfg, m[f], hs[f], Tick(delta)); }
  }

  lemma {:induction false} InvParts(cfg: Config, s: FileState, h: History)
    requires Inv(cfg, s, h)
    ensures HistoryOk(h) && StoredValid(s) && s.version == |h.log|
  {
  }

  lemma {:induction false} QuietInv(cfg: Config, s: FileState, h: History, a: Action)
    requires Inv(cfg, s, h) && (a.Purge? || a.Tick?)
    ensures Inv(cfg, Step(cfg, s, a).0, h)
  {
    StepInv(cfg, s, h, a);
  }
}
