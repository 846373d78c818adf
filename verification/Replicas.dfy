/** Broadcasting committed operations to subscribers through bounded queues, and the
    replicas that apply what they receive.  Committing an operation and announcing it are
    two steps: the file stays locked in between, everything else goes on. */
module Replicas {
  import opened Chunks
  import opened Files
  import opened Snapshots
  import opened Runs
  import opened ServerModel

  const QUEUE_SIZE: nat := 8

  datatype Message = Message(file: FileId, version: int, chunks: seq<Edit>)

  /** A subscriber: what waits in its queue and what was written to its connection.
      `closing` says that the connection is being closed for being too slow.  `lost` and
      `base` are bookkeeping: the files of which a message was dropped, and the last version
      of each file announced before it subscribed. */
  datatype Sub = Sub(connected: bool, closing: bool, queue: seq<Message>, sent: seq<Message>,
                     lost: set<FileId>, base: map<FileId, int>)

  /** `owed` holds, for each locked file, the operation committed but not yet announced. */
  datatype World<K> = World(files: map<FileId, FileState>, owed: map<FileId, Message>, subs: map<K, Sub>)

  /** The result of writing to a connection; a fatal error also disconnects. */
  datatype Write = Written | NotWritten(fatal: bool)

  datatype WorldAction<K> =
    | Serve(action: ServerAction)
    | Announce(file: FileId)
    | Create(file: FileId, text: Text, clock: nat)
    | Subscribe(who: K)
    | Deliver(who: K, write: Write)
    | Disconnect(who: K)
    | Unsubscribe(who: K)

  function Enqueue(s: Sub, m: Message): Sub {
    if |s.queue| < QUEUE_SIZE then s.(queue := s.queue + [m])
    else s.(lost := s.lost + {m.file}, closing := true)
  }

  /** One pass over the subscribers: the disconnected are dropped, the others get `m` if
      their queue has room. */
  function Publish<K>(subs: map<K, Sub>, m: Message): map<K, Sub> {
    map k | k in subs && subs[k].connected :: Enqueue(subs[k], m)
  }

  function Joined(files: map<FileId, FileState>, owed: map<FileId, Message>): Sub {
    Sub(true, false, [], [], {}, map f | f in files :: if f in owed then files[f].version - 1 else files[f].version)
  }

  /** A subscriber of before the creation of `f` follows the file from its first version. */
  function Informed(s: Sub, f: FileId): Sub {
    s.(base := s.base[f := 0])
  }

  function AllInformed<K>(subs: map<K, Sub>, f: FileId): map<K, Sub> {
    map k | k in subs :: Informed(subs[k], f)
  }

  /** The head of the queue is taken; a failed write loses it. */
  function Drained(s: Sub, write: Write): Sub {
    if s.queue == [] then s
    else match write
      case Written => s.(queue := s.queue[1..], sent := s.sent + [s.queue[0]])
      case NotWritten(fatal) =>
        s.(queue := s.queue[1..], lost := s.lost + {s.queue[0].file}, connected := s.connected && !fatal)
  }

  /** Whether the action needs the lock of a file that is held; reading the operations does not. */
  predicate Blocked<K>(w: World<K>, sa: ServerAction) {
    sa.On? && sa.file in w.owed && !sa.action.Catchup?
  }

  /** A step that has to wait for a lock has no effect. */
  function WorldStep<K(==)>(cfg: Config, w: World<K>, a: WorldAction<K>): (World<K>, Outcome)
    requires cfg.checkpoint != 0 && AllStoredValid(w.files)
  {
    match a
    case Serve(sa) =>
      if Blocked(w, sa) then (w, Silent)
      else
        var (files, o) := ServerStep(cfg, w.files, sa);
        (w.(files := files,
            owed := if sa.On? && o.Committed? then w.owed[sa.file := Message(sa.file, o.version, o.chunks)] else w.owed), o)
    case Announce(f) =>
      (if f in w.owed then w.(owed := w.owed - {f}, subs := Publish(w.subs, w.owed[f])) else w, Silent)
    case Create(f, text, clock) =>
      if f in w.files then (w, Ignored)
      else (w.(files := w.files[f := Created(text, clock)], subs := AllInformed(w.subs, f)), Silent)
    case Subscribe(k) =>
      (if k in w.subs then w else w.(subs := w.subs[k := Joined(w.files, w.owed)]), Silent)
    case Deliver(k, write) =>
      (if k in w.subs then w.(subs := w.subs[k := Drained(w.subs[k], write)]) else w, Silent)
    case Disconnect(k) =>
      (if k in w.subs then w.(subs := w.subs[k := w.subs[k].(connected := false)]) else w, Silent)
    case Unsubscribe(k) => (w.(subs := w.subs - {k}), Silent)
  }

  // ---- streams of messages ----

  /** The messages about file `f`. */
  function Of(ms: seq<Message>, f: FileId): seq<Message> {
    if ms == [] then [] else (if ms[0].file == f then [ms[0]] else []) + Of(ms[1..], f)
  }

  lemma {:induction false} OfConcat(a: seq<Message>, b: seq<Message>, f: FileId)
    ensures Of(a + b, f) == Of(a, f) + Of(b, f)
  {
    if a == [] {
      assert a + b == b;
    } else {
      assert (a + b)[1..] == a[1..] + b;
      OfConcat(a[1..], b, f);
      var head := if a[0].file == f then [a[0]] else [];
      assert Of(a + b, f) == head + (Of(a[1..], f) + Of(b, f));
    }
  }

  lemma {:induction false} OfOne(m: Message, f: FileId)
    ensures Of([m], f) == if m.file == f then [m] else []
  {
    assert [m][1..] == [];
    assert Of([m][1..], f) == [];
  }

  /** A strictly increasing subsequence of the committed log after version `base`. */
  ghost predicate Subsequence(ms: seq<Message>, log: seq<seq<Edit>>, base: int) {
    && (forall i | 0 <= i < |ms| :: 0 <= base < ms[i].version <= |log| && ms[i].chunks == log[ms[i].version - 1])
    && (forall i, j | 0 <= i < j < |ms| :: ms[i].version < ms[j].version)
  }

  /** Every version after `base`, in order. */
  ghost predicate Complete(ms: seq<Message>, base: int) {
    forall i | 0 <= i < |ms| :: ms[i].version == base + 1 + i
  }

  lemma {:induction false} RestIsSubsequence(ms: seq<Message>, log: seq<seq<Edit>>, base: int)
    requires Subsequence(ms, log, base) && ms != []
    ensures Subsequence(ms[1..], log, ms[0].version)
  {
    var rest := ms[1..];
    assert forall i | 0 <= i < |rest| :: rest[i] == ms[i + 1];
  }

  /** No more messages than versions; as many only if none is missing. */
  lemma {:induction false} CountBound(ms: seq<Message>, log: seq<seq<Edit>>, base: int)
    requires 0 <= base <= |log| && Subsequence(ms, log, base)
    ensures |ms| <= |log| - base
    ensures |ms| == |log| - base ==> Complete(ms, base)
    decreases |ms|
  {
    if ms != [] {
      var rest := ms[1..];
      RestIsSubsequence(ms, log, base);
      CountBound(rest, log, ms[0].version);
      if |ms| == |log| - base {
        assert forall i | 0 < i < |ms| :: ms[i] == rest[i - 1];
      }
    }
  }

  predicate Has(ms: seq<Message>, version: int) {
    exists i | 0 <= i < |ms| :: ms[i].version == version
  }

  lemma {:induction false} NextComesFirst(ms: seq<Message>, log: seq<seq<Edit>>, base: int, j: nat)
    requires Subsequence(ms, log, base) && j < |ms| && ms[j].version == base + 1
    ensures j == 0
  {
    assert base < ms[0].version;
  }

  lemma {:induction false} AllPresent(ms: seq<Message>, log: seq<seq<Edit>>, base: int)
    requires 0 <= base <= |log| && Subsequence(ms, log, base)
    requires forall w | base < w <= |log| :: Has(ms, w)
    ensures |ms| >= |log| - base
    decreases |log| - base
  {
    if base < |log| {
      assert Has(ms, base + 1);
      var j :| 0 <= j < |ms| && ms[j].version == base + 1;
      NextComesFirst(ms, log, base, j);
      var rest := ms[1..];
      RestIsSubsequence(ms, log, base);
      forall w | base + 1 < w <= |log| ensures Has(rest, w) {
        assert Has(ms, w);
        var i :| 0 <= i < |ms| && ms[i].version == w;
        assert rest[i - 1].version == w;
      }
      AllPresent(rest, log, base + 1);
    }
  }

  /** The messages about one file that a subscriber received or still has queued: some are
      missing if and only if one was lost. */
  ghost predicate StreamOk(ms: seq<Message>, log: seq<seq<Edit>>, base: int, lost: bool) {
    && 0 <= base <= |log|
    && Subsequence(ms, log, base)
    && (lost <==> |ms| < |log| - base)
  }

  /** A message was lost exactly if some announced version never comes. */
  lemma {:induction false} LostExactly(ms: seq<Message>, log: seq<seq<Edit>>, base: int, lost: bool)
    requires StreamOk(ms, log, base, lost)
    ensures lost <==> exists w | base < w <= |log| :: !Has(ms, w)
    ensures !lost <==> Complete(ms, base) && |ms| == |log| - base
  {
    CountBound(ms, log, base);
    if forall w | base < w <= |log| :: Has(ms, w) {
      AllPresent(ms, log, base);
    }
    if !lost {
      forall w | base < w <= |log| ensures Has(ms, w) {
        assert ms[w - base - 1].version == w;
      }
    }
  }

  /** What is announced of a history: all of it, but for an operation still owed. */
  function AnnouncedLog(h: History, owes: bool): seq<seq<Edit>> {
    if owes && |h.log| > 0 then h.log[..|h.log| - 1] else h.log
  }

  function Announced(hs: map<FileId, History>, owed: map<FileId, Message>): map<FileId, seq<seq<Edit>>> {
    map f | f in hs :: AnnouncedLog(hs[f], f in owed)
  }

  /** What is owed about a file is its newest operation. */
  predicate OwedOk(hs: map<FileId, History>, owed: map<FileId, Message>) {
    forall f | f in owed ::
      f in hs && |hs[f].log| > 0 && owed[f] == Message(f, |hs[f].log|, hs[f].log[|hs[f].log| - 1])
  }

  ghost predicate SubInv(s: Sub, logs: map<FileId, seq<seq<Edit>>>) {
    && |s.queue| <= QUEUE_SIZE
    && s.base.Keys == logs.Keys
    && s.lost <= logs.Keys
    && (s.closing ==> s.lost != {})
    && (forall m | m in s.sent + s.queue :: m.file in logs)
    && forall f | f in logs :: StreamOk(Of(s.sent + s.queue, f), logs[f], s.base[f], f in s.lost)
  }

  ghost predicate WorldInv<K>(cfg: Config, w: World<K>, hs: map<FileId, History>) {
    && ServerInv(cfg, w.files, hs)
    && OwedOk(hs, w.owed)
    && forall k | k in w.subs :: SubInv(w.subs[k], Announced(hs, w.owed))
  }

  lemma {:induction false} StreamGrows(ms: seq<Message>, log: seq<seq<Edit>>, base: int, lost: bool, m: Message)
    requires StreamOk(ms, log, base, lost) && m.version == |log| + 1
    ensures StreamOk(ms + [m], log + [m.chunks], base, lost)
    ensures StreamOk(ms, log + [m.chunks], base, true)
  {
    CountBound(ms, log, base);
  }

  lemma {:induction false} StreamDrops(a: seq<Message>, b: seq<Message>, log: seq<seq<Edit>>, base: int, lost: bool)
    requires StreamOk(a + b, log, base, lost) && b != []
    ensures StreamOk(a + b[1..], log, base, true)
  {
    CountBound(a + b, log, base);
    var c, d := a + b[1..], a + b;
    assert forall i | 0 <= i < |c| :: c[i] == d[if i < |a| then i else i + 1];
  }

  lemma {:induction false} EnqueueInv(s: Sub, logs: map<FileId, seq<seq<Edit>>>, m: Message)
    requires SubInv(s, logs) && m.file in logs && m.version == |logs[m.file]| + 1
    ensures SubInv(Enqueue(s, m), logs[m.file := logs[m.file] + [m.chunks]])
  {
    hide StreamOk, Of;
    var t, logs' := Enqueue(s, m), logs[m.file := logs[m.file] + [m.chunks]];
    var all := s.sent + s.queue;
    forall f | f in logs' ensures StreamOk(Of(t.sent + t.queue, f), logs'[f], t.base[f], f in t.lost) {
      assert StreamOk(Of(all, f), logs[f], s.base[f], f in s.lost);
      if f == m.file { StreamGrows(Of(all, f), logs[f], s.base[f], f in s.lost, m); }
      if |s.queue| < QUEUE_SIZE {
        assert t.sent + t.queue == all + [m];
        OfConcat(all, [m], f);
        OfOne(m, f);
        assert Of(all, f) + [] == Of(all, f);
      }
    }
    if |s.queue| < QUEUE_SIZE {
      assert t.sent + t.queue == all + [m];
    } else {
      assert m.file in t.lost;
    }
  }

  lemma {:induction false} DrainedInv(s: Sub, logs: map<FileId, seq<seq<Edit>>>, write: Write)
    requires SubInv(s, logs)
    ensures SubInv(Drained(s, write), logs)
  {
    hide StreamOk, Of;
    if s.queue != [] {
      var t, head := Drained(s, write), s.queue[0];
      if write.Written? {
        assert t.sent + t.queue == s.sent + s.queue;
      } else {
        assert head in s.sent + s.queue && head.file in t.lost;
        forall f | f in logs ensures StreamOk(Of(t.sent + t.queue, f), logs[f], t.base[f], f in t.lost) {
          OfConcat(s.sent, s.queue, f);
          OfConcat(s.sent, s.queue[1..], f);
          OfTail(s.queue, f);
          if head.file == f {
            StreamDrops(Of(s.sent, f), Of(s.queue, f), logs[f], s.base[f], f in s.lost);
          }
        }
        forall m | m in t.sent + t.queue ensures m.file in logs {
          assert m in s.sent + s.queue;
        }
      }
    }
  }

  lemma {:induction false} DisconnectedInv(s: Sub, logs: map<FileId, seq<seq<Edit>>>)
    requires SubInv(s, logs)
    ensures SubInv(s.(connected := false), logs)
  {
  }

  lemma {:induction false} OfTail(q: seq<Message>, f: FileId)
    requires q != []
    ensures if q[0].file == f then Of(q, f) != [] && Of(q[1..], f) == Of(q, f)[1..] else Of(q[1..], f) == Of(q, f)
  {
  }

  lemma {:induction false} JoinedInv(cfg: Config, files: map<FileId, FileState>, owed: map<FileId, Message>, hs: map<FileId, History>)
    requires ServerInv(cfg, files, hs) && OwedOk(hs, owed)
    ensures SubInv(Joined(files, owed), Announced(hs, owed))
  {
    hide Inv, StreamOk, HistoryOk, StoredValid;
    var s, logs := Joined(files, owed), Announced(hs, owed);
    assert s.sent + s.queue == [];
    forall f | f in hs ensures StreamOk(Of(s.sent + s.queue, f), logs[f], s.base[f], f in s.lost) {
      InvParts(cfg, files[f], hs[f]);
      NothingMissed(logs[f]);
    }
  }

  lemma {:induction false} NothingMissed(log: seq<seq<Edit>>)
    ensures StreamOk([], log, |log|, false)
  {
  }

  // ---- steps of the world ----

  function WorldRecord<K>(hs: map<FileId, History>, w: World<K>, a: WorldAction<K>, o: Outcome): map<FileId, History>
    requires (forall f | f in hs :: HistoryOk(hs[f])) && (o.Committed? ==> ValidAll(o.chunks))
  {
    match a
    case Serve(sa) => if Blocked(w, sa) then hs else RecordAll(hs, sa, o)
    case Create(f, text, _) => if f in hs then hs else hs[f := History([text], [])]
    case _ => hs
  }

  lemma {:induction false} NoneOf(ms: seq<Message>, f: FileId)
    requires forall m | m in ms :: m.file != f
    ensures Of(ms, f) == []
  {
    if ms != [] { NoneOf(ms[1..], f); }
  }

  lemma {:induction false} InformedInv(s: Sub, logs: map<FileId, seq<seq<Edit>>>, f: FileId)
    requires SubInv(s, logs) && f !in logs
    ensures SubInv(Informed(s, f), logs[f := []])
  {
    hide Of;
    NoneOf(s.sent + s.queue, f);
  }

  lemma {:induction false} CreateInv(cfg: Config, files: map<FileId, FileState>, hs: map<FileId, History>, f: FileId, text: Text, clock: nat)
    requires ServerInv(cfg, files, hs)
    ensures ServerInv(cfg, files[f := Created(text, clock)], hs[f := History([text], [])])
  {
    hide Inv;
    CreatedInv(cfg, text, clock);
  }

  /** A server without files and subscribers: where every run may start. */
  function EmptyWorld<K>(): World<K> { World(map[], map[], map[]) }

  lemma {:induction false} EmptyWorldInv<K>(cfg: Config)
    requires GoodConfig(cfg)
    ensures WorldInv<K>(cfg, EmptyWorld(), map[])
  {
  }

  lemma {:induction false} WorldStepInv<K>(cfg: Config, w: World<K>, hs: map<FileId, History>, a: WorldAction<K>)
    requires WorldInv(cfg, w, hs) && (a.Serve? ==> DurableAction(a.action))
    ensures var (w', o) := WorldStep(cfg, w, a);
            && (o.Committed? ==> ValidAll(o.chunks))
            && (forall f | f in hs :: HistoryOk(hs[f]))
            && WorldInv(cfg, w', WorldRecord(hs, w, a, o))
  {
    hide Inv, SubInv, ServerStep, Joined, Drained, Informed, Publish, Announced;
    forall f | f in hs ensures HistoryOk(hs[f]) { InvParts(cfg, w.files[f], hs[f]); }
    match a
    case Serve(sa) => if !Blocked(w, sa) { ServeInv(cfg, w, hs, sa); }
    case Announce(f) => if f in w.owed { AnnounceInv(w, hs, f); }
    case Create(f, text, clock) =>
      if f !in hs {
        CreateInv(cfg, w.files, hs, f, text, clock);
        AnnouncedCreation(hs, w.owed, f, text);
        forall k | k in w.subs ensures SubInv(Informed(w.subs[k], f), Announced(hs, w.owed)[f := []]) {
          InformedInv(w.subs[k], Announced(hs, w.owed), f);
        }
      }
    case Subscribe(k) => JoinedInv(cfg, w.files, w.owed, hs);
    case Deliver(k, write) => if k in w.subs { DrainedInv(w.subs[k], Announced(hs, w.owed), write); }
    case Disconnect(k) => if k in w.subs { DisconnectedInv(w.subs[k], Announced(hs, w.owed)); }
    case Unsubscribe(k) =>
  }

  /** A message to an unlocked server, and the announcement of what it committed. */
  lemma {:induction false} MessageAndAnnouncement<K>(cfg: Config, files: map<FileId, FileState>, subs: map<K, Sub>, f: FileId, a: Action)
    requires cfg.checkpoint != 0 && AllStoredValid(files) && AllStoredValid(ServerStep(cfg, files, On(f, a)).0)
    ensures var (next, o) := ServerStep(cfg, files, On(f, a));
            var (w, answer) := WorldStep(cfg, World(files, map[], subs), Serve(On(f, a)));
            && answer == o && w.files == next
            && WorldStep(cfg, w, Announce(f)).0 ==
               World(next, map[], if o.Committed? then Publish(subs, Message(f, o.version, o.chunks)) else subs)
  {
    hide ServerStep, Publish, AllStoredValid;
  }

  lemma {:induction false} AnnouncedCreation(hs: map<FileId, History>, owed: map<FileId, Message>, f: FileId, text: Text)
    requires OwedOk(hs, owed) && f !in hs
    ensures f !in owed && f !in Announced(hs, owed)
    ensures Announced(hs[f := History([text], [])], owed) == Announced(hs, owed)[f := []]
  {
  }

  /** A commit adds to the history nothing that is announced yet. */
  lemma {:induction false} ServeInv<K>(cfg: Config, w: World<K>, hs: map<FileId, History>, sa: ServerAction)
    requires WorldInv(cfg, w, hs) && DurableAction(sa) && !Blocked(w, sa)
    requires forall f | f in hs :: HistoryOk(hs[f])
    ensures var (w', o) := WorldStep(cfg, w, Serve(sa));
            && (o.Committed? ==> ValidAll(o.chunks))
            && WorldInv(cfg, w', RecordAll(hs, sa, o))
  {
    hide SubInv, ServerStep, Record, Inv, Announced, HistoryOk, StoredValid;
    forall f | f in hs ensures StoredValid(w.files[f]) { InvParts(cfg, w.files[f], hs[f]); }
    ServerStepInv(cfg, w.files, hs, sa);
    var (files, o) := ServerStep(cfg, w.files, sa);
    if o.Committed? {
      OnlyMessagesCommit(cfg, w.files, sa);
      RecordedLog(hs[sa.file], o);
      AnnouncedCommit(hs, w.owed, sa.file, Record(hs[sa.file], o), Message(sa.file, o.version, o.chunks));
    } else {
      forall f | f in hs { NothingRecorded(hs[f], o); }
      assert RecordAll(hs, sa, o) == hs;
    }
  }

  lemma {:induction false} AnnouncedCommit(hs: map<FileId, History>, owed: map<FileId, Message>, f: FileId, h: History, m: Message)
    requires OwedOk(hs, owed) && f in hs && f !in owed
    requires m == Message(f, |hs[f].log| + 1, m.chunks) && h.log == hs[f].log + [m.chunks]
    ensures OwedOk(hs[f := h], owed[f := m])
    ensures Announced(hs[f := h], owed[f := m]) == Announced(hs, owed)
  {
  }

  lemma {:induction false} OnlyMessagesCommit(cfg: Config, m: map<FileId, FileState>, sa: ServerAction)
    requires cfg.checkpoint != 0 && AllStoredValid(m) && ServerStep(cfg, m, sa).1.Committed?
    ensures sa.On? && sa.action.Receive?
  {
    hide OnChunks, Flush, Evicted, ProcessFile, NewerThan, NotOlderThan;
  }

  lemma {:induction false} AnnounceInv<K>(w: World<K>, hs: map<FileId, History>, f: FileId)
    requires OwedOk(hs, w.owed) && f in w.owed
    requires forall k | k in w.subs :: SubInv(w.subs[k], Announced(hs, w.owed))
    ensures OwedOk(hs, w.owed - {f})
    ensures var subs := Publish(w.subs, w.owed[f]);
            forall k | k in subs :: SubInv(subs[k], Announced(hs, w.owed - {f}))
  {
    hide SubInv;
    var m, logs := w.owed[f], Announced(hs, w.owed);
    assert logs[f] + [m.chunks] == hs[f].log;
    assert Announced(hs, w.owed - {f}) == logs[f := logs[f] + [m.chunks]];
    forall k | k in w.subs ensures SubInv(Enqueue(w.subs[k], m), logs[f := logs[f] + [m.chunks]]) {
      EnqueueInv(w.subs[k], logs, m);
    }
  }

  lemma {:induction false} RecordedLog(h: History, o: Outcome)
    requires HistoryOk(h) && o.Committed? && ValidAll(o.chunks)
    ensures Record(h, o).log == h.log + [o.chunks]
  {
  }

  lemma {:induction false} NothingRecorded(h: History, o: Outcome)
    requires HistoryOk(h) && !o.Committed?
    ensures Record(h, o) == h
  {
  }

  // ---- runs and replicas ----

  datatype WorldTrace<K> = WorldTrace(now: World<K>, past: map<FileId, History>)

  predicate DurableWorld<K>(a: WorldAction<K>) {
    a.Serve? ==> DurableAction(a.action)
  }

  ghost function TracedWorldStep<K>(cfg: Config, t: WorldTrace<K>, a: WorldAction<K>): (r: WorldTrace<K>)
    requires WorldInv(cfg, t.now, t.past) && DurableWorld(a)
    ensures WorldInv(cfg, r.now, r.past)
  {
    WorldStepInv(cfg, t.now, t.past, a);
    var (w, o) := WorldStep(cfg, t.now, a);
    WorldTrace(w, WorldRecord(t.past, t.now, a, o))
  }

  ghost function WorldRun<K(!new)>(cfg: Config, t: WorldTrace<K>, acts: seq<WorldAction<K>>): (r: WorldTrace<K>)
    requires WorldInv(cfg, t.now, t.past) && forall i | 0 <= i < |acts| :: DurableWorld(acts[i])
    ensures WorldInv(cfg, r.now, r.past)
    decreases |acts|
  {
    if acts == [] then t else WorldRun(cfg, TracedWorldStep(cfg, t, acts[0]), acts[1..])
  }

  predicate MessagesValid(ms: seq<Message>) {
    forall i | 0 <= i < |ms| :: ValidAll(ms[i].chunks)
  }

  /** A replica that applies every message it receives. */
  function Replay(text: Text, ms: seq<Message>): Text
    requires MessagesValid(ms)
    decreases |ms|
  {
    if ms == [] then text
    else
      assert ValidAll(ms[0].chunks);
      Replay(ApplyAll(text, ms[0].chunks), ms[1..])
  }

  /** The replica that started at version `base` is, after these messages, at `base + |ms|`. */
  ghost predicate AtVersion(h: History, base: int, ms: seq<Message>) {
    && 0 <= base && base + |ms| < |h.texts|
    && (ms != [] ==> ms[|ms| - 1].version == base + |ms|)
    && MessagesValid(ms)
    && Replay(h.texts[base], ms) == h.texts[base + |ms|]
  }

  lemma {:induction false} ReplayFollows(h: History, base: nat, ms: seq<Message>)
    requires HistoryOk(h) && base <= |h.log| && Complete(ms, base) && Subsequence(ms, h.log, base)
    ensures AtVersion(h, base, ms)
    decreases |ms|
  {
    hide ApplyAll, ValidAll;
    if ms != [] {
      assert ms[0].version == base + 1;
      var rest := ms[1..];
      assert forall i | 0 <= i < |rest| :: rest[i] == ms[i + 1];
      ReplayFollows(h, base + 1, rest);
      assert ValidAll(ms[0].chunks);
      assert Replay(h.texts[base], ms) == Replay(h.texts[base + 1], rest);
    }
  }

  lemma {:induction false} StreamPrefix(ms: seq<Message>, rest: seq<Message>, log: seq<seq<Edit>>, base: int, lost: bool, i: nat)
    requires StreamOk(ms + rest, log, base, lost) && i <= |ms|
    ensures Subsequence(ms[..i], log, base) && (!lost ==> Complete(ms[..i], base))
  {
    var all := ms + rest;
    CountBound(all, log, base);
    assert forall k | 0 <= k < i :: ms[..i][k] == all[k];
  }

  /** After any run, for every subscriber and file: what was written to the connection is a
      strictly increasing subsequence of the log.  A message about the file was lost if and
      only if some version announced since it subscribed is neither written nor queued.  If
      none was, a replica that started from the version it subscribed at holds, after each
      message of version `w`, exactly the text of version `w`. */
  lemma {:induction false} ReplicasConverge<K(!new)>(cfg: Config, t: WorldTrace<K>, acts: seq<WorldAction<K>>, k: K, f: FileId)
    requires WorldInv(cfg, t.now, t.past) && forall i | 0 <= i < |acts| :: DurableWorld(acts[i])
    requires k in WorldRun(cfg, t, acts).now.subs && f in WorldRun(cfg, t, acts).past
    ensures var r := WorldRun(cfg, t, acts);
            var s, h := r.now.subs[k], r.past[f];
            var announced := if f in r.now.owed then |h.log| - 1 else |h.log|;
            && f in s.base && s.base[f] <= announced
            && Subsequence(Of(s.sent, f), h.log, s.base[f])
            && (f in s.lost <==> exists w | s.base[f] < w <= announced :: !Has(Of(s.sent + s.queue, f), w))
            && (f !in s.lost ==> forall i: nat | i <= |Of(s.sent, f)| :: AtVersion(h, s.base[f], Of(s.sent, f)[..i]))
            && (f !in s.lost ==> |Of(s.sent, f)| + |Of(s.queue, f)| == announced - s.base[f])
  {
    var r := WorldRun(cfg, t, acts);
    SentIsFollowed(cfg, r.now.files[f], r.past[f], r.now.subs[k], r.past, r.now.owed, f);
  }

  lemma {:induction false} SentIsFollowed(cfg: Config, file: FileState, h: History, s: Sub, hs: map<FileId, History>, owed: map<FileId, Message>, f: FileId)
    requires SubInv(s, Announced(hs, owed)) && OwedOk(hs, owed) && f in hs && hs[f] == h && Inv(cfg, file, h)
    ensures f in s.base
    ensures var announced := if f in owed then |h.log| - 1 else |h.log|;
            && s.base[f] <= announced
            && (f in s.lost <==> exists w | s.base[f] < w <= announced :: !Has(Of(s.sent + s.queue, f), w))
            && (f !in s.lost ==> |Of(s.sent, f)| + |Of(s.queue, f)| == announced - s.base[f])
    ensures Subsequence(Of(s.sent, f), h.log, s.base[f])
    ensures f !in s.lost ==> forall i: nat | i <= |Of(s.sent, f)| :: AtVersion(h, s.base[f], Of(s.sent, f)[..i])
  {
    hide Inv, AtVersion, Of, Has, HistoryOk, StreamOk, Complete;
    InvParts(cfg, file, h);
    var sent, queued, log := Of(s.sent, f), Of(s.queue, f), Announced(hs, owed)[f];
    assert StreamOk(Of(s.sent + s.queue, f), log, s.base[f], f in s.lost);
    OfConcat(s.sent, s.queue, f);
    StreamSplits(h, sent, queued, log, s.base[f], f in s.lost);
  }

  lemma {:induction false} StreamSplits(h: History, sent: seq<Message>, queued: seq<Message>, log: seq<seq<Edit>>, base: int, lost: bool)
    requires HistoryOk(h) && log <= h.log && StreamOk(sent + queued, log, base, lost)
    ensures 0 <= base <= |log|
    ensures lost <==> exists w | base < w <= |log| :: !Has(sent + queued, w)
    ensures !lost ==> |sent| + |queued| == |log| - base
    ensures Subsequence(sent, h.log, base)
    ensures !lost ==> forall i: nat | i <= |sent| :: AtVersion(h, base, sent[..i])
  {
    hide AtVersion, Has, HistoryOk, Complete;
    LostExactly(sent + queued, log, base, lost);
    StreamPrefix(sent, queued, log, base, lost, |sent|);
    assert sent[..|sent|] == sent;
    LongerLog(sent, log, h.log, base);
    if !lost {
      forall i: nat | i <= |sent| ensures AtVersion(h, base, sent[..i]) {
        StreamPrefix(sent, queued, log, base, lost, i);
        LongerLog(sent[..i], log, h.log, base);
        ReplayFollows(h, base, sent[..i]);
      }
    }
  }

  lemma {:induction false} LongerLog(ms: seq<Message>, log: seq<seq<Edit>>, longer: seq<seq<Edit>>, base: int)
    requires Subsequence(ms, log, base) && log <= longer
    ensures Subsequence(ms, longer, base)
  {
    forall i | 0 <= i < |ms| ensures ms[i].version <= |longer| && ms[i].chunks == longer[ms[i].version - 1] {
      assert log[ms[i].version - 1] == longer[ms[i].version - 1];
    }
  }

  function AsMessages(f: FileId, rows: seq<OpRow>): seq<Message> {
    seq(|rows|, i requires 0 <= i < |rows| => Message(f, rows[i].version, rows[i].chunks))
  }

  /** Reading the operations after version `v` brings a replica at `v` up to date, unless
      the log no longer reaches back that far, which shows in the first row's version or in
      there being no row. */
  lemma {:induction false} CatchupExact(cfg: Config, s: FileState, h: History, f: FileId, v: nat)
    requires Inv(cfg, s, h) && v <= s.version
    ensures var rows := NewerThan(s.ops, v);
            && Step(cfg, s, Catchup(v)) == (s, Operations(rows))
            && |rows| == Min(s.version - v, |s.ops|)
            && (s.version - |s.ops| <= v ==> AtVersion(h, v, AsMessages(f, rows)) && v + |rows| == s.version)
            && (s.version - |s.ops| > v && rows != [] ==> rows[0].version > v + 1)
  {
    RowsAfter(s, h, f, v);
    hide OpsOk, CacheOk, SnapsOk, NewerThan, HistoryOk;
    if s.version - |s.ops| <= v {
      ReplayFollows(h, v, AsMessages(f, NewerThan(s.ops, v)));
    }
  }

  lemma {:induction false} RowsAfter(s: FileState, h: History, f: FileId, v: nat)
    requires OpsOk(s, h) && s.version == |h.log| && v <= s.version
    ensures var rows := NewerThan(s.ops, v);
            var ms := AsMessages(f, rows);
            && |rows| == Min(s.version - v, |s.ops|)
            && (s.version - |s.ops| <= v ==> Complete(ms, v) && Subsequence(ms, h.log, v))
            && (s.version - |s.ops| > v && rows != [] ==> rows[0].version > v + 1)
  {
    hide NewerThan, OpsOk, AsMessages, Complete, Subsequence;
    NewerRows(s, h, v);
    if s.version - |s.ops| <= v {
      RowsAsMessages(f, NewerThan(s.ops, v), h.log, v);
    }
    AllOrNewer(s, h);
  }

  lemma {:induction false} AllOrNewer(s: FileState, h: History)
    requires OpsOk(s, h)
    ensures |s.ops| <= |h.log|
  {
  }

  lemma {:induction false} RowsAsMessages(f: FileId, rows: seq<OpRow>, log: seq<seq<Edit>>, v: nat)
    requires Contiguous(rows, v + 1) && v <= |log| && ChunksOf(rows) == log[v..]
    ensures |rows| == |log| - v && Complete(AsMessages(f, rows), v) && Subsequence(AsMessages(f, rows), log, v)
  {
    assert forall i | 0 <= i < |rows| :: ChunksOf(rows)[i] == log[v + i];
  }
}
