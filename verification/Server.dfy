/** The server itself: routines that update tables, objects, cached files and subscriber
    queues in place, each proved to do to the view of the file it is called for exactly
    what the function of the same step does, and nothing to any other file. */
module Server {
  import opened Chunks
  import opened EditScripts
  import opened Files
  import opened ServerModel
  import opened Tables
  import opened Snapshots
  import opened Runs
  import opened Replicas

  /** A file held in memory. */
  class CachedFile {
    const id: FileId
    const diskPath: Path
    var content: Text
    var version: int
    var pendingChanges: int

    constructor (id: FileId, diskPath: Path, content: Text, version: int)
      ensures this.id == id && this.diskPath == diskPath
      ensures this.content == content && this.version == version && this.pendingChanges == 0
    {
      this.id, this.diskPath, this.content, this.version, this.pendingChanges := id, diskPath, content, version, 0;
    }

    function Value(): Cached
      reads this
    {
      Cached(content, version, pendingChanges)
    }
  }

  class Options {
    var minChangesThreshold: int
    var snapshotCheckpoint: int
    var maxSnapshotDiffChain: int

    constructor (minChangesThreshold: int, snapshotCheckpoint: int, maxSnapshotDiffChain: int)
      ensures this.minChangesThreshold == minChangesThreshold
      ensures this.snapshotCheckpoint == snapshotCheckpoint && this.maxSnapshotDiffChain == maxSnapshotDiffChain
    {
      this.minChangesThreshold := minChangesThreshold;
      this.snapshotCheckpoint, this.maxSnapshotDiffChain := snapshotCheckpoint, maxSnapshotDiffChain;
    }

    /** A threshold of 0 stands: every change is then enough. */
    method Default()
      modifies this
      ensures minChangesThreshold == if old(minChangesThreshold) < 0 then 5 else old(minChangesThreshold)
      ensures snapshotCheckpoint == if old(snapshotCheckpoint) <= 0 then 5 else old(snapshotCheckpoint)
      ensures maxSnapshotDiffChain == if old(maxSnapshotDiffChain) <= 0 then 10 else old(maxSnapshotDiffChain)
    {
      if minChangesThreshold < 0 {
        minChangesThreshold := 5;
      }
      if snapshotCheckpoint <= 0 {
        snapshotCheckpoint := 5;
      }
      if maxSnapshotDiffChain <= 0 {
        maxSnapshotDiffChain := 10;
      }
    }
  }

  /** Whatever the options, the server starts in a state from which every run is sound. */
  method New(opts: Options, differ: (Text, Text) -> seq<Diff<char>>) returns (s: Syncinator)
    requires forall a, b :: Partitions(differ(a, b), a, b)
    ensures fresh(s) && s.Valid()
    ensures s.cfg.threshold == if opts.minChangesThreshold < 0 then 5 else opts.minChangesThreshold
    ensures s.cfg.checkpoint == if opts.snapshotCheckpoint <= 0 then 5 else opts.snapshotCheckpoint
    ensures s.cfg.maxChain == if opts.maxSnapshotDiffChain <= 0 then 10 else opts.maxSnapshotDiffChain
    ensures s.cfg.differ == differ
    ensures WorldInv(s.cfg, World(s.View(), map[], s.Subs()), map[])
  {
    var o := new Options(opts.minChangesThreshold, opts.snapshotCheckpoint, opts.maxSnapshotDiffChain);
    o.Default();
    s := new Syncinator(Config(o.minChangesThreshold, o.snapshotCheckpoint, o.maxSnapshotDiffChain, differ));
    EmptyWorldInv<Subscriber>(s.cfg);
  }

  /** A connected client with its bounded queue. */
  class Subscriber {
    var isConnected: bool
    var isClosing: bool
    var chunkMsgQueue: seq<Message>
    ghost var sent: seq<Message>
    ghost var lost: set<FileId>
    ghost var base: map<FileId, int>

    constructor (ghost base: map<FileId, int>)
      ensures State() == Sub(true, false, [], [], {}, base)
    {
      isConnected, isClosing, chunkMsgQueue := true, false, [];
      this.sent, this.lost, this.base := [], {}, base;
    }

    ghost function State(): Sub
      reads this
    {
      Sub(isConnected, isClosing, chunkMsgQueue, sent, lost, base)
    }

    method Close()
      modifies this`isConnected
      ensures State() == old(State()).(connected := false)
    {
      isConnected := false;
    }

    /** A send that never blocks: without room the message is dropped and the closing of the
        connection is set off, which takes effect some time later. */
    method Offer(m: Message)
      modifies this
      ensures State() == Enqueue(old(State()), m)
    {
      if |chunkMsgQueue| < QUEUE_SIZE {
        chunkMsgQueue := chunkMsgQueue + [m];
      } else {
        lost := lost + {m.file};
        isClosing := true;
      }
    }

    /** One turn of the drain loop; `write` is the result of writing to the connection. */
    method Drain(write: Write)
      modifies this
      ensures State() == Drained(old(State()), write)
    {
      if |chunkMsgQueue| > 0 {
        var m := chunkMsgQueue[0];
        chunkMsgQueue := chunkMsgQueue[1..];
        match write {
          case Written =>
            sent := sent + [m];
          case NotWritten(fatal) =>
            lost := lost + {m.file};
            if fatal {
              Close();
            }
        }
      }
    }
  }

  class Syncinator {
    const cfg: Config
    var backend: Backend
    var fileCache: map<FileId, CachedFile>
    var subs: set<Subscriber>

    ghost function CacheValues(): (c: map<FileId, Cached>)
      reads this`fileCache, fileCache.Values
      ensures c.Keys == fileCache.Keys
    {
      map f | f in fileCache :: fileCache[f].Value()
    }

    /** Cached files belong to their entry, so distinct entries are distinct objects. */
    ghost predicate CacheLinked()
      reads this`fileCache, this`backend, fileCache.Values
    {
      forall f | f in fileCache ::
        fileCache[f].id == f && f in backend.files && fileCache[f].diskPath == backend.files[f].diskPath
    }

    ghost predicate Valid()
      reads this`backend, this`fileCache, fileCache.Values
    {
      && GoodConfig(cfg)
      && Consistent(backend)
      && CacheLinked()
    }

    /** Every file on its own, whatever the layout of tables and objects. */
    ghost function View(): (m: map<FileId, FileState>)
      requires Consistent(backend)
      reads this`backend, this`fileCache, fileCache.Values
      ensures AllStoredValid(m)
      ensures m.Keys == backend.files.Keys
      ensures forall f | f in m :: m[f].cached.Some? <==> f in fileCache
    {
      ViewValid(backend, CacheValues());
      ViewOf(backend, CacheValues())
    }

    ghost function Subs(): map<Subscriber, Sub>
      reads this`subs, subs
    {
      map s | s in subs :: s.State()
    }

    /** `file` is the cache's entry for its id. */
    ghost predicate IsCached(file: CachedFile)
      reads this`fileCache
    {
      file.id in fileCache && fileCache[file.id] == file
    }

    constructor (cfg: Config)
      requires GoodConfig(cfg)
      ensures fresh(this) && Valid() && this.cfg == cfg && View() == map[] && Subs() == map[]
    {
      this.cfg := cfg;
      backend, fileCache, subs := Backend(map[], map[], map[], map[], 0), map[], {};
    }

    /** A file is created with its first content under a path that is still free.  A failure
        after the object is written leaves it behind without a row. */
    method CreateFile(id: FileId, text: Text, path: Path, fault: Fault) returns (ok: bool)
      requires Valid() && id !in backend.files && path !in backend.storage
      modifies this`backend, subs`base
      ensures Valid()
      ensures ok <==> fault !in {WriteFault, HashFault, PersistFault}
      ensures var w := World(old(View()), map[], old(Subs()));
              World(View(), map[], Subs()) == if ok then WorldStep(cfg, w, Create(id, text, old(backend).clock)).0 else w
    {
      hide ViewOf, Consistent, CacheValues, AllStoredValid, StoredValid, AllInformed, ServerStep;
      if fault == WriteFault {
        return false;
      }
      ok := fault != HashFault && fault != PersistFault;
      if ok {
        InsertFile(id, text, path);
        InformSubscribers(id);
      } else {
        LeaveObject(path, Plain(text));
      }
    }

    /** An object under a free path that no row names. */
    method LeaveObject(path: Path, o: Object)
      requires Valid() && path !in backend.storage && ObjectValid(o)
      modifies this`backend
      ensures Valid() && View() == old(View())
    {
      hide ViewOf, Consistent, CacheValues, FileView, AllStoredValid;
      FreshObjectView(backend, CacheValues(), path, o);
      backend := backend.(storage := backend.storage[path := o]);
    }

    method InsertFile(id: FileId, text: Text, path: Path)
      requires Valid() && id !in backend.files && path !in backend.storage
      modifies this`backend
      ensures Valid()
      ensures View() == old(View())[id := Created(text, old(backend).clock)]
    {
      hide ViewOf, Consistent, CacheValues, AllStoredValid;
      CreateView(backend, CacheValues(), id, text, path);
      var d := backend;
      backend := Backend(d.files[id := FileRow(path, 0)], d.operations[id := []], d.snapshots[id := []],
                         d.storage[path := Plain(text)], d.clock);
    }

    /** Bookkeeping: who is subscribed follows the new file from its first version. */
    ghost method InformSubscribers(id: FileId)
      modifies subs`base
      ensures Subs() == AllInformed(old(Subs()), id)
    {
      forall s | s in subs {
        s.base := s.base[id := 0];
      }
    }

    // ---- write-back ----

    /** Writes the content of a dirty file to its object.  Its callers reset the counter. */
    method FlushFileToStorage(file: CachedFile, fault: Fault) returns (ok: bool)
      modifies this`backend
      ensures var write := file.pendingChanges > 0 && fault != WriteFault;
              backend == if write then old(backend).(storage := old(backend).storage[file.diskPath := Plain(file.content)])
                         else old(backend)
      ensures ok <==> file.pendingChanges <= 0 || (fault != WriteFault && fault != HashFault)
    {
      if file.pendingChanges <= 0 {
        return true;
      }
      if fault == WriteFault {
        return false;
      }
      backend := backend.(storage := backend.storage[file.diskPath := Plain(file.content)]);
      return fault != HashFault;
    }

    /** Resetting one cached file's counter is one change of the cached values. */
    method ResetPending(file: CachedFile)
      requires CacheLinked() && IsCached(file)
      modifies file`pendingChanges
      ensures CacheLinked()
      ensures CacheValues() == old(CacheValues())[file.id := old(file.Value()).(pending := 0)]
    {
      file.pendingChanges := 0;
    }

    method FlushAndReset(file: CachedFile, fault: Fault) returns (ok: bool)
      requires Valid() && IsCached(file)
      modifies this`backend, file`pendingChanges
      ensures Valid() && backend.files == old(backend).files
      ensures View() == old(View())[file.id := Flush(old(View())[file.id], fault).0]
      ensures ok == Flush(old(View())[file.id], fault).1
    {
      hide ViewOf, Consistent, CacheValues, FileView, AllStoredValid, Flush;
      ViewAt(backend, CacheValues(), file.id);
      CacheEntry(file.id);
      FlushView(backend, CacheValues(), file.id, fault);
      ok := FlushFileToStorage(file, fault);
      if ok {
        ResetPending(file);
      }
    }

    method WriteFileToStorage(f: FileId, fault: Fault) returns (ok: bool)
      requires Valid() && f in backend.files
      modifies this`backend, fileCache.Values`pendingChanges
      ensures Valid()
      ensures View() == old(View())[f := Flush(old(View())[f], fault).0]
      ensures ok == Flush(old(View())[f], fault).1
      ensures backend.files == old(backend).files
    {
      hide ViewOf, Consistent, CacheValues, FileView, AllStoredValid, Flush;
      if f !in fileCache {
        ViewAt(backend, CacheValues(), f);
        NothingToFlush(backend, CacheValues(), f, fault);
        return true;
      }
      ok := FlushAndReset(fileCache[f], fault);
    }

    lemma {:induction false} CacheEntry(f: FileId)
      requires f in fileCache
      ensures CacheValues()[f] == fileCache[f].Value()
    {
    }

    method FetchFileHandler(f: FileId, fault: Fault) returns (o: Outcome)
      requires Valid()
      modifies this`backend, fileCache.Values`pendingChanges
      ensures Valid()
      ensures (View(), o) == ServerStep(cfg, old(View()), On(f, Fetch(fault)))
    {
      hide ViewOf, Consistent, CacheValues, FileView, AllStoredValid, StoredValid, Flush;
      if f !in backend.files {
        return Ignored;
      }
      ViewAt(backend, CacheValues(), f);
      ViewFields(backend, CacheValues(), f);
      o := AnswerFetch(f, backend.files[f], fault);
    }

    /** The rest of the handler, whatever happened since `row` was read: it writes back what is
        pending and answers with the version of that row and the object as it is now. */
    method AnswerFetch(f: FileId, row: FileRow, fault: Fault) returns (o: Outcome)
      requires Valid() && f in backend.files && row.diskPath == backend.files[f].diskPath
      modifies this`backend, fileCache.Values`pendingChanges
      ensures Valid()
      ensures var (s, ok) := Flush(old(View())[f], fault);
              && View() == old(View())[f := s]
              && o == if ok then Content(row.version, s.disk) else Failed
    {
      hide ViewOf, Consistent, CacheValues, FileView, AllStoredValid, StoredValid, Flush;
      var ok := WriteFileToStorage(f, fault);
      if !ok {
        return Failed;
      }
      ViewAt(backend, CacheValues(), f);
      ViewFields(backend, CacheValues(), f);
      o := Content(row.version, backend.storage[row.diskPath].text);
    }

    method DropEntry(f: FileId)
      requires CacheLinked() && f in fileCache
      modifies this`fileCache
      ensures CacheLinked() && fileCache == old(fileCache) - {f}
      ensures CacheValues() == old(CacheValues()) - {f}
    {
      fileCache := fileCache - {f};
    }

    method AddEntry(f: FileId, file: CachedFile)
      requires CacheLinked() && f !in fileCache && f in backend.files
      requires file.id == f && file.diskPath == backend.files[f].diskPath
      modifies this`fileCache
      ensures CacheLinked() && fileCache == old(fileCache)[f := file]
      ensures CacheValues() == old(CacheValues())[f := file.Value()]
    {
      fileCache := fileCache[f := file];
    }

    /** The cache drops a file of its choice; what is pending is written back. */
    method EvictFile(f: FileId, fault: Fault)
      requires Valid() && f in fileCache
      modifies this`backend, this`fileCache
      ensures Valid()
      ensures View() == old(View())[f := Evicted(old(View())[f], fault)]
    {
      hide ViewOf, Consistent, CacheValues, FileView, AllStoredValid, Evicted;
      ViewAt(backend, CacheValues(), f);
      CacheEntry(f);
      EvictView(backend, CacheValues(), f, fault);
      var file := fileCache[f];
      DropEntry(f);
      var _ := FlushFileToStorage(file, fault);
    }

    method FetchAndCacheFile(f: FileId, fault: Fault) returns (file: CachedFile?)
      requires Valid() && f !in fileCache
      modifies this`fileCache
      ensures Valid()
      ensures file == null <==> f !in backend.files || fault == LoadFault
      ensures file == null ==> fileCache == old(fileCache) && View() == old(View())
      ensures file != null ==>
                && fresh(file) && fileCache == old(fileCache)[f := file] && IsCached(file) && file.id == f
                && View() == old(View())[f := Loaded(old(View())[f])]
    {
      hide ViewOf, Consistent, CacheValues, FileView, AllStoredValid, Loaded;
      if f !in backend.files || fault == LoadFault {
        return null;
      }
      ViewAt(backend, CacheValues(), f);
      LoadView(backend, CacheValues(), f);
      var row := backend.files[f];
      file := new CachedFile(f, row.diskPath, backend.storage[row.diskPath].text, row.version);
      AddEntry(f, file);
    }

    // ---- snapshots ----

    /** `None` stands for a failed query. */
    method ShouldCreateFullSnapshot(file: CachedFile, fault: Fault) returns (needsFull: Option<bool>)
      requires Valid() && IsCached(file)
      ensures needsFull == if fault == QueryFault then None else Some(NeedsFull(cfg, View()[file.id].snaps, file.version))
    {
      hide ViewOf, Consistent, CacheValues, AllStoredValid, SnapsView;
      ghost var snaps := SnapsView(backend, file.id);
      ViewAt(backend, CacheValues(), file.id);
      SnapshotRows(backend, file.id);
      if fault == QueryFault {
        return None;
      }
      var rows := backend.snapshots[file.id];
      if |rows| == 0 || file.version % cfg.checkpoint == 0 {
        return Some(true);
      }
      var consecutiveDiffs := 0;
      for i := 0 to |rows|
        invariant LeadingDeltas(snaps) == consecutiveDiffs + LeadingDeltas(snaps[i..])
      {
        assert snaps[i].Full? == rows[i].isFull && snaps[i..][1..] == snaps[i + 1..];
        if rows[i].isFull {
          break;
        }
        consecutiveDiffs := consecutiveDiffs + 1;
      }
      return Some(consecutiveDiffs >= cfg.maxChain);
    }

    /** The rows are walked from the newest to the base; the deltas met on the way are then
        applied in the opposite order.  `None` stands for an error. */
    method ReconstructSnapshot(f: FileId, version: int, fault: Fault) returns (content: Option<Text>)
      requires Valid() && f in backend.files
      ensures content == if fault in {QueryFault, LoadFault} then None else Reconstruct(View()[f].snaps, version)
    {
      hide ViewOf, Consistent, CacheValues, AllStoredValid, SnapsView, ApplyAll;
      ghost var snaps := SnapsView(backend, f);
      ViewAt(backend, CacheValues(), f);
      SnapshotRows(backend, f);
      if fault == QueryFault {
        return None;
      }
      var rows, storage := backend.snapshots[f], backend.storage;
      var fullSnapshot: Option<SnapRow> := None;
      var diffSnapshots: seq<SnapRow> := [];
      ghost var deltas: seq<seq<Edit>> := [];
      for i := 0 to |rows|
        invariant fullSnapshot.None?
        invariant DeltaObjects(storage, diffSnapshots, deltas)
        invariant Reconstruct(snaps, version) == Unwind(deltas, Reconstruct(snaps[i..], version))
      {
        var snapshot := rows[i];
        assert snaps[i..][1..] == snaps[i + 1..];
        if snapshot.version > version {
          continue;
        }
        if snapshot.isFull {
          fullSnapshot := Some(snapshot);
          break;
        }
        ghost var d := storage[snapshot.diskPath].chunks;
        UnwindLast(deltas, Reconstruct(snaps[i + 1..], version), d);
        diffSnapshots, deltas := diffSnapshots + [snapshot], deltas + [d];
      }
      if fullSnapshot.None? || fault == LoadFault {
        return None;
      }
      var text := storage[fullSnapshot.value.diskPath].text;
      assert deltas[..|diffSnapshots|] == deltas;
      for i := |diffSnapshots| downto 0
        invariant DeltaObjects(storage, diffSnapshots, deltas)
        invariant Reconstruct(snaps, version) == Unwind(deltas[..i], Some(text))
      {
        assert deltas[..i + 1] == deltas[..i] + [deltas[i]];
        UnwindLast(deltas[..i], Some(text), deltas[i]);
        text := ApplyMultiple(text, storage[diffSnapshots[i].diskPath].chunks);
      }
      return Some(text);
    }

    /** The text the next delta will be relative to: that of the newest row. */
    method ResolveSnapshotBaseContent(f: FileId, fault: Fault) returns (base: Option<Text>)
      requires Valid() && f in backend.files && View()[f].snaps != [] && fault != QueryFault
      ensures base == if fault == LoadFault then None else SnapshotBase(View()[f].snaps)
    {
      hide ViewOf, Consistent, CacheValues, AllStoredValid, SnapsView, Reconstruct;
      ViewAt(backend, CacheValues(), f);
      SnapshotRows(backend, f);
      var latest := backend.snapshots[f][0];
      if latest.isFull && fault == LoadFault {
        return None;
      }
      if latest.isFull {
        return Some(backend.storage[latest.diskPath].text);
      }
      base := ReconstructSnapshot(f, latest.version, fault);
    }

    /** The object is created first; a failure after that leaves it behind without a row. */
    method StoreSnapshot(f: FileId, version: int, o: Object, path: Path, fault: Fault)
      requires Valid() && f in backend.files && ObjectValid(o) && path !in backend.storage && fault != QueryFault
      modifies this`backend
      ensures Valid() && backend.files == old(backend).files
      ensures var s := old(View())[f];
              var snap := SnapshotOf(version, s.clock, o);
              View() == old(View())[f := if fault in {WriteFault, HashFault, PersistFault} then s else WithSnapshot(s, snap)]
    {
      hide ViewOf, Consistent, CacheValues, FileView, AllStoredValid, InsertSnapshot, InsertRow, HasSnapshot;
      ghost var d, c := backend, CacheValues();
      ViewAt(d, c, f);
      ViewFields(d, c, f);
      TablesKeyed(d, f);
      HasRowResolves(d, f, version);
      NewSnapshotView(d, c, f, version, path, o);
      if fault == WriteFault {
        return;
      }
      var rows := backend.snapshots[f];
      backend := backend.(storage := backend.storage[path := o]);
      if fault == HashFault || fault == PersistFault || HasRow(rows, version) {
        return;
      }
      backend := backend.(snapshots := backend.snapshots[f := InsertRow(rows, SnapRow(version, backend.clock, o.Plain?, path))]);
    }

    method CreateFullSnapshot(file: CachedFile, path: Path, fault: Fault)
      requires Valid() && IsCached(file) && path !in backend.storage && fault != QueryFault
      modifies this`backend
      ensures Valid() && backend.files == old(backend).files
      ensures var s := old(View())[file.id];
              var snap := Full(file.version, s.clock, file.content);
              View() == old(View())[file.id := if fault in {WriteFault, HashFault, PersistFault} then s else WithSnapshot(s, snap)]
    {
      hide ViewOf, Consistent, CacheValues, AllStoredValid, WithSnapshot;
      StoreSnapshot(file.id, file.version, Plain(file.content), path, fault);
    }

    /** The delta from the newest snapshot to the content; `None` stands for an error. */
    method DiffAgainstLatest(file: CachedFile, fault: Fault) returns (chunks: Option<seq<Edit>>)
      requires Valid() && IsCached(file) && fault != QueryFault && View()[file.id].snaps != []
      ensures chunks == match if fault == LoadFault then None else SnapshotBase(View()[file.id].snaps)
                        case None => None
                        case Some(base) => Some(ScriptChunks(cfg.differ(base, file.content), 0))
      ensures chunks.Some? ==> ValidAll(chunks.value)
    {
      hide ViewOf, Consistent, CacheValues, AllStoredValid, ScriptChunks, SnapshotBase, OldText, NewText, ApplyAll, StoredValid;
      var base := ResolveSnapshotBaseContent(file.id, fault);
      if base.None? {
        return None;
      }
      var script := cfg.differ(base.value, file.content);
      RoundTrip(script, OldText(script), NewText(script));
      var d := Compute(script);
      return Some(d);
    }

    method CreateDiffSnapshot(file: CachedFile, path: Path, fault: Fault)
      requires Valid() && IsCached(file) && path !in backend.storage && fault != QueryFault
      requires View()[file.id].snaps != []
      modifies this`backend
      ensures Valid() && backend.files == old(backend).files
      ensures var s := old(View())[file.id];
              View() == old(View())[file.id :=
                match SnapshotBase(s.snaps)
                case None => s
                case Some(base) =>
                  var snap := Delta(file.version, s.clock, ScriptChunks(cfg.differ(base, file.content), 0));
                  if fault == NoFault then WithSnapshot(s, snap) else s]
    {
      hide ViewOf, Consistent, CacheValues, AllStoredValid, WithSnapshot, ScriptChunks, SnapshotBase, GoodConfig, StoredValid, ValidAll;
      var chunks := DiffAgainstLatest(file, fault);
      if chunks.Some? {
        StoreSnapshot(file.id, file.version, Script(chunks.value), path, fault);
      }
    }

    method CreateFileSnapshot(file: CachedFile, path: Path, fault: Fault)
      requires Valid() && IsCached(file) && path !in backend.storage
      modifies this`backend
      ensures Valid() && backend.files == old(backend).files
      ensures View() == old(View())[file.id := TakeSnapshot(cfg, old(View())[file.id], fault)]
    {
      hide ViewOf, Consistent, CacheValues, FileView, AllStoredValid, StoredValid, WithSnapshot, NeedsFull, TakeSnapshot,
        ScriptChunks, SnapshotBase;
      ViewAt(backend, CacheValues(), file.id);
      ViewFields(backend, CacheValues(), file.id);
      FileViewValid(backend, CacheValues(), file.id);
      CacheEntry(file.id);
      SnapshotTaken(cfg, View()[file.id], fault);
      var needsFull := ShouldCreateFullSnapshot(file, fault);
      if needsFull.None? {
        return;
      }
      if needsFull.value {
        CreateFullSnapshot(file, path, fault);
      } else {
        CreateDiffSnapshot(file, path, fault);
      }
    }

    // ---- incoming messages ----

    /** `None` stands for a failed query. */
    method TransformStaleChunks(file: CachedFile, v: int, chunks: seq<Edit>, fault: Fault) returns (r: Option<Stale>)
      requires file.id in backend.operations
      ensures r == if v < file.version && fault == QueryFault then None
                   else Some(TransformStale(backend.operations[file.id], file.version, v, chunks))
    {
      if v >= file.version {
        return Some(Ready(chunks));
      }
      if fault == QueryFault {
        return None;
      }
      var rows := NewerThan(backend.operations[file.id], v);
      var transformed, currVersion := chunks, v;
      for i := 0 to |rows|
        invariant Walk(rows[i..], currVersion, transformed) == Walk(rows, v, chunks)
      {
        assert rows[i..][1..] == rows[i + 1..];
        if currVersion + 1 != rows[i].version {
          return Some(MissingOperation(currVersion + 1));
        }
        transformed := TransformMultiple(rows[i].chunks, transformed);
        currVersion := rows[i].version;
      }
      return Some(Ready(transformed));
    }

    /** One transaction: the primary key refuses a version that is already there, and
        either both tables change or none. */
    method PersistChunkOperation(f: FileId, newVersion: int, chunks: seq<Edit>, fault: Fault) returns (ok: bool)
      requires CacheLinked() && f in backend.files && f in backend.operations
      modifies this`backend
      ensures CacheLinked()
      ensures ok <==> fault != PersistFault && !HasOp(old(backend).operations[f], newVersion)
      ensures backend == if ok then Persisted(old(backend), f, newVersion, chunks) else old(backend)
    {
      var tx := backend;
      var rows := tx.operations[f];
      if exists i | 0 <= i < |rows| :: rows[i].version == newVersion {
        return false;
      }
      tx := tx.(operations := tx.operations[f := InsertOp(rows, OpRow(newVersion, chunks, tx.clock))]);
      tx := tx.(files := tx.files[f := tx.files[f].(version := newVersion)]);
      if fault == PersistFault {
        return false;
      }
      backend := tx;
      return true;
    }

    method UpdateContent(file: CachedFile, content: Text, version: int)
      requires CacheLinked() && IsCached(file)
      modifies file
      ensures CacheLinked() && file.version == version
      ensures CacheValues() == old(CacheValues())[file.id := Cached(content, version, old(file.pendingChanges) + 1)]
    {
      file.content := content;
      file.version := version;
      file.pendingChanges := file.pendingChanges + 1;
    }

    /** The operation is stored first; only then does the copy in memory follow. */
    method StoreAndApply(file: CachedFile, chunks: seq<Edit>, fault: Fault) returns (ok: bool)
      requires Valid() && IsCached(file) && ValidAll(chunks)
      modifies this`backend, file
      ensures Valid()
      ensures ok <==> fault != PersistFault && !HasOp(old(View())[file.id].ops, old(file.version) + 1)
      ensures View() == if ok then old(View())[file.id := Commit(old(View())[file.id], chunks)] else old(View())
      ensures if ok then file.version == old(file.version) + 1 else file.Value() == old(file.Value())
    {
      hide ViewOf, Consistent, CacheValues, FileView, AllStoredValid, StoredValid, Commit, Persisted, HasOp, ApplyAll, GoodConfig;
      ghost var f, d, c := file.id, backend, CacheValues();
      ViewAt(d, c, f);
      ViewFields(d, c, f);
      CacheEntry(f);
      TablesKeyed(d, f);
      CommitView(d, c, f, chunks);
      var newContent := ApplyMultiple(file.content, chunks);
      var newVersion := file.version + 1;
      ok := PersistChunkOperation(file.id, newVersion, chunks, fault);
      if ok {
        UpdateContent(file, newContent, newVersion);
      }
    }

    /** What the view of a cached file says about it. */
    lemma {:induction false} Held(file: CachedFile)
      requires Valid() && IsCached(file)
      ensures file.id in View() && file.id in backend.operations
      ensures var s := View()[file.id];
              && StoredValid(s) && s.cached == Some(file.Value()) && s.ops == backend.operations[file.id]
              && View()[file.id := s] == View()
    {
      hide ViewOf, Consistent, CacheValues, FileView, StoredValid, GoodConfig;
      ViewAt(backend, CacheValues(), file.id);
      ViewFields(backend, CacheValues(), file.id);
      FileViewValid(backend, CacheValues(), file.id);
      CacheEntry(file.id);
      TablesKeyed(backend, file.id);
    }

    /** A valid message for a file in memory, up to and without the broadcast. */
    method CommitChunks(file: CachedFile, v: int, chunks: seq<Edit>, fault: Fault) returns (o: Outcome)
      requires Valid() && IsCached(file) && chunks != [] && ValidAll(chunks)
      modifies this`backend, file
      ensures Valid()
      ensures (View()[file.id], o) == OnChunks(old(View())[file.id], v, chunks, fault)
      ensures View() == old(View())[file.id := View()[file.id]]
    {
      hide ViewOf, Consistent, CacheValues, FileView, AllStoredValid, StoredValid, OnChunks, Commit, TransformStale, HasOp, ValidAll, GoodConfig;
      Held(file);
      OnCachedFile(View()[file.id], v, chunks, fault);
      var stale := TransformStaleChunks(file, v, chunks, fault);
      if stale.None? {
        return Failed;
      }
      if stale.value.MissingOperation? {
        return Rejected;
      }
      var ok := StoreAndApply(file, stale.value.chunks, fault);
      return if ok then Committed(file.version, stale.value.chunks) else Failed;
    }

    /** The cached file, loaded first if it is not in memory. */
    method GetFile(f: FileId, fault: Fault) returns (file: CachedFile?)
      requires Valid()
      modifies this`fileCache
      ensures Valid()
      ensures file == null <==> f !in old(fileCache) && (f !in backend.files || fault == LoadFault)
      ensures file == null ==> View() == old(View())
      ensures file != null ==>
                && (file in old(fileCache.Values) || fresh(file)) && IsCached(file) && file.id == f && f in backend.files
                && View() == old(View())[f := Loaded(old(View())[f])]
    {
      hide ViewOf, Consistent, CacheValues, FileView, AllStoredValid;
      if f in fileCache {
        return fileCache[f];
      }
      file := FetchAndCacheFile(f, fault);
    }

    /** An incoming chunk message, without the broadcast that follows a commit. */
    method ReceiveChunks(f: FileId, v: int, chunks: seq<Edit>, fault: Fault) returns (o: Outcome)
      requires Valid()
      modifies this`backend, this`fileCache, fileCache.Values
      ensures Valid()
      ensures (View(), o) == ServerStep(cfg, old(View()), On(f, Receive(v, chunks, fault)))
    {
      hide ViewOf, Consistent, CacheValues, FileView, AllStoredValid, StoredValid, OnChunks, Loaded, ValidAll, ServerStep;
      ServerReceive(cfg, View(), f, v, chunks, fault);
      if |chunks| == 0 {
        return Ignored;
      }
      var verdict := ValidateChunks(chunks);
      if !verdict.Accepted? {
        return Ignored;
      }
      var file := GetFile(f, fault);
      if file == null {
        return if f in backend.files then Failed else Ignored;
      }
      o := CommitChunks(file, v, chunks, fault);
    }

    /** Every subscriber is visited once, in no particular order. */
    method BroadcastMessage(m: Message)
      modifies this`subs, subs
      ensures subs <= old(subs)
      ensures Subs() == Publish(old(Subs()), m)
    {
      hide Enqueue, Publish;
      ghost var was := Subs();
      var todo := subs;
      while todo != {}
        invariant todo <= subs <= old(subs)
        invariant forall s | s in was.Keys :: s in subs <==> s in todo || was[s].connected
        invariant forall s | s in subs :: s.State() == if s in todo then was[s] else Enqueue(was[s], m)
        decreases |todo|
      {
        var s :| s in todo;
        todo := todo - {s};
        if s.isConnected {
          s.Offer(m);
        } else {
          subs := subs - {s};
        }
      }
      AllPublished(was, m);
    }

    lemma {:induction false} AllPublished(was: map<Subscriber, Sub>, m: Message)
      requires forall s | s in was :: s in subs <==> was[s].connected
      requires subs <= was.Keys && forall s | s in subs :: s.State() == Enqueue(was[s], m)
      ensures Subs() == Publish(was, m)
    {
      hide Enqueue;
    }

    /** The file stays locked until its operation is announced. */
    method OnChunkMessage(f: FileId, v: int, chunks: seq<Edit>, fault: Fault) returns (o: Outcome)
      requires Valid()
      modifies this`backend, this`fileCache, fileCache.Values, this`subs, subs
      ensures Valid()
      ensures var (w, answer) := WorldStep(cfg, World(old(View()), map[], old(Subs())), Serve(On(f, Receive(v, chunks, fault))));
              && o == answer && w.files == View()
              && World(View(), map[], Subs()) == WorldStep(cfg, w, Announce(f)).0
    {
      hide ViewOf, Consistent, CacheValues, FileView, AllStoredValid, StoredValid, ServerStep, Publish, WorldStep;
      ghost var files, queues := View(), Subs();
      o := ReceiveChunks(f, v, chunks, fault);
      MessageAndAnnouncement(cfg, files, queues, f, Receive(v, chunks, fault));
      if o.Committed? {
        BroadcastMessage(Message(f, o.version, o.chunks));
      }
    }

    method AddSubscriber(sub: Subscriber)
      requires Valid() && sub !in subs && sub.State() == Joined(View(), map[])
      modifies this`subs
      ensures Valid()
      ensures World(View(), map[], Subs()) == WorldStep(cfg, World(old(View()), map[], old(Subs())), Subscribe(sub)).0
    {
      hide ViewOf, Consistent, CacheValues, FileView, AllStoredValid, StoredValid, ServerStep, Joined;
      subs := subs + {sub};
    }

    method DeleteSubscriber(sub: Subscriber)
      requires Valid()
      modifies this`subs
      ensures Valid()
      ensures World(View(), map[], Subs()) == WorldStep(cfg, World(old(View()), map[], old(Subs())), Unsubscribe(sub)).0
    {
      hide ViewOf, Consistent, CacheValues, FileView, AllStoredValid, StoredValid, ServerStep;
      subs := subs - {sub};
    }

    // ---- routines that run by themselves ----

    /** One visit: a file with enough or with old enough changes gets a snapshot and is
        written back, whether or not the snapshot succeeded. */
    method ProcessFile(f: FileId, idle: bool, path: Path, snapFault: Fault, flushFault: Fault)
      requires Valid() && path !in backend.storage
      modifies this`backend, fileCache.Values`pendingChanges
      ensures Valid()
      ensures View() == ServerStep(cfg, old(View()), On(f, Process(idle, snapFault, flushFault))).0
    {
      hide ViewOf, Consistent, CacheValues, FileView, AllStoredValid, ServerStep, Flush, TakeSnapshot;
      ServerProcess(cfg, View(), f, idle, snapFault, flushFault);
      if f !in fileCache {
        return;
      }
      var file := fileCache[f];
      ViewAt(backend, CacheValues(), f);
      ViewFields(backend, CacheValues(), f);
      CacheEntry(f);
      if file.pendingChanges <= 0 {
        return;
      }
      if file.pendingChanges > cfg.threshold || idle {
        CreateFileSnapshot(file, path, snapFault);
        var ok := FlushAndReset(file, flushFault);
      }
    }

    /** Operations older than the cutoff go, for every file or, if the statement fails, for none. */
    method PurgeCache(cutoff: nat, fault: Fault) returns (ok: bool)
      requires Valid()
      modifies this`backend
      ensures Valid() && (ok <==> fault != QueryFault)
      ensures if ok then (View(), Silent) == ServerStep(cfg, old(View()), PurgeAll(cutoff)) else View() == old(View())
    {
      if fault == QueryFault {
        return false;
      }
      ok := true;
      DeleteOperationsOlderThan(cutoff);
    }

    method DeleteOperationsOlderThan(cutoff: nat)
      requires Valid()
      modifies this`backend
      ensures Valid()
      ensures (View(), Silent) == ServerStep(cfg, old(View()), PurgeAll(cutoff))
    {
      hide ViewOf, Consistent, CacheValues, FileView, Everywhere;
      ViewValid(backend, CacheValues());
      PurgeView(cfg, backend, CacheValues(), cutoff);
      backend := backend.(operations := Purged(backend.operations, cutoff));
    }

    method PassTime(delta: nat)
      requires Valid()
      modifies this`backend
      ensures Valid()
      ensures (View(), Silent) == ServerStep(cfg, old(View()), TickAll(delta))
    {
      hide ViewOf, Consistent, CacheValues, FileView, Everywhere;
      ViewValid(backend, CacheValues());
      TickView(cfg, backend, CacheValues(), delta);
      backend := backend.(clock := backend.clock + delta);
    }
  }
}
