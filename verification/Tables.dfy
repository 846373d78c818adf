/** The database tables and the object store as they are laid out: rows name their objects
    by path.  `ViewOf` resolves the paths and gives every file on its own; the lemmas say
    that an update made for one file does not show in another. */
module Tables {
  import opened Chunks
  import opened EditScripts
  import opened Files
  import opened ServerModel

  type Path = nat

  datatype FileRow = FileRow(diskPath: Path, version: int)

  datatype SnapRow = SnapRow(version: int, createdAt: nat, isFull: bool, diskPath: Path)

  /** What a stored object holds: a text, or the chunks of a delta. */
  datatype Object = Plain(text: Text) | Script(chunks: seq<Edit>)

  datatype Backend = Backend(
    files: map<FileId, FileRow>, operations: map<FileId, seq<OpRow>>, snapshots: map<FileId, seq<SnapRow>>,
    storage: map<Path, Object>, clock: nat)

  predicate HasText(storage: map<Path, Object>, p: Path) {
    p in storage && storage[p].Plain?
  }

  predicate RowStored(storage: map<Path, Object>, row: SnapRow) {
    row.diskPath in storage && storage[row.diskPath].Plain? == row.isFull
  }

  predicate RowsValid(rows: seq<OpRow>) {
    forall i | 0 <= i < |rows| :: ValidAll(rows[i].chunks)
  }

  predicate ObjectValid(o: Object) {
    o.Script? ==> ValidAll(o.chunks)
  }

  /** Every file has its row of each table and an object of its own. */
  ghost predicate FilesStored(d: Backend) {
    && d.operations.Keys == d.files.Keys
    && d.snapshots.Keys == d.files.Keys
    && (forall f | f in d.files :: HasText(d.storage, d.files[f].diskPath))
    && (forall f, g | f in d.files && g in d.files && f != g :: d.files[f].diskPath != d.files[g].diskPath)
  }

  ghost predicate OwnedByFile(d: Backend, p: Path) {
    exists f | f in d.files :: d.files[f].diskPath == p
  }

  /** Every snapshot row names an object of its kind that no file owns. */
  ghost predicate RowsStored(d: Backend, rows: seq<SnapRow>) {
    forall i | 0 <= i < |rows| :: RowStored(d.storage, rows[i]) && !OwnedByFile(d, rows[i].diskPath)
  }

  ghost predicate SnapshotsStored(d: Backend) {
    forall f | f in d.snapshots :: RowsStored(d, d.snapshots[f])
  }

  ghost predicate ChunksValid(d: Backend) {
    && (forall f | f in d.operations :: RowsValid(d.operations[f]))
    && (forall p | p in d.storage :: ObjectValid(d.storage[p]))
  }

  ghost predicate Consistent(d: Backend) {
    FilesStored(d) && SnapshotsStored(d) && ChunksValid(d)
  }

  function ResolveRow(storage: map<Path, Object>, row: SnapRow): Snapshot
    requires RowStored(storage, row)
  {
    if row.isFull then Full(row.version, row.createdAt, storage[row.diskPath].text)
    else Delta(row.version, row.createdAt, storage[row.diskPath].chunks)
  }

  function Resolve(storage: map<Path, Object>, rows: seq<SnapRow>): seq<Snapshot>
    requires forall i | 0 <= i < |rows| :: RowStored(storage, rows[i])
  {
    seq(|rows|, i requires 0 <= i < |rows| => ResolveRow(storage, rows[i]))
  }

  ghost function SnapsView(d: Backend, f: FileId): seq<Snapshot>
    requires Consistent(d) && f in d.files
  {
    assert RowsStored(d, d.snapshots[f]);
    Resolve(d.storage, d.snapshots[f])
  }

  /** One file on its own, with its paths resolved. */
  ghost function FileView(d: Backend, cache: map<FileId, Cached>, f: FileId): FileState
    requires Consistent(d) && f in d.files
  {
    FileState(d.files[f].version, d.storage[d.files[f].diskPath].text, d.operations[f],
              SnapsView(d, f), if f in cache then Some(cache[f]) else None, d.clock)
  }

  ghost function ViewOf(d: Backend, cache: map<FileId, Cached>): map<FileId, FileState>
    requires Consistent(d)
  {
    map f | f in d.files :: FileView(d, cache, f)
  }

  lemma {:induction false} FileViewValid(d: Backend, cache: map<FileId, Cached>, f: FileId)
    requires Consistent(d) && f in d.files
    ensures StoredValid(FileView(d, cache, f))
  {
    assert RowsStored(d, d.snapshots[f]);
    assert RowsValid(d.operations[f]);
  }

  lemma {:induction false} ViewValid(d: Backend, cache: map<FileId, Cached>)
    requires Consistent(d)
    ensures AllStoredValid(ViewOf(d, cache))
  {
    forall f | f in d.files { FileViewValid(d, cache, f); }
  }

  /** An update that leaves every other file's view alone is an update of one view. */
  lemma {:induction false} OneFile(d: Backend, c: map<FileId, Cached>, d': Backend, c': map<FileId, Cached>, f: FileId)
    requires Consistent(d) && Consistent(d') && d'.files.Keys == d.files.Keys + {f}
    requires forall g | g in d.files && g != f :: FileView(d', c', g) == FileView(d, c, g)
    ensures ViewOf(d', c') == ViewOf(d, c)[f := FileView(d', c', f)]
  {
    hide Consistent, FileView;
  }

  lemma {:induction false} ViewAt(d: Backend, c: map<FileId, Cached>, f: FileId)
    requires Consistent(d) && f in d.files
    ensures ViewOf(d, c).Keys == d.files.Keys && ViewOf(d, c)[f] == FileView(d, c, f)
    ensures ViewOf(d, c)[f := FileView(d, c, f)] == ViewOf(d, c)
  {
  }

  // ---- updates of the object store ----

  lemma {:induction false} ResolveFrame(storage: map<Path, Object>, storage': map<Path, Object>, rows: seq<SnapRow>)
    requires forall i | 0 <= i < |rows| ::
               RowStored(storage, rows[i]) && RowStored(storage', rows[i])
               && storage'[rows[i].diskPath] == storage[rows[i].diskPath]
    ensures Resolve(storage', rows) == Resolve(storage, rows)
  {
  }

  /** Storing `o` at `p` keeps the layout consistent and every snapshot as it was, if `p`
      was free, or belongs to a file and `o` is a text. */
  lemma {:induction false} StoreObject(d: Backend, p: Path, o: Object)
    requires Consistent(d) && ObjectValid(o)
    requires p !in d.storage || (OwnedByFile(d, p) && o.Plain?)
    ensures var d' := d.(storage := d.storage[p := o]);
            && Consistent(d')
            && forall f | f in d.files :: SnapsView(d', f) == SnapsView(d, f)
  {
    var d' := d.(storage := d.storage[p := o]);
    forall f | f in d.snapshots
      ensures RowsStored(d', d.snapshots[f])
      ensures forall i | 0 <= i < |d.snapshots[f]| :: RowStored(d.storage, d.snapshots[f][i]) && d.snapshots[f][i].diskPath != p
    {
      assert RowsStored(d, d.snapshots[f]);
      forall i | 0 <= i < |d.snapshots[f]| ensures !OwnedByFile(d', d.snapshots[f][i].diskPath) && d.snapshots[f][i].diskPath != p {
        assert !OwnedByFile(d, d.snapshots[f][i].diskPath);
      }
    }
    assert Consistent(d');
    forall f | f in d.files ensures SnapsView(d', f) == SnapsView(d, f) {
      ResolveFrame(d.storage, d'.storage, d.snapshots[f]);
    }
  }

  lemma {:induction false} CreateView(d: Backend, c: map<FileId, Cached>, id: FileId, text: Text, p: Path)
    requires Consistent(d) && id !in d.files && id !in c && p !in d.storage
    ensures var d' := Backend(d.files[id := FileRow(p, 0)], d.operations[id := []], d.snapshots[id := []],
                         d.storage[p := Plain(text)], d.clock);
            && Consistent(d')
            && ViewOf(d', c) == ViewOf(d, c)[id := FileState(0, text, [], [], None, d.clock)]
  {
    var e := d.(storage := d.storage[p := Plain(text)]);
    StoreObject(d, p, Plain(text));
    var d' := Backend(d.files[id := FileRow(p, 0)], d.operations[id := []], d.snapshots[id := []], e.storage, d.clock);
    NewFileConsistent(d, e, d', id, p);
    forall g | g in d.files ensures FileView(d', c, g) == FileView(d, c, g) {
      assert SnapsView(d', g) == SnapsView(e, g);
    }
    assert SnapsView(d', id) == [];
    OneFile(d, c, d', c, id);
  }

  lemma {:induction false} NewFileConsistent(d: Backend, e: Backend, d': Backend, id: FileId, p: Path)
    requires Consistent(d) && Consistent(e) && id !in d.files && p !in d.storage && HasText(e.storage, p)
    requires e == d.(storage := e.storage)
    requires d' == Backend(d.files[id := FileRow(p, 0)], d.operations[id := []], d.snapshots[id := []], e.storage, d.clock)
    ensures Consistent(d')
  {
    hide ObjectValid;
    assert FilesStored(d') by {
      forall f | f in d.files ensures d.files[f].diskPath != p { assert HasText(d.storage, d.files[f].diskPath); }
    }
    forall f | f in d'.snapshots ensures RowsStored(d', d'.snapshots[f]) {
      if f != id {
        assert RowsStored(d, d.snapshots[f]) && RowsStored(e, d.snapshots[f]);
      }
    }
  }

  lemma {:induction false} WriteView(d: Backend, c: map<FileId, Cached>, f: FileId, text: Text)
    requires Consistent(d) && f in d.files
    ensures var d' := d.(storage := d.storage[d.files[f].diskPath := Plain(text)]);
            && Consistent(d')
            && FileView(d', c, f) == FileView(d, c, f).(disk := text)
            && ViewOf(d', c) == ViewOf(d, c)[f := FileView(d, c, f).(disk := text)]
  {
    var d' := d.(storage := d.storage[d.files[f].diskPath := Plain(text)]);
    StoreObject(d, d.files[f].diskPath, Plain(text));
    OneFile(d, c, d', c, f);
  }

  lemma {:induction false} FreshObjectView(d: Backend, c: map<FileId, Cached>, p: Path, o: Object)
    requires Consistent(d) && p !in d.storage && ObjectValid(o)
    ensures var d' := d.(storage := d.storage[p := o]);
            && Consistent(d')
            && ViewOf(d', c) == ViewOf(d, c)
            && forall f | f in d.files :: FileView(d', c, f) == FileView(d, c, f)
  {
    StoreObject(d, p, o);
    var d' := d.(storage := d.storage[p := o]);
    forall f | f in d.files ensures FileView(d', c, f) == FileView(d, c, f) {
      assert HasText(d.storage, d.files[f].diskPath);
    }
    hide Consistent, FileView;
  }

  /** The cache entry of `f` is replaced or removed. */
  lemma {:induction false} CacheView(d: Backend, c: map<FileId, Cached>, c': map<FileId, Cached>, f: FileId)
    requires Consistent(d) && f in d.files && c - {f} == c' - {f}
    ensures ViewOf(d, c') == ViewOf(d, c)[f := FileView(d, c, f).(cached := if f in c' then Some(c'[f]) else None)]
  {
    forall g | g in d.files && g != f ensures FileView(d, c', g) == FileView(d, c, g) {
      assert g in c <==> g in c - {f};
      assert g in c' <==> g in c' - {f};
      assert g in c ==> c[g] == (c - {f})[g] == (c' - {f})[g];
    }
    OneFile(d, c, d, c', f);
  }

  lemma {:induction false} ViewFields(d: Backend, c: map<FileId, Cached>, f: FileId)
    requires Consistent(d) && f in d.files
    ensures var s := FileView(d, c, f);
            && s.version == d.files[f].version
            && HasText(d.storage, d.files[f].diskPath) && s.disk == d.storage[d.files[f].diskPath].text
            && s.ops == d.operations[f]
            && s.snaps == SnapsView(d, f)
            && s.clock == d.clock
            && s.cached == if f in c then Some(c[f]) else None
  {
  }

  lemma {:induction false} TablesKeyed(d: Backend, f: FileId)
    requires Consistent(d) && f in d.files
    ensures f in d.operations && f in d.snapshots && RowsValid(d.operations[f])
  {
  }

  lemma {:induction false} LoadView(d: Backend, c: map<FileId, Cached>, f: FileId)
    requires Consistent(d) && f in d.files && f !in c
    ensures HasText(d.storage, d.files[f].diskPath)
    ensures var row := d.files[f];
            ViewOf(d, c[f := Cached(d.storage[row.diskPath].text, row.version, 0)])
            == ViewOf(d, c)[f := Loaded(FileView(d, c, f))]
  {
    var c' := c[f := Cached(d.storage[d.files[f].diskPath].text, d.files[f].version, 0)];
    assert c' - {f} == c - {f};
    CacheView(d, c, c', f);
  }

  /** What evicting a file leaves: the flushed store and no cache entry. */
  lemma {:induction false} EvictView(d: Backend, c: map<FileId, Cached>, f: FileId, fault: Fault)
    requires Consistent(d) && f in d.files && f in c
    ensures var write := c[f].pending > 0 && fault != WriteFault;
            var d' := if write then d.(storage := d.storage[d.files[f].diskPath := Plain(c[f].content)]) else d;
            && Consistent(d')
            && ViewOf(d', c - {f}) == ViewOf(d, c)[f := Evicted(FileView(d, c, f), fault)]
  {
    hide Consistent, SnapsView;
    ViewFields(d, c, f);
    var d' := d;
    if c[f].pending > 0 && fault != WriteFault {
      WriteView(d, c, f, c[f].content);
      d' := d.(storage := d.storage[d.files[f].diskPath := Plain(c[f].content)]);
    } else {
      ViewAt(d, c, f);
    }
    assert (c - {f}) - {f} == c - {f};
    CacheView(d', c, c - {f}, f);
  }

  /** The tables after the transaction of a commit. */
  function Persisted(d: Backend, f: FileId, version: int, chunks: seq<Edit>): Backend
    requires f in d.files && f in d.operations
  {
    d.(files := d.files[f := d.files[f].(version := version)],
       operations := d.operations[f := InsertOp(d.operations[f], OpRow(version, chunks, d.clock))])
  }

  lemma {:induction false} InsertOpValid(rows: seq<OpRow>, row: OpRow)
    requires RowsValid(rows) && ValidAll(row.chunks)
    ensures RowsValid(InsertOp(rows, row))
  {
    if !(rows == [] || row.version < rows[0].version) {
      assert forall i | 0 <= i < |rows[1..]| :: rows[1..][i] == rows[i + 1];
      InsertOpValid(rows[1..], row);
    }
  }

  /** What a commit leaves in the tables and in the cache. */
  lemma {:induction false} CommitView(d: Backend, c: map<FileId, Cached>, f: FileId, chunks: seq<Edit>)
    requires Consistent(d) && f in d.files && f in d.operations && f in c && ValidAll(chunks)
    ensures var v := c[f].version + 1;
            var d' := Persisted(d, f, v, chunks);
            var c' := c[f := Cached(ApplyAll(c[f].content, chunks), v, c[f].pending + 1)];
            && FileView(d, c, f).cached == Some(c[f])
            && Consistent(d')
            && ViewOf(d', c') == ViewOf(d, c)[f := Commit(FileView(d, c, f), chunks)]
  {
    hide Consistent, ApplyAll, InsertOp, SnapsView, RowsValid;
    TablesKeyed(d, f);
    ViewFields(d, c, f);
    var v := c[f].version + 1;
    var d' := Persisted(d, f, v, chunks);
    var c' := c[f := Cached(ApplyAll(c[f].content, chunks), v, c[f].pending + 1)];
    InsertOpValid(d.operations[f], OpRow(v, chunks, d.clock));
    PersistView(d, c, f, d'.operations[f], v);
    assert c' - {f} == c - {f};
    CacheView(d', c, c', f);
  }

  lemma {:induction false} NothingToFlush(d: Backend, c: map<FileId, Cached>, f: FileId, fault: Fault)
    requires Consistent(d) && f in d.files && f !in c
    ensures Flush(FileView(d, c, f), fault) == (FileView(d, c, f), true)
  {
  }

  /** What a flush leaves in the object store and in the cache. */
  lemma {:induction false} FlushView(d: Backend, c: map<FileId, Cached>, f: FileId, fault: Fault)
    requires Consistent(d) && f in d.files && f in c
    ensures var s := FileView(d, c, f);
            var write, ok := c[f].pending > 0 && fault != WriteFault, Flush(s, fault).1;
            var d' := if write then d.(storage := d.storage[d.files[f].diskPath := Plain(c[f].content)]) else d;
            var c' := if ok then c[f := c[f].(pending := 0)] else c;
            && (ok <==> c[f].pending <= 0 || (fault != WriteFault && fault != HashFault))
            && Consistent(d')
            && ViewOf(d', c') == ViewOf(d, c)[f := Flush(s, fault).0]
  {
    hide Consistent, SnapsView;
    ViewFields(d, c, f);
    var s := FileView(d, c, f);
    var ok := Flush(s, fault).1;
    var c' := if ok then c[f := c[f].(pending := 0)] else c;
    assert c' - {f} == c - {f};
    var d' := d;
    if c[f].pending > 0 && fault != WriteFault {
      WriteView(d, c, f, c[f].content);
      d' := d.(storage := d.storage[d.files[f].diskPath := Plain(c[f].content)]);
    } else {
      ViewAt(d, c, f);
    }
    CacheView(d', c, c', f);
  }

  /** One committed transaction: a row in the operations table and the new file version. */
  lemma {:induction false} PersistView(d: Backend, c: map<FileId, Cached>, f: FileId, rows: seq<OpRow>, version: int)
    requires Consistent(d) && f in d.files && RowsValid(rows)
    ensures var d' := d.(files := d.files[f := d.files[f].(version := version)], operations := d.operations[f := rows]);
            && Consistent(d')
            && FileView(d', c, f) == FileView(d, c, f).(version := version, ops := rows)
            && ViewOf(d', c) == ViewOf(d, c)[f := FileView(d, c, f).(version := version, ops := rows)]
  {
    var d' := d.(files := d.files[f := d.files[f].(version := version)], operations := d.operations[f := rows]);
    PersistConsistent(d, f, rows, version);
    OneFile(d, c, d', c, f);
  }

  lemma {:induction false} PersistConsistent(d: Backend, f: FileId, rows: seq<OpRow>, version: int)
    requires Consistent(d) && f in d.files && RowsValid(rows)
    ensures Consistent(d.(files := d.files[f := d.files[f].(version := version)], operations := d.operations[f := rows]))
  {
    hide RowsValid, ObjectValid;
    var d' := d.(files := d.files[f := d.files[f].(version := version)], operations := d.operations[f := rows]);
    assert forall g | g in d.files :: d'.files[g].diskPath == d.files[g].diskPath;
    assert forall p :: OwnedByFile(d', p) ==> OwnedByFile(d, p);
    forall g | g in d'.snapshots ensures RowsStored(d', d'.snapshots[g]) {
      assert RowsStored(d, d.snapshots[g]);
    }
  }

  // ---- the snapshot table ----

  function RowAfter(a: SnapRow, b: SnapRow): bool {
    a.createdAt > b.createdAt || (a.createdAt == b.createdAt && a.version > b.version)
  }

  /** The table is kept in the order of the query: newest first. */
  function InsertRow(rows: seq<SnapRow>, row: SnapRow): seq<SnapRow> {
    if rows == [] || RowAfter(row, rows[0]) then [row] + rows
    else [rows[0]] + InsertRow(rows[1..], row)
  }

  lemma {:induction false} InsertRowMembers(rows: seq<SnapRow>, row: SnapRow)
    ensures forall r | r in InsertRow(rows, row) :: r == row || r in rows
  {
    if !(rows == [] || RowAfter(row, rows[0])) {
      InsertRowMembers(rows[1..], row);
    }
  }

  lemma {:induction false} InsertRowResolves(storage: map<Path, Object>, rows: seq<SnapRow>, row: SnapRow)
    requires RowStored(storage, row) && forall i | 0 <= i < |rows| :: RowStored(storage, rows[i])
    ensures forall i | 0 <= i < |InsertRow(rows, row)| :: RowStored(storage, InsertRow(rows, row)[i])
    ensures Resolve(storage, InsertRow(rows, row)) == InsertSnapshot(Resolve(storage, rows), ResolveRow(storage, row))
  {
    if !(rows == [] || RowAfter(row, rows[0])) {
      var rest := rows[1..];
      InsertRowResolves(storage, rest, row);
      assert Resolve(storage, rows)[1..] == Resolve(storage, rest);
    }
  }

  lemma {:induction false} RowInserted(d: Backend, f: FileId, row: SnapRow)
    requires Consistent(d) && f in d.files && RowStored(d.storage, row) && !OwnedByFile(d, row.diskPath)
    ensures Consistent(d.(snapshots := d.snapshots[f := InsertRow(d.snapshots[f], row)]))
  {
    var rows := InsertRow(d.snapshots[f], row);
    var d' := d.(snapshots := d.snapshots[f := rows]);
    assert RowsStored(d, d.snapshots[f]);
    InsertRowMembers(d.snapshots[f], row);
    assert forall p :: OwnedByFile(d', p) ==> OwnedByFile(d, p);
    forall g | g in d'.snapshots ensures RowsStored(d', d'.snapshots[g]) {
      assert RowsStored(d, d.snapshots[g]);
      if g == f {
        forall i | 0 <= i < |rows| ensures RowStored(d.storage, rows[i]) && !OwnedByFile(d', rows[i].diskPath) {
          assert rows[i] in rows;
        }
      }
    }
  }

  /** A snapshot row of file `f` for an object that no file owns. */
  lemma {:induction false} SnapshotView(d: Backend, c: map<FileId, Cached>, f: FileId, row: SnapRow)
    requires Consistent(d) && f in d.files && RowStored(d.storage, row) && !OwnedByFile(d, row.diskPath)
    ensures var d' := d.(snapshots := d.snapshots[f := InsertRow(d.snapshots[f], row)]);
            var s := FileView(d, c, f);
            && Consistent(d')
            && ViewOf(d', c) == ViewOf(d, c)[f := s.(snaps := InsertSnapshot(s.snaps, ResolveRow(d.storage, row)))]
  {
    var d' := d.(snapshots := d.snapshots[f := InsertRow(d.snapshots[f], row)]);
    RowInserted(d, f, row);
    assert RowsStored(d, d.snapshots[f]);
    InsertRowResolves(d.storage, d.snapshots[f], row);
    hide InsertRow, InsertSnapshot, RowsStored;
    OneFile(d, c, d', c, f);
  }

  /** What the snapshot rows of a file say about its resolved snapshots. */
  lemma {:induction false} SnapshotRows(d: Backend, f: FileId)
    requires Consistent(d) && f in d.files
    ensures f in d.snapshots && |d.snapshots[f]| == |SnapsView(d, f)|
    ensures forall i | 0 <= i < |d.snapshots[f]| ::
              RowStored(d.storage, d.snapshots[f][i]) && SnapsView(d, f)[i] == ResolveRow(d.storage, d.snapshots[f][i])
    ensures DeltasValid(SnapsView(d, f))
  {
    assert RowsStored(d, d.snapshots[f]);
  }

  predicate HasRow(rows: seq<SnapRow>, version: int) {
    exists i | 0 <= i < |rows| :: rows[i].version == version
  }

  lemma {:induction false} HasRowResolves(d: Backend, f: FileId, version: int)
    requires Consistent(d) && f in d.files
    ensures f in d.snapshots && (HasRow(d.snapshots[f], version) <==> HasSnapshot(SnapsView(d, f), version))
  {
    SnapshotRows(d, f);
    hide Consistent, SnapsView;
    var rows, snaps := d.snapshots[f], SnapsView(d, f);
    assert forall i | 0 <= i < |rows| :: snaps[i].version == rows[i].version;
    if i :| 0 <= i < |rows| && rows[i].version == version {
      assert snaps[i].version == version;
    }
  }

  /** The snapshot a new row and its object amount to. */
  function SnapshotOf(version: int, createdAt: nat, o: Object): Snapshot {
    match o
    case Plain(text) => Full(version, createdAt, text)
    case Script(chunks) => Delta(version, createdAt, chunks)
  }

  /** An object under a new path shows in no view; the row that names it is one snapshot more. */
  lemma {:induction false} NewSnapshotView(d: Backend, c: map<FileId, Cached>, f: FileId, version: int, p: Path, o: Object)
    requires Consistent(d) && f in d.files && f in d.snapshots && p !in d.storage && ObjectValid(o)
    ensures var e := d.(storage := d.storage[p := o]);
            var d' := e.(snapshots := d.snapshots[f := InsertRow(d.snapshots[f], SnapRow(version, d.clock, o.Plain?, p))]);
            var s := FileView(d, c, f);
            && Consistent(e) && ViewOf(e, c) == ViewOf(d, c)
            && Consistent(d')
            && ViewOf(d', c) == ViewOf(d, c)[f := s.(snaps := InsertSnapshot(s.snaps, SnapshotOf(version, d.clock, o)))]
  {
    hide InsertRow, InsertSnapshot, FileView, ViewOf;
    var e := d.(storage := d.storage[p := o]);
    FreshObjectView(d, c, p, o);
    forall g | g in d.files ensures e.files[g].diskPath != p {
      assert HasText(d.storage, d.files[g].diskPath);
    }
    SnapshotView(e, c, f, SnapRow(version, d.clock, o.Plain?, p));
  }

  /** The rows name objects that hold these deltas. */
  ghost predicate DeltaObjects(storage: map<Path, Object>, rows: seq<SnapRow>, deltas: seq<seq<Edit>>) {
    && |rows| == |deltas|
    && forall i | 0 <= i < |rows| ::
         rows[i].diskPath in storage && storage[rows[i].diskPath] == Script(deltas[i]) && ValidAll(deltas[i])
  }

  /** Deltas applied to a base text from the last listed, the oldest, to the first. */
  function Unwind(deltas: seq<seq<Edit>>, base: Option<Text>): (r: Option<Text>)
    requires forall i | 0 <= i < |deltas| :: ValidAll(deltas[i])
    ensures r.None? <==> base.None?
  {
    if deltas == [] || base.None? then base
    else
      assert ValidAll(deltas[0]);
      Some(ApplyAll(Unwind(deltas[1..], base).value, deltas[0]))
  }

  lemma {:induction false} UnwindLast(deltas: seq<seq<Edit>>, base: Option<Text>, d: seq<Edit>)
    requires (forall i | 0 <= i < |deltas| :: ValidAll(deltas[i])) && ValidAll(d)
    ensures Unwind(deltas + [d], base) == Unwind(deltas, if base.None? then None else Some(ApplyAll(base.value, d)))
  {
    if deltas == [] {
      assert [d][1..] == [];
      assert Unwind([d][1..], base) == base;
      assert deltas + [d] == [d];
    } else {
      assert (deltas + [d])[1..] == deltas[1..] + [d];
      UnwindLast(deltas[1..], base, d);
    }
  }

  // ---- updates of every file ----

  lemma {:induction false} NotOlderThanValid(rows: seq<OpRow>, cutoff: nat)
    requires RowsValid(rows)
    ensures RowsValid(NotOlderThan(rows, cutoff))
  {
    if rows != [] {
      assert forall i | 0 <= i < |rows[1..]| :: rows[1..][i] == rows[i + 1];
      NotOlderThanValid(rows[1..], cutoff);
    }
  }

  lemma {:induction false} EveryView(cfg: Config, d: Backend, d': Backend, c: map<FileId, Cached>, a: Action)
    requires cfg.checkpoint != 0 && Consistent(d) && Consistent(d') && AllStoredValid(ViewOf(d, c))
    requires d'.files.Keys == d.files.Keys
    requires forall f | f in d.files :: StoredValid(FileView(d, c, f)) && FileView(d', c, f) == Step(cfg, FileView(d, c, f), a).0
    ensures ViewOf(d', c) == Everywhere(cfg, ViewOf(d, c), a)
  {
    hide Consistent, FileView, Step, StoredValid;
  }

  function Purged(operations: map<FileId, seq<OpRow>>, cutoff: nat): map<FileId, seq<OpRow>> {
    map f | f in operations :: NotOlderThan(operations[f], cutoff)
  }

  lemma {:induction false} PurgeView(cfg: Config, d: Backend, c: map<FileId, Cached>, cutoff: nat)
    requires cfg.checkpoint != 0 && Consistent(d) && AllStoredValid(ViewOf(d, c))
    ensures var d' := d.(operations := Purged(d.operations, cutoff));
            Consistent(d') && ViewOf(d', c) == Everywhere(cfg, ViewOf(d, c), Purge(cutoff))
  {
    hide Everywhere, AllStoredValid, ViewOf;
    var d' := d.(operations := Purged(d.operations, cutoff));
    forall f | f in d.operations ensures RowsValid(d'.operations[f]) {
      TablesKeyed(d, f);
      NotOlderThanValid(d.operations[f], cutoff);
    }
    SameStore(d, d');
    forall f | f in d.files
      ensures StoredValid(FileView(d, c, f)) && FileView(d', c, f) == Step(cfg, FileView(d, c, f), Purge(cutoff)).0
    {
      FileViewValid(d, c, f);
    }
    EveryView(cfg, d, d', c, Purge(cutoff));
  }

  lemma {:induction false} TickView(cfg: Config, d: Backend, c: map<FileId, Cached>, delta: nat)
    requires cfg.checkpoint != 0 && Consistent(d) && AllStoredValid(ViewOf(d, c))
    ensures var d' := d.(clock := d.clock + delta);
            Consistent(d') && ViewOf(d', c) == Everywhere(cfg, ViewOf(d, c), Tick(delta))
  {
    hide Everywhere, AllStoredValid, ViewOf;
    var d' := d.(clock := d.clock + delta);
    SameStore(d, d');
    forall f | f in d.files
      ensures StoredValid(FileView(d, c, f)) && FileView(d', c, f) == Step(cfg, FileView(d, c, f), Tick(delta)).0
    {
      FileViewValid(d, c, f);
    }
    EveryView(cfg, d, d', c, Tick(delta));
  }

  lemma {:induction false} SameStore(d: Backend, d': Backend)
    requires Consistent(d)
    requires d'.files == d.files && d'.snapshots == d.snapshots && d'.storage == d.storage
    requires d'.operations.Keys == d.operations.Keys
    requires forall f | f in d'.operations :: RowsValid(d'.operations[f])
    ensures Consistent(d') && forall f | f in d.files :: SnapsView(d', f) == SnapsView(d, f)
  {
    forall f | f in d.snapshots ensures RowsStored(d', d.snapshots[f]) {
      assert RowsStored(d, d.snapshots[f]);
      assert forall p :: OwnedByFile(d', p) ==> OwnedByFile(d, p);
    }
  }
}
