/** Runs of addFsFile in which the cache answers with a directory that the query does not select. */
module CacheRuns {
  import opened Options
  import opened Unsigned
  import opened ObjectForest
  import opened PathSplit
  import opened PathHash
  import opened ParentCache
  import opened FileLoader

  /** Where a directory was found: its folder and name, its address and sequence, and those of its parent. */
  datatype Place = Place(path: string, name: string, addr: nat, seqNo: U32, parAddr: nat, parSeq: U32)

  const ROOT_INUM: nat := 2

  function DirFile(ntfs: bool, at: Place): FsFile {
    FsFile(Some(Name(at.name, at.addr, at.parAddr, at.parSeq)), Some(Meta(Directory, at.seqNo, false)), ntfs, ROOT_INUM)
  }

  /** The attributes of these runs hold their data in the meta data: a stream, and the index of a directory. */
  function StreamAttr(stream: string): Attribute { Attribute(Some(stream), false, false, 0, 0) }

  function IndexAttr(): Attribute { Attribute(Some("$I30"), true, false, 0, 0) }

  /** What the attribute adds to the name of the directory. */
  predicate Adds(attr: Option<Attribute>, suffix: string) {
    || (suffix == "" && (attr == None || attr == Some(IndexAttr())))
    || (|suffix| > 1 && suffix[0] == ':' && attr == Some(StreamAttr(suffix[1..])))
  }

  /** The entry that such a directory gets. */
  function Entry(fs: int, ntfs: bool, at: Place, suffix: string, objId: int): Dir {
    Dir(fs, at.addr, if ntfs then at.seqNo else PathKey(at.path + at.name), at.path, at.name, suffix, objId)
  }

  predicate AtRoot(at: Place) { at.addr == ROOT_INUM && at.name == "" }

  /** The parent folder is in the cache. */
  predicate ParentCached(dirs: seq<Dir>, fs: int, ntfs: bool, path: string, parAddr: nat, parSeq: U32) {
    CachedId(dirs, fs, parAddr, if ntfs then parSeq else PathKey(path), path).Some?
  }

  /** One directory more, the root or one whose parent is cached. */
  method AddDir(files: FileDb<()>, fs: int, ntfs: bool, at: Place, attr: Option<Attribute>, suffix: string)
    returns (objId: int)
    requires files.Valid() && Adds(attr, suffix) && fs in files.db.objects && !IsDot(at.name)
    requires AtRoot(at) || (at.name != "" && ParentCached(files.dirs, fs, ntfs, at.path, at.parAddr, at.parSeq))
    modifies files, files.db, files.buffers
    ensures files.Valid() && fs in files.db.objects && objId > 0
    ensures files.files == old(files.files) + [Entry(fs, ntfs, at, suffix, objId).Row()]
    ensures files.dirs == old(files.dirs) + [Entry(fs, ntfs, at, suffix, objId)]
  {
    var file := DirFile(ntfs, at);
    FileIs(ntfs, at, attr);
    hide *;
    ghost var rows, dirs := files.files, files.dirs;
    files.IdsArePositive();
    KnownFs(files.db.objects, fs);
    var failed, id;
    ghost var parObjId;
    failed, id, parObjId := files.AddFsFile(file, attr, at.path, fs);
    if !AtRoot(at) {
      ParentIsPositive(rows, dirs, fs, ntfs, at, parObjId);
    }
    AfterDir(rows, files.files, dirs, files.dirs, fs, ntfs, at, attr, suffix);
    files.IdsArePositive();
    objId := id.value;
  }

  lemma KnownFs(objects: Objects, fs: int)
    requires fs in objects
    ensures forall later: Objects :: Extends(objects, later) ==> fs in later
  {
  }

  lemma FileIs(ntfs: bool, at: Place, attr: Option<Attribute>)
    ensures var file := DirFile(ntfs, at);
            && file.name.Some? && MetaGiven(file, attr) && (IsRoot(file) <==> AtRoot(at))
  {
  }

  lemma ParentIsPositive(rows: seq<FileRow>, dirs: seq<Dir>, fs: int, ntfs: bool, at: Place, parObjId: int)
    requires RowsOfDirs(rows, dirs) && forall row <- rows :: row.objId > 0
    requires ParentCached(dirs, fs, ntfs, at.path, at.parAddr, at.parSeq)
    requires FoundParent(rows, dirs, DirFile(ntfs, at), at.path, fs, parObjId)
    ensures parObjId > 0
  {
    CachedIs(rows, dirs, fs, at.parAddr, if ntfs then at.parSeq else PathKey(at.path), at.path);
    hide FirstDir, PathKey, RowsOfDirs, Selected, Split;
  }

  lemma AfterDir(before: seq<FileRow>, rows: seq<FileRow>, known: seq<Dir>, dirs: seq<Dir>, fs: int, ntfs: bool,
                 at: Place, attr: Option<Attribute>, suffix: string)
    requires !IsDot(at.name) && Adds(attr, suffix)
    requires NewRows(before, rows, DirFile(ntfs, at), attr, at.path, fs)
    requires |before| < |rows| ==> NewDirs(before, rows, known, dirs, DirFile(ntfs, at), attr, at.path, fs)
    ensures |rows| == |before| + 1
    ensures var d := Entry(fs, ntfs, at, suffix, rows[|before|].objId);
            rows == before + [d.Row()] && dirs == known + [d]
  {
    hide PathKey, IsDot;
    if suffix != "" {
      assert suffix == ":" + suffix[1..];
    }
  }

  // ----- lookups in the short lists of a run

  /** The first directory at an address answers for every path with its hash. */
  lemma {:induction false} CachedFirst(dirs: seq<Dir>, i: nat, fs: int, addr: nat, seqNo: U32, path: string)
    requires i < |dirs| && dirs[i].At(fs, addr, seqNo) && dirs[i].Key() == PathKey(path)
    requires forall j :: 0 <= j < i ==> !dirs[j].At(fs, addr, seqNo)
    ensures CachedId(dirs, fs, addr, seqNo, path) == Some(dirs[i].objId)
  {
    FirstAt(dirs, i, fs, addr, seqNo);
    hide FirstDir, PathKey;
  }

  lemma {:induction false} FirstAt(dirs: seq<Dir>, i: nat, fs: int, addr: nat, seqNo: U32)
    requires i < |dirs| && dirs[i].At(fs, addr, seqNo)
    requires forall j :: 0 <= j < i ==> !dirs[j].At(fs, addr, seqNo)
    ensures FirstDir(dirs, fs, addr, seqNo) == Some(dirs[i])
    decreases |dirs|
  {
    var front := dirs[..|dirs| - 1];
    if i < |front| {
      FirstAt(front, i, fs, addr, seqNo);
    } else {
      assert front == dirs[..i];
    }
  }

  /** The query finds row i and no other. */
  lemma SelectedOne(rows: seq<FileRow>, i: nat, addr: nat, fs: int, parts: Parts)
    requires i < |rows|
    requires forall j :: 0 <= j < |rows| ==> (Matches(rows[j], addr, fs, parts) <==> j == i)
    ensures Selected(rows, addr, fs, parts) == {rows[i].objId}
  {
    assert Matches(rows[i], addr, fs, parts);
  }

  // ----- a stream comes first

  /** On an NTFS file system the directory d comes first under the name of its stream s, and the file
      in it gets that row as its parent, although the query finds nothing in the table it meets. */
  method StreamFirst() returns (failed: bool, fs: int, ghost parObjId: int, ghost table: seq<FileRow>)
    ensures !failed && parObjId > 0 && Selected(table, 5, fs, Split("d/")) == {}
  {
    var files;
    files, fs := NewFiles();
    var root, d := Place("", "", ROOT_INUM, 1, ROOT_INUM, 1), Place("", "d", 5, 7, ROOT_INUM, 1);
    var child := FsFile(Some(Name("x", 6, 5, 7)), None, true, ROOT_INUM);
    NamesOfRun(root, d, child);
    hide *;
    var rootId := AddDir(files, fs, true, root, None, "");
    RootIsCached(files.dirs, fs, root, rootId, d);
    var dirId := AddDir(files, fs, true, d, Some(StreamAttr("s")), ":s");
    files.IdsArePositive();
    ghost var dirs := files.dirs;
    table := files.files;
    var objId;
    failed, objId, parObjId := files.AddFsFile(child, None, "d/", fs);
    StreamAnswers(table, dirs, fs, root, rootId, d, dirId, child, parObjId);
  }

  /** On an NTFS file system a directory comes with its index $I30: a file in it gets its row as the
      parent, and the query finds that row in the table it meets. */
  method IndexFirst(name: string, addr: nat, seqNo: U32)
    returns (failed: bool, fs: int, dirId: int, ghost parObjId: int, ghost table: seq<FileRow>)
    requires PlainName(name) && addr != ROOT_INUM
    ensures !failed && parObjId == dirId && Selected(table, addr, fs, Split(name + "/")) == {dirId}
  {
    var files;
    files, fs := NewFiles();
    var root, d := Place("", "", ROOT_INUM, 1, ROOT_INUM, 1), Place("", name, addr, seqNo, ROOT_INUM, 1);
    var child := FsFile(Some(Name("x", 6, addr, seqNo)), None, true, ROOT_INUM);
    RootAndChild(root, child);
    PlainIsNoDot(name);
    hide *;
    var rootId := AddDir(files, fs, true, root, Some(IndexAttr()), "");
    RootIsCached(files.dirs, fs, root, rootId, d);
    dirId := AddDir(files, fs, true, d, Some(IndexAttr()), "");
    files.IdsArePositive();
    ghost var dirs := files.dirs;
    table := files.files;
    var objId;
    failed, objId, parObjId := files.AddFsFile(child, None, name + "/", fs);
    DirectoryAnswers(table, dirs, fs, root, rootId, d, dirId, child, parObjId);
  }

  /** On an NTFS file system two directories with one path and one address are told apart by their
      sequences: a file gets the one as its parent whose sequence it names. */
  method SequencesTell(name: string, addr: nat, first: U32, second: U32, asksSecond: bool)
    returns (failed: bool, fs: int, ids: (int, int), ghost parObjId: int)
    requires PlainName(name) && addr != ROOT_INUM && first != second
    ensures !failed && ids.0 != ids.1 && parObjId == if asksSecond then ids.1 else ids.0
  {
    var files;
    files, fs := NewFiles();
    var root := Place("", "", ROOT_INUM, 1, ROOT_INUM, 1);
    var d, e := Place("", name, addr, first, ROOT_INUM, 1), Place("", name, addr, second, ROOT_INUM, 1);
    var child := FsFile(Some(Name("x", 6, addr, if asksSecond then second else first)), None, true, ROOT_INUM);
    RootAndChild(root, child);
    PlainIsNoDot(name);
    hide *;
    var rootId := AddDir(files, fs, true, root, None, "");
    RootIsCached(files.dirs, fs, root, rootId, d);
    var dirId := AddDir(files, fs, true, d, None, "");
    RootStaysCached(files.dirs, fs, root, rootId, d, dirId, e);
    var laterId := AddDir(files, fs, true, e, None, "");
    ids := (dirId, laterId);
    files.IdsArePositive();
    ghost var dirs, table := files.dirs, files.files;
    var objId;
    failed, objId, parObjId := files.AddFsFile(child, None, name + "/", fs);
    SequenceAnswers(table, dirs, fs, root, rootId, d, dirId, e, laterId, asksSecond, child, parObjId);
  }

  lemma RootAndChild(root: Place, child: FsFile)
    requires root.name == "" && root.addr == ROOT_INUM && child.name.Some? && child.name.value.name == "x"
    ensures !IsDot(root.name) && AtRoot(root) && MetaGiven(child, None) && !IsRoot(child)
    ensures Adds(None, "") && Adds(Some(IndexAttr()), "")
  {
  }

  lemma PlainIsNoDot(name: string)
    requires PlainName(name)
    ensures !IsDot(name) && name != ""
  {
    assert name[0] in name;
  }

  lemma RootStaysCached(dirs: seq<Dir>, fs: int, root: Place, rootId: int, d: Place, dirId: int, e: Place)
    requires dirs == [] + [Entry(fs, true, root, "", rootId)] + [Entry(fs, true, d, "", dirId)]
    requires AtRoot(root) && root.path == e.path == "" && e.parAddr == root.addr && e.parSeq == root.seqNo
    ensures ParentCached(dirs, fs, true, e.path, e.parAddr, e.parSeq)
  {
    hide PathKey, FirstDir, CachedId;
    assert "" + "" == "";
    CachedFirst(dirs, 0, fs, e.parAddr, e.parSeq, e.path);
  }

  lemma DirectoryAnswers(table: seq<FileRow>, dirs: seq<Dir>, fs: int, root: Place, rootId: int, d: Place, dirId: int,
                         child: FsFile, parObjId: int)
    requires table == [] + [Entry(fs, true, root, "", rootId).Row()] + [Entry(fs, true, d, "", dirId).Row()]
    requires dirs == [] + [Entry(fs, true, root, "", rootId)] + [Entry(fs, true, d, "", dirId)]
    requires root.addr != d.addr && d.path == "" && PlainName(d.name) && child.ntfs && dirId > 0
    requires child.name.Some? && child.name.value.parAddr == d.addr && child.name.value.parSeq == d.seqNo
    requires FoundParent(table, dirs, child, d.name + "/", fs, parObjId)
    ensures parObjId == dirId > 0 && Selected(table, d.addr, fs, Split(d.name + "/")) == {dirId}
  {
    var path := d.name + "/";
    FolderOf(d.name);
    hide PathKey, FirstDir, Split, CachedId, PlainName, Selected, FoundParent;
    CachedFirst(dirs, 1, fs, d.addr, d.seqNo, path);
    assert d.name + "" == d.name && "/" + "" == "/";
    SelectedOne(table, 1, d.addr, fs, Split(path));
    CachedAnswers(table, dirs, child, path, fs, parObjId);
  }

  lemma FolderOf(name: string)
    requires PlainName(name)
    ensures Split(name + "/") == Parts("/", name) && PathKey(name + "/") == PathKey("" + name)
  {
    assert "" + name == name && InsideOf(name) == name + "/" && "/" + "" == "/";
    InsideSharesKey(name);
    SplitOfStored("", name);
    hide PathKey, Split, InsideOf;
  }

  lemma CachedAnswers(table: seq<FileRow>, dirs: seq<Dir>, child: FsFile, path: string, fs: int, parObjId: int)
    requires child.ntfs && child.name.Some? && FoundParent(table, dirs, child, path, fs, parObjId)
    ensures var name := child.name.value;
            var cached := CachedId(dirs, fs, name.parAddr, name.parSeq, path);
            cached.Some? ==> parObjId == cached.value
  {
    hide PathKey, CachedId, Selected, Split;
  }

  lemma SequenceAnswers(table: seq<FileRow>, dirs: seq<Dir>, fs: int, root: Place, rootId: int, d: Place, dirId: int,
                        e: Place, laterId: int, asksSecond: bool, child: FsFile, parObjId: int)
    requires dirs == [] + [Entry(fs, true, root, "", rootId)] + [Entry(fs, true, d, "", dirId)]
                     + [Entry(fs, true, e, "", laterId)]
    requires table == [] + [Entry(fs, true, root, "", rootId).Row()] + [Entry(fs, true, d, "", dirId).Row()]
                      + [Entry(fs, true, e, "", laterId).Row()]
    requires RowsOfDirs(table, dirs) && dirId > 0 && laterId > 0
    requires root.addr != d.addr == e.addr && d.path == e.path == "" && d.name == e.name != "" && d.seqNo != e.seqNo
    requires child.ntfs && child.name.Some? && child.name.value.parAddr == d.addr
    requires child.name.value.parSeq == if asksSecond then e.seqNo else d.seqNo
    requires FoundParent(table, dirs, child, d.name + "/", fs, parObjId)
    ensures dirId != laterId && parObjId == (if asksSecond then laterId else dirId) && parObjId > 0
  {
    var path := d.name + "/";
    assert "" + d.name == d.name && InsideOf(d.name) == path;
    IdsDiffer(table, dirs, 1, 2);
    InsideSharesKey(d.name);
    hide PathKey, FirstDir, Split, CachedId, InsideOf, Selected, RowsOfDirs, FoundParent;
    CachedFirst(dirs, if asksSecond then 2 else 1, fs, d.addr, child.name.value.parSeq, path);
    CachedAnswers(table, dirs, child, path, fs, parObjId);
  }

  method NewFiles() returns (files: FileDb<()>, fs: int)
    ensures fresh(files) && fresh(files.db) && fresh(files.buffers)
    ensures files.Valid() && files.files == [] && files.dirs == [] && fs in files.db.objects
  {
    var db := new CaseDb<()>();
    var image := db.AddImageInfo();
    fs := db.AddFsInfo((), image);
    files := new FileDb(db);
  }

  lemma NamesOfRun(root: Place, d: Place, child: FsFile)
    requires root.name == "" && root.addr == ROOT_INUM && d.name == "d"
    requires child.name.Some? && child.name.value.name == "x"
    ensures !IsDot(root.name) && !IsDot(d.name) && AtRoot(root)
    ensures MetaGiven(child, None) && !IsRoot(child)
  {
  }

  lemma RootIsCached(dirs: seq<Dir>, fs: int, root: Place, rootId: int, d: Place)
    requires dirs == [] + [Entry(fs, true, root, "", rootId)]
    requires AtRoot(root) && root.path == d.path == "" && d.parAddr == root.addr && d.parSeq == root.seqNo
    ensures ParentCached(dirs, fs, true, d.path, d.parAddr, d.parSeq)
  {
    hide PathKey, FirstDir, CachedId;
    assert "" + "" == "";
    CachedFirst(dirs, 0, fs, d.parAddr, d.parSeq, d.path);
  }

  lemma StreamAnswers(table: seq<FileRow>, dirs: seq<Dir>, fs: int, root: Place, rootId: int, d: Place, dirId: int,
                      child: FsFile, parObjId: int)
    requires table == [] + [Entry(fs, true, root, "", rootId).Row()] + [Entry(fs, true, d, ":s", dirId).Row()]
    requires dirs == [] + [Entry(fs, true, root, "", rootId)] + [Entry(fs, true, d, ":s", dirId)]
    requires root.addr != 5 && d.addr == 5 && d.path == "" && d.name == "d" && child.ntfs
    requires child.name.Some? && child.name.value.parAddr == 5 && child.name.value.parSeq == d.seqNo
    requires FoundParent(table, dirs, child, "d/", fs, parObjId)
    ensures parObjId == dirId && Selected(table, 5, fs, Split("d/")) == {}
  {
    hide PathKey, FirstDir, Split, Normal, CachedId;
    InsideSharesKey("d");
    assert "" + "d" == "d" && InsideOf("d") == "d/";
    CachedFirst(dirs, 1, fs, 5, d.seqNo, "d/");
    SplitOfStored("", "d");
    assert |"d" + ":s"| == 3;
  }

  // ----- slashes do not count

  predicate PlainName(name: string) { name != "" && '.' !in name && NoSlash(name) }

  /** The places of the directories a, ab, a/bc and ab/c, of which the last two share an address. */
  function Places(a: string, b: string, c: string): (places: seq<Place>)
    ensures |places| == 5
  {
    [ Place("", "", ROOT_INUM, 0, ROOT_INUM, 0), Place("", a, 3, 0, ROOT_INUM, 0), Place("", a + b, 4, 0, ROOT_INUM, 0),
      Place(a + "/", b + c, 5, 0, 3, 0), Place(a + b + "/", c, 5, 0, 4, 0) ]
  }

  function Entries(fs: int, places: seq<Place>, ids: seq<int>): (dirs: seq<Dir>)
    requires |ids| <= |places|
    ensures |dirs| == |ids|
  {
    seq(|ids|, i requires 0 <= i < |ids| => Entry(fs, false, places[i], "", ids[i]))
  }

  function RowsOf(dirs: seq<Dir>): (rows: seq<FileRow>)
    ensures |rows| == |dirs|
  {
    seq(|dirs|, i requires 0 <= i < |dirs| => dirs[i].Row())
  }

  /** On a file system that is not NTFS two folders like a/bc and ab/c with one address are both
      stored. A file in the second gets the first as its parent, although the query finds the second. */
  method SlashesFirst(a: string, b: string, c: string)
    returns (failed: bool, fs: int, ids: seq<int>, ghost parObjId: int, ghost table: seq<FileRow>)
    requires PlainName(a) && PlainName(b) && PlainName(c)
    ensures !failed && |ids| == 5 && ids[3] != ids[4]
    ensures parObjId == ids[3] && Selected(table, 5, fs, Split(InsideOf(a + b + "/" + c))) == {ids[4]}
  {
    var files;
    files, fs := NewFiles();
    var places := Places(a, b, c);
    var path := InsideOf(a + b + "/" + c);
    var child := FsFile(Some(Name("x", 6, 5, 0)), None, false, ROOT_INUM);
    ChildIs(child);
    hide *;
    ids := [];
    NoEntries(fs, places);
    for i := 0 to 5
      invariant |ids| == i && files.Valid() && fs in files.db.objects && fresh(files) && fresh(files.db)
      invariant fresh(files.buffers)
      invariant forall k :: 0 <= k < i ==> ids[k] > 0
      invariant files.dirs == Entries(fs, places, ids) && files.files == RowsOf(files.dirs)
    {
      PlaceIsReached(fs, a, b, c, ids);
      var objId := AddDir(files, fs, false, places[i], None, "");
      EntriesNext(fs, places, ids, objId);
      ids := ids + [objId];
    }
    files.IdsArePositive();
    ghost var dirs := files.dirs;
    table := files.files;
    var objId;
    failed, objId, parObjId := files.AddFsFile(child, None, path, fs);
    SlashesAnswer(fs, a, b, c, ids, dirs, table, child, parObjId);
  }

  lemma ChildIs(child: FsFile)
    requires child.name.Some? && child.name.value.name == "x"
    ensures MetaGiven(child, None) && !IsRoot(child)
  {
  }

  lemma NoEntries(fs: int, places: seq<Place>)
    ensures Entries(fs, places, []) == [] && RowsOf([]) == []
  {
  }

  lemma EntriesNext(fs: int, places: seq<Place>, ids: seq<int>, objId: int)
    requires |ids| < |places|
    ensures var d := Entry(fs, false, places[|ids|], "", objId);
            && Entries(fs, places, ids + [objId]) == Entries(fs, places, ids) + [d]
            && RowsOf(Entries(fs, places, ids) + [d]) == RowsOf(Entries(fs, places, ids)) + [d.Row()]
  {
    hide Entry;
  }

  lemma EntryAt(fs: int, places: seq<Place>, ids: seq<int>, i: nat)
    requires i < |ids| <= |places|
    ensures Entries(fs, places, ids)[i] == Entry(fs, false, places[i], "", ids[i])
  {
    hide Entry;
  }

  /** Every place but the root has its parent folder among the places before it. */
  lemma PlaceIsReached(fs: int, a: string, b: string, c: string, ids: seq<int>)
    requires PlainName(a) && PlainName(b) && PlainName(c) && |ids| < 5
    ensures var at := Places(a, b, c)[|ids|];
            && !IsDot(at.name)
            && (AtRoot(at) || (at.name != "" && ParentCached(Entries(fs, Places(a, b, c), ids), fs, false, at.path,
                                                            at.parAddr, at.parSeq)))
  {
    var places, n := Places(a, b, c), |ids|;
    NamesArePlain(a, b, c, n);
    if n > 0 {
      var at, p := places[n], if n <= 2 then 0 else n - 2;
      var dirs := Entries(fs, places, ids);
      forall i | 0 <= i < n ensures dirs[i] == Entry(fs, false, places[i], "", ids[i]) {
        EntryAt(fs, places, ids, i);
      }
      ParentShares(a, b, c, n);
      AddressesDiffer(a, b, c, n);
      hide PathKey, CachedId, Entries, Places, FirstDir, PlainName;
      CachedFirst(dirs, p, fs, at.parAddr, PathKey(at.path), at.path);
    }
  }

  lemma NamesArePlain(a: string, b: string, c: string, n: nat)
    requires PlainName(a) && PlainName(b) && PlainName(c) && n < 5
    ensures var at := Places(a, b, c)[n]; !IsDot(at.name) && (n == 0 <==> AtRoot(at)) && (n > 0 ==> at.name != "")
  {
    NoDots(a, b);
    NoDots(b, c);
    hide NoSlash;
  }

  lemma NoDots(a: string, b: string)
    requires '.' !in a && '.' !in b && a != "" && b != ""
    ensures !IsDot(a) && !IsDot(b) && !IsDot(a + b)
  {
    assert a[0] in a && b[0] in b && (a + b)[0] == a[0];
  }

  /** The parent of place n, and its hash. */
  lemma ParentShares(a: string, b: string, c: string, n: nat)
    requires a != "" && b != "" && 0 < n < 5
    ensures var (places, p) := (Places(a, b, c), if n <= 2 then 0 else n - 2);
            && places[p].addr == places[n].parAddr
            && PathKey(places[p].path + places[p].name) == PathKey(places[n].path)
  {
    hide *;
    var (places, p) := (Places(a, b, c), if n <= 2 then 0 else n - 2);
    ParentFolder(a, b, c, n);
    InsideSharesKey(places[p].path + places[p].name);
  }

  lemma ParentFolder(a: string, b: string, c: string, n: nat)
    requires a != "" && b != "" && 0 < n < 5
    ensures var (places, p) := (Places(a, b, c), if n <= 2 then 0 else n - 2);
            places[p].addr == places[n].parAddr && InsideOf(places[p].path + places[p].name) == places[n].path
  {
    assert "" + a == a && "" + (a + b) == a + b && "" + "" == "";
  }

  lemma AddressesDiffer(a: string, b: string, c: string, n: nat)
    requires 0 < n < 5
    ensures var (places, p) := (Places(a, b, c), if n <= 2 then 0 else n - 2);
            forall j :: 0 <= j < p ==> places[j].addr != places[n].parAddr
  {
  }

  lemma SlashesAnswer(fs: int, a: string, b: string, c: string, ids: seq<int>, dirs: seq<Dir>, table: seq<FileRow>,
                      child: FsFile, parObjId: int)
    requires PlainName(a) && PlainName(b) && PlainName(c) && |ids| == 5
    requires dirs == Entries(fs, Places(a, b, c), ids) && table == RowsOf(dirs) && RowsOfDirs(table, dirs)
    requires child.name.Some? && child.name.value.parAddr == 5 && !child.ntfs && (forall k :: 0 <= k < 5 ==> ids[k] > 0)
    requires FoundParent(table, dirs, child, InsideOf(a + b + "/" + c), fs, parObjId)
    ensures parObjId == ids[3] > 0 && ids[3] != ids[4]
    ensures Selected(table, 5, fs, Split(InsideOf(a + b + "/" + c))) == {ids[4]}
  {
    var path := InsideOf(a + b + "/" + c);
    LastTwo(fs, a, b, c, ids);
    SlashesDoNotCount(a, b, c);
    SecondFolder(a, b, c);
    hide PathKey, CachedId, Entries, Places, FirstDir, Split, Selected, PlainName, InsideOf, RowsOfDirs;
    CachedFirst(dirs, 3, fs, 5, PathKey(path), path);
    IdsDiffer(table, dirs, 3, 4);
    SecondSelected(fs, dirs, table, Split(path));
  }

  lemma SecondSelected(fs: int, dirs: seq<Dir>, table: seq<FileRow>, parts: Parts)
    requires |dirs| == 5 && table == RowsOf(dirs) && (forall j :: 0 <= j < 3 ==> dirs[j].metaAddr != 5)
    requires "/" + dirs[3].path != parts.parent && Matches(dirs[4].Row(), 5, fs, parts)
    ensures Selected(table, 5, fs, parts) == {dirs[4].objId}
  {
    assert forall j :: 0 <= j < 5 ==> table[j] == dirs[j].Row();
    hide Selected;
    SelectedOne(table, 4, 5, fs, parts);
  }

  lemma IdsDiffer(rows: seq<FileRow>, dirs: seq<Dir>, i: nat, j: nat)
    requires RowsOfDirs(rows, dirs) && i < j < |rows|
    ensures rows[i].objId != rows[j].objId
  {
  }

  lemma LastTwo(fs: int, a: string, b: string, c: string, ids: seq<int>)
    requires |ids| == 5
    ensures var dirs := Entries(fs, Places(a, b, c), ids);
            && (forall j :: 0 <= j < 3 ==> dirs[j].metaAddr != 5)
            && dirs[3] == Dir(fs, 5, PathKey(a + "/" + (b + c)), a + "/", b + c, "", ids[3])
            && dirs[4] == Dir(fs, 5, PathKey(a + b + "/" + c), a + b + "/", c, "", ids[4])
  {
    hide PathKey;
  }

  /** The query for ab/c looks for the columns of the second folder, which differ from those of the first. */
  lemma SecondFolder(a: string, b: string, c: string)
    requires PlainName(a) && PlainName(b) && PlainName(c)
    ensures Split(InsideOf(a + b + "/" + c)) == Parts("/" + (a + b + "/"), c + "")
    ensures "/" + (a + "/") != "/" + (a + b + "/")
  {
    SplitOfStored(a + b + "/", c);
    assert c + "" == c && !StartsWithSlash(a + b + "/");
    assert |"/" + (a + "/")| < |"/" + (a + b + "/")|;
    hide Split, InsideOf;
  }
}
