/** The cache of directory ids that speeds up the query for a file's parent in tsk/auto/db_sqlite.cpp. */
module ParentCache {
  import opened Options
  import opened PathSplit
  import opened PathHash
  import opened Unsigned

  /** A row of tsk_files, with the columns the parent query reads. */
  datatype FileRow = FileRow(objId: int, fsObjId: int, metaAddr: nat, parentPath: string, name: string)

  /** The ids found by the parent query. */
  function Selected(files: seq<FileRow>, metaAddr: nat, fsObjId: int, parts: Parts): set<int> {
    set k | 0 <= k < |files| && Matches(files[k], metaAddr, fsObjId, parts) :: files[k].objId
  }

  predicate Matches(row: FileRow, metaAddr: nat, fsObjId: int, parts: Parts) {
    row.metaAddr == metaAddr && row.fsObjId == fsObjId && row.parentPath == parts.parent && row.name == parts.name
  }

  /** A directory handed to the cache: where it is, the folder and name it was found under, the
      attribute suffix of its name column, and its object id. */
  datatype Dir = Dir(fsObjId: int, metaAddr: nat, seqNo: U32, path: string, name: string, suffix: string, objId: int) {
    function Key(): U32 { PathKey(path + name) }

    /** The row addFile writes for it. */
    function Row(): FileRow { FileRow(objId, fsObjId, metaAddr, "/" + path, name + suffix) }

    predicate At(fsObjId: int, metaAddr: nat, seqNo: U32) {
      this.fsObjId == fsObjId && this.metaAddr == metaAddr && this.seqNo == seqNo
    }

    /** A directory as a walk from the root reports it. */
    predicate Walked() { FolderPath(path) && NoSlash(name) && (name == "" ==> path == "") }
  }

  /** The first directory with this file system, address and sequence. */
  function FirstDir(dirs: seq<Dir>, fsObjId: int, metaAddr: nat, seqNo: U32): (first: Option<Dir>)
    ensures first.Some? ==> first.value in dirs && first.value.At(fsObjId, metaAddr, seqNo)
    decreases |dirs|
  {
    if |dirs| == 0 then None
    else
      var before := FirstDir(dirs[..|dirs| - 1], fsObjId, metaAddr, seqNo);
      var last := dirs[|dirs| - 1];
      if before.Some? then before else if last.At(fsObjId, metaAddr, seqNo) then Some(last) else None
  }

  lemma FirstDirNext(dirs: seq<Dir>, d: Dir, fsObjId: int, metaAddr: nat, seqNo: U32)
    ensures FirstDir(dirs + [d], fsObjId, metaAddr, seqNo)
         == if FirstDir(dirs, fsObjId, metaAddr, seqNo).Some? then FirstDir(dirs, fsObjId, metaAddr, seqNo)
            else if d.At(fsObjId, metaAddr, seqNo) then Some(d) else None
  {
    assert (dirs + [d])[..|dirs|] == dirs;
  }

  // ----- the nested map

  type Bucket = map<U32, int>
  type FsCache = map<nat, map<U32, Bucket>>
  type Cache = map<int, FsCache>

  function BucketIn(fsMap: FsCache, metaAddr: nat, seqNo: U32): Option<Bucket> {
    if metaAddr in fsMap && seqNo in fsMap[metaAddr] then Some(fsMap[metaAddr][seqNo]) else None
  }

  function BucketOf(cache: Cache, fsObjId: int, metaAddr: nat, seqNo: U32): Option<Bucket> {
    if fsObjId in cache then BucketIn(cache[fsObjId], metaAddr, seqNo) else None
  }

  /** The bucket the first directory filled. */
  function FirstBucket(dirs: seq<Dir>, fsObjId: int, metaAddr: nat, seqNo: U32): Option<Bucket> {
    var first := FirstDir(dirs, fsObjId, metaAddr, seqNo);
    if first.Some? then Some(map[first.value.Key() := first.value.objId]) else None
  }

  /** Every bucket is the one its first directory filled. */
  ghost predicate Reflects(cache: Cache, dirs: seq<Dir>) {
    forall fsObjId, metaAddr, seqNo ::
      BucketOf(cache, fsObjId, metaAddr, seqNo) == FirstBucket(dirs, fsObjId, metaAddr, seqNo)
  }

  /** A bucket, once written, holds one path hash for ever. */
  lemma BucketsNeverChange(cache: Cache, dirs: seq<Dir>, later: Cache, more: seq<Dir>, fsObjId: int, metaAddr: nat,
                           seqNo: U32)
    requires Reflects(cache, dirs) && Reflects(later, dirs + more)
    ensures var bucket := BucketOf(cache, fsObjId, metaAddr, seqNo);
            bucket.Some? ==> |bucket.value| == 1 && BucketOf(later, fsObjId, metaAddr, seqNo) == bucket
  {
    FirstDirStays(dirs, more, fsObjId, metaAddr, seqNo);
    hide FirstDir;
  }

  lemma {:induction false} FirstDirStays(dirs: seq<Dir>, more: seq<Dir>, fsObjId: int, metaAddr: nat, seqNo: U32)
    ensures var first := FirstDir(dirs, fsObjId, metaAddr, seqNo);
            first.Some? ==> FirstDir(dirs + more, fsObjId, metaAddr, seqNo) == first
    decreases |more|
  {
    if more == [] {
      assert dirs + more == dirs;
    } else {
      var front, last := more[..|more| - 1], more[|more| - 1];
      FirstDirStays(dirs, front, fsObjId, metaAddr, seqNo);
      FirstDirNext(dirs + front, last, fsObjId, metaAddr, seqNo);
      assert dirs + more == dirs + front + [last];
    }
  }

  /** The id the cache answers with, if it does. */
  function CachedId(dirs: seq<Dir>, fsObjId: int, metaAddr: nat, seqNo: U32, path: string): Option<int> {
    var first := FirstDir(dirs, fsObjId, metaAddr, seqNo);
    if first.Some? && first.value.Key() == PathKey(path) then Some(first.value.objId) else None
  }

  // ----- agreement with the query

  /** Every directory of the cache has its row, and no other row has its id. */
  ghost predicate RowsOfDirs(files: seq<FileRow>, dirs: seq<Dir>) {
    && (forall i, j :: 0 <= i < j < |files| ==> files[i].objId != files[j].objId)
    && (forall i :: 0 <= i < |dirs| ==> dirs[i].Row() in files)
  }

  /** The asked folder is the one the directory was stored for, under its own name. */
  predicate AskedFor(d: Dir, path: string) { d.suffix == "" && Normal(path) == "/" + d.path + d.name }

  /** Whatever the hash does, an id from the cache is one the query would find exactly when the asked
      folder reads like the stored columns. */
  lemma CacheMeetsQuery(files: seq<FileRow>, dirs: seq<Dir>, fsObjId: int, metaAddr: nat, seqNo: U32, path: string)
    requires RowsOfDirs(files, dirs)
    requires CachedId(dirs, fsObjId, metaAddr, seqNo, path).Some?
    requires FirstDir(dirs, fsObjId, metaAddr, seqNo).value.Walked()
    ensures var d := FirstDir(dirs, fsObjId, metaAddr, seqNo).value;
            var id := CachedId(dirs, fsObjId, metaAddr, seqNo, path).value;
            id in Selected(files, metaAddr, fsObjId, Split(path))
            <==> NoSlash(d.suffix) && Normal(path) == "/" + d.path + (d.name + d.suffix)
  {
    hide *;
    CachedIs(files, dirs, fsObjId, metaAddr, seqNo, path);
    var d := FirstDir(dirs, fsObjId, metaAddr, seqNo).value;
    SelectedById(files, d.Row(), metaAddr, fsObjId, Split(path));
    RowMatches(d, Split(path));
    SplitExact(path, Parts("/" + d.path, d.name + d.suffix));
    ColumnsAreParts(d);
  }

  lemma CachedIs(files: seq<FileRow>, dirs: seq<Dir>, fsObjId: int, metaAddr: nat, seqNo: U32, path: string)
    requires RowsOfDirs(files, dirs) && CachedId(dirs, fsObjId, metaAddr, seqNo, path).Some?
    ensures FirstDir(dirs, fsObjId, metaAddr, seqNo).Some?
    ensures var d := FirstDir(dirs, fsObjId, metaAddr, seqNo).value;
            && CachedId(dirs, fsObjId, metaAddr, seqNo, path) == Some(d.objId) == Some(d.Row().objId)
            && d.Row() in files && d in dirs
            && d.fsObjId == fsObjId && d.metaAddr == metaAddr && d.Key() == PathKey(path)
    ensures forall i, j :: 0 <= i < j < |files| ==> files[i].objId != files[j].objId
  {
    hide FirstDir, PathKey;
  }

  lemma RowMatches(d: Dir, parts: Parts)
    ensures Matches(d.Row(), d.metaAddr, d.fsObjId, parts) <==> parts == Parts("/" + d.path, d.name + d.suffix)
  {
  }

  lemma ColumnsAreParts(d: Dir)
    requires d.Walked()
    ensures EndsWithSlash("/" + d.path) && (NoSlash(d.name + d.suffix) <==> NoSlash(d.suffix))
  {
    NoSlashJoined(d.name, d.suffix);
    hide NoSlash;
  }

  /** Paths with one hash at an address have the same letters: the hash does not collide but on slashes. */
  ghost predicate HashSeparates(dirs: seq<Dir>, fsObjId: int, metaAddr: nat, path: string) {
    forall d <- dirs :: d.fsObjId == fsObjId && d.metaAddr == metaAddr && d.Key() == PathKey(path)
                     ==> Letters(path) == Letters(d.path + d.name)
  }

  /** With a hash that separates letters, an id from the cache is one the query would find exactly
      when its directory was stored without an attribute suffix and is the one asked for. */
  lemma CacheAgreesWithQuery(files: seq<FileRow>, dirs: seq<Dir>, fsObjId: int, metaAddr: nat, seqNo: U32, path: string)
    requires RowsOfDirs(files, dirs) && HashSeparates(dirs, fsObjId, metaAddr, path)
    requires CachedId(dirs, fsObjId, metaAddr, seqNo, path).Some?
    requires FirstDir(dirs, fsObjId, metaAddr, seqNo).value.Walked()
    ensures var d := FirstDir(dirs, fsObjId, metaAddr, seqNo).value;
            var id := CachedId(dirs, fsObjId, metaAddr, seqNo, path).value;
            id in Selected(files, metaAddr, fsObjId, Split(path)) <==> AskedFor(d, path)
  {
    hide *;
    CacheMeetsQuery(files, dirs, fsObjId, metaAddr, seqNo, path);
    CachedIs(files, dirs, fsObjId, metaAddr, seqNo, path);
    var d := FirstDir(dirs, fsObjId, metaAddr, seqNo).value;
    SeparatedLetters(dirs, d, path);
    SameLetters(path, d.path, d.name, d.suffix);
    AskedForIs(d, path);
  }

  lemma SeparatedLetters(dirs: seq<Dir>, d: Dir, path: string)
    requires d in dirs && HashSeparates(dirs, d.fsObjId, d.metaAddr, path) && d.Key() == PathKey(path)
    ensures Letters(path) == Letters(d.path + d.name)
  {
    hide Letters, PathKey;
  }

  lemma AskedForIs(d: Dir, path: string)
    ensures AskedFor(d, path)
            <==> d.suffix == "" && NoSlash(d.suffix) && Normal(path) == "/" + d.path + (d.name + d.suffix)
  {
    if d.suffix == "" {
      assert d.name + d.suffix == d.name && "/" + d.path + (d.name + d.suffix) == "/" + d.path + d.name;
    }
    hide Normal;
  }

  /** A suffix without slashes adds letters. */
  lemma SameLetters(path: string, folder: string, name: string, suffix: string)
    requires Letters(path) == Letters(folder + name)
    ensures NoSlash(suffix) && Normal(path) == "/" + folder + (name + suffix) ==> suffix == ""
  {
    hide *;
    if NoSlash(suffix) && Normal(path) == "/" + folder + (name + suffix) {
      LettersOfNormal(path);
      assert "/" + folder + (name + suffix) == ("/" + (folder + name)) + suffix;
      LettersJoin("/" + (folder + name), suffix);
      LettersJoin("/", folder + name);
      LettersAll(suffix);
      LettersOfSlash();
      assert |Letters(path)| == |Letters(folder + name)| + |suffix|;
    }
  }

  lemma SelectedById(files: seq<FileRow>, row: FileRow, metaAddr: nat, fsObjId: int, parts: Parts)
    requires row in files && forall i, j :: 0 <= i < j < |files| ==> files[i].objId != files[j].objId
    ensures row.objId in Selected(files, metaAddr, fsObjId, parts) <==> Matches(row, metaAddr, fsObjId, parts)
  {
    var k :| 0 <= k < |files| && files[k] == row;
    if row.objId in Selected(files, metaAddr, fsObjId, parts) {
      var i :| 0 <= i < |files| && Matches(files[i], metaAddr, fsObjId, parts) && files[i].objId == row.objId;
      assert i == k;
    }
  }

  /** A directory first stored under the name of one of its streams answers for the directory,
      although the query finds nothing. */
  lemma StreamAnswersForDirectory(seqNo: U32)
    ensures var dirs := [Dir(1, 5, seqNo, "", "d", ":s", 7)];
            var files := [dirs[0].Row()];
            && RowsOfDirs(files, dirs) && HashSeparates(dirs, 1, 5, "d/")
            && CachedId(dirs, 1, 5, seqNo, "d/") == Some(7)
            && 7 !in Selected(files, 5, 1, Split("d/"))
  {
    hide Split, Letters, PathKey, FirstDir, Normal;
    var d := Dir(1, 5, seqNo, "", "d", ":s", 7);
    OnlyOne(d);
    InsideSharesKey("d");
    assert "" + "d" == "d" && InsideOf("d") == "d/";
    LettersJoin("d", "/");
    LettersOfSlash();
    hide Selected;
    CacheAgreesWithQuery([d.Row()], [d], 1, 5, seqNo, "d/");
  }

  lemma OnlyOne(d: Dir)
    ensures FirstDir([d], d.fsObjId, d.metaAddr, d.seqNo) == Some(d)
  {
    assert [] + [d] == [d];
    FirstDirNext([], d, d.fsObjId, d.metaAddr, d.seqNo);
  }

  /** Two plain directories at one address whose paths differ only in where a slash stands, as
      "a/bc" and "ab/c" do, have one hash, so the first answers for the second. */
  lemma SlashesCollide(a: string, b: string, c: string)
    requires a != "" && b != "" && c != "" && NoSlash(a) && NoSlash(b) && NoSlash(c)
    ensures var k := PathKey(a + "/" + (b + c));
            var dirs := [Dir(1, 5, k, a + "/", b + c, "", 7), Dir(1, 5, k, a + b + "/", c, "", 8)];
            var files, asked := [dirs[0].Row(), dirs[1].Row()], InsideOf(a + b + "/" + c);
            && RowsOfDirs(files, dirs) && dirs[0].Walked() && dirs[1].Walked()
            && HashSeparates(dirs, 1, 5, asked) && PathKey(asked) == k && AskedFor(dirs[1], asked)
            && CachedId(dirs, 1, 5, k, asked) == Some(7)
            && Selected(files, 5, 1, Split(asked)) == {8}
  {
    hide Letters, PathKey, Split, FirstDir, Normal;
    var k, asked := PathKey(a + "/" + (b + c)), InsideOf(a + b + "/" + c);
    var first, second := Dir(1, 5, k, a + "/", b + c, "", 7), Dir(1, 5, k, a + b + "/", c, "", 8);
    SlashesDoNotCount(a, b, c);
    NoSlashJoined(b, c);
    OnlyFirst(first, second);
    SecondIsSelected(first, second, asked);
    PlainRow(second);
    hide Selected, NoSlash;
  }

  lemma PlainRow(d: Dir)
    requires d.Walked() && d.suffix == ""
    ensures !StartsWithSlash(d.path) ==> AskedFor(d, InsideOf(d.path + d.name))
  {
    NormalInside(d.path, d.name);
    hide Normal;
  }

  lemma SecondIsSelected(first: Dir, second: Dir, asked: string)
    requires second.Walked() && second.suffix == "" && !StartsWithSlash(second.path)
    requires asked == InsideOf(second.path + second.name)
    requires first.path != second.path && first.fsObjId == second.fsObjId && first.metaAddr == second.metaAddr
    ensures Selected([first.Row(), second.Row()], second.metaAddr, second.fsObjId, Split(asked)) == {second.objId}
  {
    SplitOfStored(second.path, second.name);
    assert second.name + "" == second.name;
    assert ("/" + first.path)[1..] == first.path && ("/" + second.path)[1..] == second.path;
    hide Split;
    var files := [first.Row(), second.Row()];
    assert Matches(files[1], second.metaAddr, second.fsObjId, Split(asked));
    assert !Matches(files[0], second.metaAddr, second.fsObjId, Split(asked));
  }

  lemma SlashesDoNotCount(a: string, b: string, c: string)
    ensures var one, other := a + "/" + (b + c), a + b + "/" + c;
            && Letters(InsideOf(other)) == Letters(one) == Letters(other)
            && PathKey(InsideOf(other)) == PathKey(one) == PathKey(other)
  {
    hide *;
    var one, other := a + "/" + (b + c), a + b + "/" + c;
    LettersOfSlash();
    LettersJoin(a, "/");
    LettersJoin(a + "/", b + c);
    LettersJoin(b, c);
    LettersJoin(a, b);
    LettersJoin(a + b, "/");
    LettersJoin(a + b + "/", c);
    assert Letters(one) == Letters(other);
    LettersInside(other);
    KeyIgnoresSlashes(one);
    KeyIgnoresSlashes(other);
    InsideSharesKey(other);
  }

  lemma OnlyFirst(first: Dir, second: Dir)
    ensures FirstDir([first, second], first.fsObjId, first.metaAddr, first.seqNo) == Some(first)
  {
    assert [] + [first] == [first] && [first] + [second] == [first, second];
    FirstDirNext([], first, first.fsObjId, first.metaAddr, first.seqNo);
    FirstDirNext([first], second, first.fsObjId, first.metaAddr, first.seqNo);
  }
}

/** The files of a case database, with the cache of their parents. */
module FileLoader {
  import opened Options
  import opened ObjectForest
  import opened PathSplit
  import opened PathHash
  import opened Unsigned
  import opened ParentCache

  datatype MetaType = Directory | VirtualDirectory | OtherType

  datatype Meta = Meta(kind: MetaType, seqNo: U32, compressed: bool)

  datatype Name = Name(name: string, metaAddr: nat, parAddr: nat, parSeq: U32)

  datatype Attribute = Attribute(name: Option<string>, indexRoot: bool, nonResident: bool, allocSize: nat,
                                 initSize: nat)

  datatype FsFile = FsFile(name: Option<Name>, meta: Option<Meta>, ntfs: bool, rootInum: nat)

  /** One call of addFsFile. */
  datatype FileCall = FileCall(file: FsFile, attr: Option<Attribute>, path: string)

  predicate IsDot(name: string) { name == "." || name == ".." }

  predicate IsDirMeta(meta: Option<Meta>) { meta.Some? && meta.value.kind != OtherType }

  /** What the attribute adds to the name column; a directory's own index adds nothing. */
  function Suffix(attr: Option<Attribute>): string {
    if attr.Some? && attr.value.name.Some? && attr.value.name.value != ""
       && (!attr.value.indexRoot || attr.value.name.value != "$I30")
    then ":" + attr.value.name.value
    else ""
  }

  /** Whether the space behind the data becomes a file of its own. */
  predicate HasSlack(attr: Option<Attribute>, meta: Option<Meta>, name: string) {
    && attr.Some? && name != "" && !IsDot(name)
    && !(meta.Some? && meta.value.compressed)
    && attr.value.nonResident && attr.value.allocSize > attr.value.initSize
  }

  /** The meta data is read without a test when an attribute comes with a name other than . and .. */
  predicate MetaGiven(file: FsFile, attr: Option<Attribute>) {
    file.name.Some? && attr.Some? ==>
      var name := file.name.value.name + Suffix(attr);
      name != "" && !IsDot(name) ==> file.meta.Some?
  }

  /** NTFS directories are told apart by sequence numbers, others by the hash of their path. */
  function StoredSeq(file: FsFile, key: U32): U32 {
    if file.ntfs && file.meta.Some? then file.meta.value.seqNo else key
  }

  function AskedSeq(file: FsFile, key: U32): U32
    requires file.name.Some?
  {
    if file.ntfs then file.name.value.parSeq else key
  }

  class FileDb<D> {
    const db: CaseDb<D>
    const buffers: PathBuffers
    var files: seq<FileRow>
    var cache: Cache

    /** The directories handed to the cache so far. */
    ghost var dirs: seq<Dir>

    ghost predicate Valid()
      reads this, db, buffers
    {
      && db.Valid() && buffers.Fit()
      && RowsOfDirs(files, dirs) && Reflects(cache, dirs)
      && FilesInForest()
    }

    /** Every file is an object of the table, and lies in the image of its file system. */
    ghost predicate FilesInForest()
      requires db.Valid()
      reads this, db
    {
      forall row <- files :: RowInImage(db.objects, row)
    }

    constructor (db: CaseDb<D>)
      requires db.Valid()
      ensures Valid() && this.db == db && files == [] && dirs == [] && fresh(buffers)
    {
      this.db := db;
      buffers := new PathBuffers();
      files, cache, dirs := [], map[], [];
    }

    /** storeObjId: a directory fills its bucket unless an earlier one did. */
    method StoreObjId(fsObjId: int, file: FsFile, path: string, objId: int, ghost d: Dir)
      requires file.name.Some? && file.meta.Some?
      requires Reflects(cache, dirs)
      requires d.path + d.name == path && d.At(fsObjId, file.name.value.metaAddr, StoredSeq(file, PathKey(path)))
      requires d.objId == objId
      modifies this`cache, this`dirs
      ensures Reflects(cache, dirs)
      ensures dirs == if IsDot(file.name.value.name) then old(dirs) else old(dirs) + [d]
    {
      var name := file.name.value;
      if IsDot(name.name) {
        return;
      }
      var pathHash := Hash(path);
      var seqNo := if file.ntfs then file.meta.value.seqNo else pathHash;
      assert d.Key() == pathHash && d.seqNo == seqNo;
      hide PathKey, FirstDir, Reflects;
      var fsMap: FsCache := if fsObjId in cache then cache[fsObjId] else map[];
      ghost var was := fsMap;
      assert forall a, s :: BucketIn(was, a, s) == BucketOf(cache, fsObjId, a, s);
      if name.metaAddr !in fsMap {
        fsMap := fsMap[name.metaAddr := map[seqNo := map[pathHash := objId]]];
      } else {
        var fileMap := fsMap[name.metaAddr];
        if seqNo !in fileMap {
          fileMap := fileMap[seqNo := map[pathHash := objId]];
        }
        fsMap := fsMap[name.metaAddr := fileMap];
      }
      FillIn(was, d);
      assert fsMap == FilledMap(was, d);
      FillBucket(cache, fsObjId, fsMap, d);
      StillReflects(cache, cache[fsObjId := fsMap], dirs, d);
      cache := cache[fsObjId := fsMap];
      dirs := dirs + [d];
    }

    /** findParObjId: the cache is asked first, then the table. */
    method FindParObjId(file: FsFile, parentPath: string, fsObjId: int) returns (parObjId: int)
      requires Valid() && file.name.Some?
      modifies this`cache, buffers
      ensures Valid() && FoundParent(files, dirs, file, parentPath, fsObjId, parObjId)
    {
      hide PathKey, Split, FirstDir, FoundParent, Selected, FirstBucket, IdIn, RowsOfDirs, Reflects;
      var name := file.name.value;
      var pathHash := Hash(parentPath);
      var seqNo := if file.ntfs then name.parSeq else pathHash;
      var cached := AskCache(fsObjId, name.parAddr, seqNo, pathHash);
      FoundEither(files, dirs, file, parentPath, fsObjId, seqNo);
      if cached.Some? {
        return cached.value;
      }
      var failed, path, parentName := buffers.GetParentPathAndName(parentPath);
      if failed {
        return -1;
      }
      parObjId := SelectFile(name.parAddr, fsObjId, path, parentName);
    }

    /** The lookup in the nested map, which makes an empty map for a file system it does not know. */
    method AskCache(fsObjId: int, metaAddr: nat, seqNo: U32, pathHash: U32) returns (cached: Option<int>)
      requires Reflects(cache, dirs)
      modifies this`cache
      ensures Reflects(cache, dirs) && cached == IdIn(FirstBucket(dirs, fsObjId, metaAddr, seqNo), pathHash)
    {
      if fsObjId !in cache {
        EmptyMapReflects(cache, fsObjId, dirs);
        cache := cache[fsObjId := map[]];
      }
      assert BucketOf(cache, fsObjId, metaAddr, seqNo) == FirstBucket(dirs, fsObjId, metaAddr, seqNo);
      hide Reflects, FirstBucket;
      var fsMap := cache[fsObjId];
      if metaAddr in fsMap {
        var fileMap := fsMap[metaAddr];
        if seqNo in fileMap {
          var pathMap := fileMap[seqNo];
          if pathHash in pathMap {
            return Some(pathMap[pathHash]);
          }
        }
      }
      return None;
    }

    /** The parent query: the first row it yields, in whatever order. */
    method SelectFile(metaAddr: nat, fsObjId: int, path: string, name: string) returns (objId: int)
      ensures var ids := Selected(files, metaAddr, fsObjId, Parts(path, name));
              if ids == {} then objId == -1 else objId in ids
    {
      var ids := Selected(files, metaAddr, fsObjId, Parts(path, name));
      if ids == {} {
        return -1;
      }
      objId :| objId in ids;
    }

    /** Inserts an object and its row of tsk_files. */
    method InsertFile(fsObjId: int, parObjId: int, metaAddr: nat, path: string, name: string) returns (objId: int)
      requires Valid() && BelongsTo(parObjId, fsObjId)
      modifies this`files, db
      ensures Valid() && objId !in old(db.objects) && BelongsTo(parObjId, fsObjId)
      ensures db.objects == old(db.objects)[objId := ObjectRow(parObjId, File)] && db.fsInfos == old(db.fsInfos)
      ensures files == old(files) + [FileRow(objId, fsObjId, metaAddr, path, name)]
    {
      ghost var before := db.objects;
      objId := db.AddObject(File, parObjId);
      RowsStayInImage(before, db.objects, files);
      RootStays(before, db.objects, fsObjId);
      RootStays(before, db.objects, parObjId);
      NewRow(before, files, dirs, FileRow(objId, fsObjId, metaAddr, path, name));
      files := files + [FileRow(objId, fsObjId, metaAddr, path, name)];
    }

    /** The parent lies in the same image as the file system. */
    ghost predicate BelongsTo(parObjId: int, fsObjId: int)
      requires db.Valid()
      reads this, db
    {
      && fsObjId in db.objects && parObjId in db.objects
      && RootOf(db.objects, parObjId) == RootOf(db.objects, fsObjId)
    }

    /** addFile: the file's row, its cache entry when it is a directory, and a row for its slack. */
    method AddFile(file: FsFile, attr: Option<Attribute>, path: string, fsObjId: int, parObjId: int)
      returns (objId: Option<int>)
      requires Valid() && BelongsTo(parObjId, fsObjId)
      requires MetaGiven(file, attr)
      modifies this, db
      ensures Valid() && db.fsInfos == old(db.fsInfos) && Extends(old(db.objects), db.objects)
      ensures file.name.None? ==>
                objId == None && files == old(files) && dirs == old(dirs) && db.objects == old(db.objects)
      ensures file.name.Some? ==> 
          && NewRows(old(files), files, file, attr, path, fsObjId)
          && NewDirs(old(files), files, old(dirs), dirs, file, attr, path, fsObjId)
          && objId == Some(files[|files| - 1].objId)
          && NewObjects(old(files), files, old(db.objects), db.objects, parObjId)
    {
      if file.name.None? {
        return None;
      }
      hide *;
      ghost var objects, rows, known := db.objects, files, dirs;
      var metaAddr := file.name.value.metaAddr;
      var name := file.name.value.name + Suffix(attr);
      var escapedPath := "/" + path;
      var newId := InsertFile(fsObjId, parObjId, metaAddr, escapedPath, name);
      ghost var row := FileRow(newId, fsObjId, metaAddr, escapedPath, name);
      RowOfDir(file, attr, path, fsObjId, newId);
      AddDirectory(file, attr, path, fsObjId, newId);
      if HasSlack(attr, file.meta, name) {
        newId := InsertFile(fsObjId, parObjId, metaAddr, escapedPath, name + "-slack");
        ghost var slack := FileRow(newId, fsObjId, metaAddr, escapedPath, name + "-slack");
        assert rows + [row] + [slack] == rows + [row, slack];
        TwoRows(objects, rows, row, slack, known, file, attr, path, fsObjId, parObjId);
      } else {
        OneRow(objects, rows, row, known, file, attr, path, fsObjId, parObjId);
      }
      objId := Some(newId);
    }

    /** A directory is handed to the cache. */
    method AddDirectory(file: FsFile, attr: Option<Attribute>, path: string, fsObjId: int, objId: int)
      requires Valid() && file.name.Some? && DirOf(file, attr, path, fsObjId, objId).Row() in files
      modifies this`cache, this`dirs
      ensures Valid() && dirs == old(dirs) + DirsOf(file, attr, path, fsObjId, objId)
    {
      hide PathKey, Suffix, FirstDir, Reflects, RowsOfDirs;
      if IsDirMeta(file.meta) {
        var fullPath := path + file.name.value.name;
        ghost var d := DirOf(file, attr, path, fsObjId, objId);
        DirHasRow(files, dirs, d);
        StoreObjId(fsObjId, file, fullPath, objId, d);
      }
    }

    /** addFsFile: the nameless root hangs below its file system, every other file below its parent
        folder, if that can be found. */
    method AddFsFile(file: FsFile, attr: Option<Attribute>, path: string, fsObjId: int)
      returns (failed: bool, objId: Option<int>, ghost parObjId: int)
      requires Valid() && fsObjId in db.objects
      requires MetaGiven(file, attr)
      modifies this, db, buffers
      ensures Valid() && db.fsInfos == old(db.fsInfos) && Extends(old(db.objects), db.objects)
      ensures file.name.None? ==> !failed && objId == None && files == old(files) && dirs == old(dirs)
      ensures file.name.Some? && IsRoot(file) ==> !failed && parObjId == fsObjId
      ensures file.name.Some? && !IsRoot(file) ==>
          FoundParent(old(files), old(dirs), file, path, fsObjId, parObjId) && (failed <==> parObjId == -1)
      ensures failed ==> files == old(files) && dirs == old(dirs) && db.objects == old(db.objects)
      ensures file.name.Some? && !failed ==>
          && NewRows(old(files), files, file, attr, path, fsObjId)
          && NewDirs(old(files), files, old(dirs), dirs, file, attr, path, fsObjId)
          && objId == Some(files[|files| - 1].objId)
          && NewObjects(old(files), files, old(db.objects), db.objects, parObjId)
    {
      hide PathKey, FirstDir, FirstBucket, Reflects, RowsOfDirs, Forest, FsKnown, RootOf, RowInImage, HasSlack,
        Suffix, IsDirMeta, IsDot, FoundParent, NewRows, NewDirs, NewObjects, DirOf;
      if file.name.None? {
        return false, None, 0;
      }
      var parent := fsObjId;
      if !IsRoot(file) {
        parent := FindParObjId(file, path, fsObjId);
        ParentIsFile(file, path, fsObjId, parent);
        if parent == -1 {
          return true, None, parent;
        }
      }
      parObjId := parent;
      objId := AddFile(file, attr, path, fsObjId, parent);
      failed := false;
    }

    /** Any run of insertions: rows and directories are only added, and a bucket once written stays.
        The parent of each file is what was found in the table it met; in a clear run it is one the
        query alone could give. */
    method AddFiles(calls: seq<FileCall>, fsObjId: int)
      returns (failures: nat, ghost parents: seq<int>, ghost tables: seq<seq<FileRow>>)
      requires Valid() && fsObjId in db.objects
      requires forall call <- calls :: MetaGiven(call.file, call.attr)
      modifies this, db, buffers
      ensures Valid() && old(files) <= files && old(dirs) <= dirs && Extends(old(db.objects), db.objects)
      ensures forall f, a, s ::
                BucketOf(old(cache), f, a, s).Some? ==> BucketOf(cache, f, a, s) == BucketOf(old(cache), f, a, s)
      ensures |parents| == |tables| == |calls| && forall k :: 0 <= k < |calls| ==> tables[k] <= files
      ensures ClearRun(old(dirs), calls, fsObjId) ==>
                forall k :: 0 <= k < |calls| ==> QueryCouldGive(calls[k], tables[k], fsObjId, parents[k])
    {
      hide PathKey, FirstDir, Reflects, RowsOfDirs, Forest, RootOf, FsKnown, FilesInForest, ClearRun,
        AllDistinguished, QueryCouldGive;
      StartsDistinguished(dirs, calls, fsObjId);
      ghost var start, atFirst := dirs, cache;
      failures := 0;
      parents, tables := [], [];
      for k := 0 to |calls|
        invariant Valid() && fsObjId in db.objects
        invariant old(files) <= files && old(dirs) <= dirs && Extends(old(db.objects), db.objects)
        invariant |parents| == |tables| == k && forall j :: 0 <= j < k ==> tables[j] <= files
        invariant ClearRun(old(dirs), calls, fsObjId) ==> AllDistinguished(dirs, calls, fsObjId)
        invariant ClearRun(old(dirs), calls, fsObjId) ==>
                    forall j :: 0 <= j < k ==> QueryCouldGive(calls[j], tables[j], fsObjId, parents[j])
      {
        var failed;
        ghost var parent, table;
        failed, parent, table := AddOne(calls, k, fsObjId, old(dirs));
        parents, tables := parents + [parent], tables + [table];
        if failed {
          failures := failures + 1;
        }
      }
      BucketsStay(atFirst, start, cache, dirs);
    }

    /** One call of a run. */
    method AddOne(calls: seq<FileCall>, k: nat, fsObjId: int, ghost start: seq<Dir>)
      returns (failed: bool, ghost parent: int, ghost table: seq<FileRow>)
      requires Valid() && fsObjId in db.objects && k < |calls| && MetaGiven(calls[k].file, calls[k].attr)
      modifies this, db, buffers
      ensures Valid() && old(files) <= files && old(dirs) <= dirs && Extends(old(db.objects), db.objects)
      ensures table == old(files)
      ensures ClearRun(start, calls, fsObjId) && AllDistinguished(old(dirs), calls, fsObjId) ==>
                AllDistinguished(dirs, calls, fsObjId) && QueryCouldGive(calls[k], table, fsObjId, parent)
    {
      table := files;
      ghost var before := dirs;
      var call := calls[k];
      hide ClearRun, AllDistinguished, Distinguished, Reflects, Forest, PathKey, FirstDir, Split, FoundParent,
        NewRows, NewObjects;
      var objId;
      failed, objId, parent := AddFsFile(call.file, call.attr, call.path, fsObjId);
      if ClearRun(start, calls, fsObjId) && AllDistinguished(before, calls, fsObjId) && call.file.name.Some? {
        if !failed {
          MoreRows(table, files, call.file, call.attr, call.path, fsObjId);
          StaysDistinguished(table, files, start, before, dirs, calls, call, fsObjId);
        }
        ClearPath(start, calls, call, fsObjId);
        if !IsRoot(call.file) {
          AnswersInClearRun(table, before, calls, call, fsObjId, parent);
        }
      }
    }

    lemma IdsArePositive()
      requires Valid()
      ensures RowsOfDirs(files, dirs) && forall row <- files :: row.objId > 0
    {
      hide Reflects, RowsOfDirs, RootOf;
      forall row <- files ensures row.objId > 0 {
        assert RowInImage(db.objects, row) && RowInForest(db.objects, row.objId);
      }
    }

    /** A parent that was found lies in the image of the file system. */
    lemma ParentIsFile(file: FsFile, path: string, fsObjId: int, parObjId: int)
      requires Valid() && file.name.Some? && FoundParent(files, dirs, file, path, fsObjId, parObjId)
      ensures parObjId != -1 ==> BelongsTo(parObjId, fsObjId)
    {
      hide FirstDir, Split, PathKey, Reflects;
      if parObjId != -1 {
        var row := RowOfParent(files, dirs, file, path, fsObjId, parObjId);
        assert RowInImage(db.objects, row);
      }
    }
  }

  /** The root directory has no name. */
  predicate IsRoot(file: FsFile)
    requires file.name.Some?
  {
    file.rootInum == file.name.value.metaAddr && file.name.value.name == ""
  }

  /** What findParObjId returns: the cached id, or else what the query finds. */
  ghost predicate FoundParent(files: seq<FileRow>, dirs: seq<Dir>, file: FsFile, path: string, fsObjId: int,
                              parObjId: int)
    requires file.name.Some?
  {
    var name := file.name.value;
    match CachedId(dirs, fsObjId, name.parAddr, AskedSeq(file, PathKey(path)), path)
    case Some(id) => parObjId == id
    case None => Answers(parObjId, path, Selected(files, name.parAddr, fsObjId, Split(path)))
  }

  function IdIn(bucket: Option<Bucket>, pathHash: U32): Option<int> {
    if bucket.Some? && pathHash in bucket.value then Some(bucket.value[pathHash]) else None
  }

  lemma OneKey(key: U32, id: int, asked: U32)
    ensures IdIn(Some(map[key := id]), asked) == if key == asked then Some(id) else None
  {
    if key == asked {
      assert map[key := id] == map[asked := id];
    }
  }

  lemma FoundEither(files: seq<FileRow>, dirs: seq<Dir>, file: FsFile, path: string, fsObjId: int, seqNo: U32)
    requires file.name.Some? && seqNo == if file.ntfs then file.name.value.parSeq else PathKey(path)
    ensures var name := file.name.value;
            var cached := IdIn(FirstBucket(dirs, fsObjId, name.parAddr, seqNo), PathKey(path));
            && (cached.Some? ==> FoundParent(files, dirs, file, path, fsObjId, cached.value))
            && (cached.None? ==> forall id :: Answers(id, path, Selected(files, name.parAddr, fsObjId, Split(path)))
                                          ==> FoundParent(files, dirs, file, path, fsObjId, id))
  {
    hide PathKey, Split, FirstDir;
    var name := file.name.value;
    var first := FirstDir(dirs, fsObjId, name.parAddr, seqNo);
    if first.Some? {
      OneKey(first.value.Key(), first.value.objId, PathKey(path));
    }
  }

  lemma RowOfParent(files: seq<FileRow>, dirs: seq<Dir>, file: FsFile, path: string, fsObjId: int, parObjId: int)
    returns (row: FileRow)
    requires file.name.Some? && RowsOfDirs(files, dirs) && FoundParent(files, dirs, file, path, fsObjId, parObjId)
    requires parObjId != -1
    ensures row in files && row.objId == parObjId && row.fsObjId == fsObjId
  {
    hide Split, PathKey;
    var name := file.name.value;
    var seqNo := AskedSeq(file, PathKey(path));
    var cached := CachedId(dirs, fsObjId, name.parAddr, seqNo, path);
    if cached.Some? {
      row := FirstDir(dirs, fsObjId, name.parAddr, seqNo).value.Row();
    } else {
      var k :| 0 <= k < |files| && Matches(files[k], name.parAddr, fsObjId, Split(path)) && files[k].objId == parObjId;
      row := files[k];
    }
  }

  /** The cache cannot be noticed exactly when it has no answer, or the folder asked for is not too
      long for the query and is the one the cached directory was stored for. */
  lemma CacheIsTransparent(files: seq<FileRow>, dirs: seq<Dir>, file: FsFile, path: string, fsObjId: int, parObjId: int)
    requires file.name.Some? && RowsOfDirs(files, dirs) && FoundParent(files, dirs, file, path, fsObjId, parObjId)
    requires HashSeparates(dirs, fsObjId, file.name.value.parAddr, path)
    requires forall d <- dirs :: d.objId > 0 && d.Walked()
    ensures var name := file.name.value;
            var first := FirstDir(dirs, fsObjId, name.parAddr, AskedSeq(file, PathKey(path)));
            var cached := first.Some? && first.value.Key() == PathKey(path);
            Answers(parObjId, path, Selected(files, name.parAddr, fsObjId, Split(path)))
            <==> (cached ==> |path| < MAX_PATH_LENGTH && AskedFor(first.value, path))
  {
    var seqNo := AskedSeq(file, PathKey(path));
    hide PathKey, Split, FirstDir, Normal, Letters;
    if CachedId(dirs, fsObjId, file.name.value.parAddr, seqNo, path).Some? {
      CacheAgreesWithQuery(files, dirs, fsObjId, file.name.value.parAddr, seqNo, path);
      hide Selected, AskedFor;
    }
  }

  /** The directory is not taken for the folder a call asks for: if it has its address and hash, it
      is that folder, stored without a suffix. */
  predicate Distinguished(d: Dir, call: FileCall, fsObjId: int)
    requires call.file.name.Some?
  {
    d.fsObjId == fsObjId && d.metaAddr == call.file.name.value.parAddr && d.Key() == PathKey(call.path)
    ==> d.Walked() && AskedFor(d, call.path)
  }

  /** Neither the directories already there nor those of the calls are taken for the folder that a
      call asks for, and no such folder is too long. */
  ghost predicate ClearRun(dirs: seq<Dir>, calls: seq<FileCall>, fsObjId: int) {
    forall q <- calls :: q.file.name.Some? ==>
      && |q.path| < MAX_PATH_LENGTH
      && (forall d <- dirs :: Distinguished(d, q, fsObjId))
      && (forall c <- calls :: c.file.name.Some? && IsDirMeta(c.file.meta) ==>
            Distinguished(DirOf(c.file, c.attr, c.path, fsObjId, 0), q, fsObjId))
  }

  /** Every directory of the cache is distinguished from every folder asked for. */
  ghost predicate AllDistinguished(dirs: seq<Dir>, calls: seq<FileCall>, fsObjId: int) {
    forall q <- calls, d <- dirs :: q.file.name.Some? ==> Distinguished(d, q, fsObjId)
  }

  /** The parent of a named file other than the root is one the query alone could give. */
  predicate QueryCouldGive(call: FileCall, files: seq<FileRow>, fsObjId: int, parObjId: int) {
    call.file.name.Some? && !IsRoot(call.file) ==>
      Answers(parObjId, call.path, Selected(files, call.file.name.value.parAddr, fsObjId, Split(call.path)))
  }

  lemma StartsDistinguished(dirs: seq<Dir>, calls: seq<FileCall>, fsObjId: int)
    ensures ClearRun(dirs, calls, fsObjId) ==> AllDistinguished(dirs, calls, fsObjId)
  {
    hide Distinguished;
  }

  lemma BucketsStay(cache: Cache, dirs: seq<Dir>, later: Cache, all: seq<Dir>)
    requires Reflects(cache, dirs) && Reflects(later, all) && dirs <= all
    ensures forall f, a, s :: BucketOf(cache, f, a, s).Some? ==> BucketOf(later, f, a, s) == BucketOf(cache, f, a, s)
  {
    assert all == dirs + all[|dirs|..];
    hide Reflects;
    forall f, a, s ensures BucketOf(cache, f, a, s).Some? ==> BucketOf(later, f, a, s) == BucketOf(cache, f, a, s) {
      BucketsNeverChange(cache, dirs, later, all[|dirs|..], f, a, s);
    }
  }

  lemma ClearPath(dirs: seq<Dir>, calls: seq<FileCall>, call: FileCall, fsObjId: int)
    requires ClearRun(dirs, calls, fsObjId) && call in calls && call.file.name.Some?
    ensures |call.path| < MAX_PATH_LENGTH
  {
  }

  lemma MoreRows(before: seq<FileRow>, after: seq<FileRow>, file: FsFile, attr: Option<Attribute>, path: string,
                 fsObjId: int)
    requires file.name.Some? && NewRows(before, after, file, attr, path, fsObjId)
    ensures before <= after && |before| < |after|
  {
  }

  lemma StaysDistinguished(before: seq<FileRow>, after: seq<FileRow>, start: seq<Dir>, oldDirs: seq<Dir>,
                           newDirs: seq<Dir>, calls: seq<FileCall>, call: FileCall, fsObjId: int)
    requires ClearRun(start, calls, fsObjId) && call in calls && call.file.name.Some? && |before| < |after|
    requires AllDistinguished(oldDirs, calls, fsObjId)
    requires NewDirs(before, after, oldDirs, newDirs, call.file, call.attr, call.path, fsObjId)
    ensures AllDistinguished(newDirs, calls, fsObjId)
  {
    forall q <- calls, d <- newDirs | q.file.name.Some? ensures Distinguished(d, q, fsObjId) {
      if d !in oldDirs {
        assert Distinguished(DirOf(call.file, call.attr, call.path, fsObjId, 0), q, fsObjId);
        hide PathKey, Normal, Suffix;
      }
    }
  }

  lemma AnswersInClearRun(files: seq<FileRow>, dirs: seq<Dir>, calls: seq<FileCall>, call: FileCall, fsObjId: int,
                          parObjId: int)
    requires call in calls && call.file.name.Some? && |call.path| < MAX_PATH_LENGTH && RowsOfDirs(files, dirs)
    requires AllDistinguished(dirs, calls, fsObjId)
    requires FoundParent(files, dirs, call.file, call.path, fsObjId, parObjId)
    ensures Answers(parObjId, call.path, Selected(files, call.file.name.value.parAddr, fsObjId, Split(call.path)))
  {
    var name, path := call.file.name.value, call.path;
    var seqNo := AskedSeq(call.file, PathKey(path));
    hide PathKey, Split, FirstDir, Normal, RowsOfDirs;
    if CachedId(dirs, fsObjId, name.parAddr, seqNo, path).Some? {
      var d := FirstDir(dirs, fsObjId, name.parAddr, seqNo).value;
      assert Distinguished(d, call, fsObjId);
      CacheMeetsQuery(files, dirs, fsObjId, name.parAddr, seqNo, path);
      assert d.name + "" == d.name && "/" + d.path + (d.name + "") == "/" + d.path + d.name;
      hide Selected;
    }
  }

  /** addFile writes a row for the file and, when it has slack, one for the slack. */
  ghost predicate NewRows(before: seq<FileRow>, after: seq<FileRow>, file: FsFile, attr: Option<Attribute>,
                          path: string, fsObjId: int)
    requires file.name.Some?
  {
    var n, name := |before|, file.name.value.name + Suffix(attr);
    var slack := HasSlack(attr, file.meta, name);
    && before <= after && |after| == n + (if slack then 2 else 1)
    && after[n] == FileRow(after[n].objId, fsObjId, file.name.value.metaAddr, "/" + path, name)
    && (slack ==>
          after[n + 1] == FileRow(after[n + 1].objId, fsObjId, file.name.value.metaAddr, "/" + path, name + "-slack"))
  }

  /** The rows are new objects with the given parent. */
  ghost predicate NewObjects(before: seq<FileRow>, after: seq<FileRow>, oldObjects: Objects, newObjects: Objects,
                             parObjId: int)
  {
    && Extends(oldObjects, newObjects)
    && forall k :: |before| <= k < |after| ==>
        && after[k].objId !in oldObjects && after[k].objId in newObjects
        && newObjects[after[k].objId] == ObjectRow(parObjId, File)
  }

  function DirOf(file: FsFile, attr: Option<Attribute>, path: string, fsObjId: int, objId: int): Dir
    requires file.name.Some?
  {
    var name := file.name.value;
    Dir(fsObjId, name.metaAddr, StoredSeq(file, PathKey(path + name.name)), path, name.name, Suffix(attr), objId)
  }

  /** What is handed to the cache: a directory other than . and .. */
  function DirsOf(file: FsFile, attr: Option<Attribute>, path: string, fsObjId: int, objId: int): seq<Dir>
    requires file.name.Some?
  {
    if IsDirMeta(file.meta) && !IsDot(file.name.value.name) then [DirOf(file, attr, path, fsObjId, objId)] else []
  }

  /** A directory is handed to the cache under its own row, not that of its slack. */
  ghost predicate NewDirs(before: seq<FileRow>, after: seq<FileRow>, oldDirs: seq<Dir>, newDirs: seq<Dir>, file: FsFile,
                          attr: Option<Attribute>, path: string, fsObjId: int)
    requires file.name.Some? && |before| < |after|
  {
    newDirs == oldDirs + DirsOf(file, attr, path, fsObjId, after[|before|].objId)
  }

  // ----- steps of the proofs

  lemma RowOfDir(file: FsFile, attr: Option<Attribute>, path: string, fsObjId: int, objId: int)
    requires file.name.Some?
    ensures DirOf(file, attr, path, fsObjId, objId).Row()
         == FileRow(objId, fsObjId, file.name.value.metaAddr, "/" + path, file.name.value.name + Suffix(attr))
  {
    hide PathKey, Suffix;
  }

  lemma OneRow(objects: Objects, rows: seq<FileRow>, row: FileRow, known: seq<Dir>, file: FsFile,
               attr: Option<Attribute>, path: string, fsObjId: int, parObjId: int)
    requires file.name.Some? && !HasSlack(attr, file.meta, file.name.value.name + Suffix(attr))
    requires row
             == FileRow(row.objId, fsObjId, file.name.value.metaAddr, "/" + path, file.name.value.name + Suffix(attr))
    requires row.objId !in objects
    ensures var (all, after) := (rows + [row], objects[row.objId := ObjectRow(parObjId, File)]);
            && NewRows(rows, all, file, attr, path, fsObjId) && NewObjects(rows, all, objects, after, parObjId)
            && NewDirs(rows, all, known, known + DirsOf(file, attr, path, fsObjId, row.objId),
                       file, attr, path, fsObjId)
            && Extends(objects, after)
  {
    hide HasSlack, Suffix, DirsOf;
  }

  lemma TwoRows(objects: Objects, rows: seq<FileRow>, row: FileRow, slack: FileRow, known: seq<Dir>, file: FsFile,
                attr: Option<Attribute>, path: string, fsObjId: int, parObjId: int)
    requires file.name.Some? && HasSlack(attr, file.meta, file.name.value.name + Suffix(attr))
    requires row
             == FileRow(row.objId, fsObjId, file.name.value.metaAddr, "/" + path, file.name.value.name + Suffix(attr))
    requires slack == row.(objId := slack.objId, name := file.name.value.name + Suffix(attr) + "-slack")
    requires row.objId !in objects && slack.objId !in objects && row.objId != slack.objId
    ensures var (all, fileObject) := (rows + [row, slack], ObjectRow(parObjId, File));
            var after := objects[row.objId := fileObject][slack.objId := fileObject];
            && NewRows(rows, all, file, attr, path, fsObjId) && NewObjects(rows, all, objects, after, parObjId)
            && NewDirs(rows, all, known, known + DirsOf(file, attr, path, fsObjId, row.objId),
                       file, attr, path, fsObjId)
            && Extends(objects, after)
  {
    hide HasSlack, Suffix, DirsOf;
  }

  lemma RowsStayInImage(before: Objects, after: Objects, files: seq<FileRow>)
    requires Forest(before) && Forest(after) && Extends(before, after)
    requires forall row <- files :: RowInImage(before, row)
    ensures forall row <- files :: RowInImage(after, row)
  {
    forall row <- files ensures RowInImage(after, row) {
      RootStays(before, after, row.objId);
      RootStays(before, after, row.fsObjId);
    }
  }

  lemma NewRow(objects: Objects, files: seq<FileRow>, dirs: seq<Dir>, row: FileRow)
    requires Forest(objects) && RowsOfDirs(files, dirs) && row.objId !in objects
    requires forall r <- files :: RowInImage(objects, r)
    ensures RowsOfDirs(files + [row], dirs)
  {
    forall i | 0 <= i < |files| ensures files[i].objId != row.objId {
      assert RowInImage(objects, files[i]);
    }
  }

  lemma DirHasRow(files: seq<FileRow>, dirs: seq<Dir>, d: Dir)
    requires RowsOfDirs(files, dirs) && d.Row() in files
    ensures RowsOfDirs(files, dirs + [d])
  {
  }

  lemma EmptyMapReflects(cache: Cache, fsObjId: int, dirs: seq<Dir>)
    requires Reflects(cache, dirs) && fsObjId !in cache
    ensures Reflects(cache[fsObjId := map[]], dirs)
  {
    hide FirstBucket;
    forall f, a, s ensures BucketOf(cache[fsObjId := map[]], f, a, s) == BucketOf(cache, f, a, s) {
    }
  }

  function FilledAt(bucket: Option<Bucket>, d: Dir, fsObjId: int, metaAddr: nat, seqNo: U32): Option<Bucket> {
    if bucket.None? && d.At(fsObjId, metaAddr, seqNo) then Some(map[d.Key() := d.objId]) else bucket
  }

  /** One bucket was filled if it was empty. */
  ghost predicate Filled(before: Cache, after: Cache, d: Dir) {
    forall f, a, s :: BucketOf(after, f, a, s) == FilledAt(BucketOf(before, f, a, s), d, f, a, s)
  }

  /** The cache of one file system after a directory was stored. */
  function FilledMap(fsMap: FsCache, d: Dir): FsCache {
    var bucket := map[d.Key() := d.objId];
    if d.metaAddr !in fsMap then fsMap[d.metaAddr := map[d.seqNo := bucket]]
    else if d.seqNo !in fsMap[d.metaAddr] then fsMap[d.metaAddr := fsMap[d.metaAddr][d.seqNo := bucket]]
    else fsMap
  }

  lemma FillIn(fsMap: FsCache, d: Dir)
    ensures forall a, s :: BucketIn(FilledMap(fsMap, d), a, s) == FilledAt(BucketIn(fsMap, a, s), d, d.fsObjId, a, s)
  {
  }

  lemma FillBucket(cache: Cache, fsObjId: int, fsMap: FsCache, d: Dir)
    requires d.fsObjId == fsObjId
    requires forall a, s :: BucketIn(fsMap, a, s) == FilledAt(BucketOf(cache, fsObjId, a, s), d, fsObjId, a, s)
    ensures Filled(cache, cache[fsObjId := fsMap], d)
  {
    var after := cache[fsObjId := fsMap];
    forall f, a, s ensures BucketOf(after, f, a, s) == FilledAt(BucketOf(cache, f, a, s), d, f, a, s) {
      if f == fsObjId {
        assert BucketOf(after, f, a, s) == BucketIn(fsMap, a, s);
      } else {
        assert BucketOf(after, f, a, s) == BucketOf(cache, f, a, s);
      }
    }
  }

  lemma StillReflects(before: Cache, after: Cache, dirs: seq<Dir>, d: Dir)
    requires Reflects(before, dirs) && Filled(before, after, d)
    ensures Reflects(after, dirs + [d])
  {
    forall f, a, s ensures BucketOf(after, f, a, s) == FirstBucket(dirs + [d], f, a, s) {
      FirstDirNext(dirs, d, f, a, s);
      assert BucketOf(before, f, a, s) == FirstBucket(dirs, f, a, s);
      hide FirstDir;
    }
  }

  ghost predicate RowInImage(objects: Objects, row: FileRow)
    requires Forest(objects)
  {
    && row.objId in objects && row.fsObjId in objects
    && RootOf(objects, row.objId) == RootOf(objects, row.fsObjId)
  }

  /** The query's answer: one of the ids it found, or -1. */
  predicate Answers(parObjId: int, path: string, selected: set<int>) {
    if |path| >= MAX_PATH_LENGTH || selected == {} then parObjId == -1 else parObjId in selected
  }
}
