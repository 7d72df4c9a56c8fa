/** The rows and cache entries of inserted files, and the parent that is looked up, told in the terms
    of the fields that come in. */
module FileRows {
  import opened Options
  import opened Unsigned
  import opened PathSplit
  import opened PathHash
  import opened ParentCache
  import opened FileLoader

  /** No attribute, one without a name, or the index of a directory. */
  predicate AddsNothing(attr: Option<Attribute>) {
    || attr.None? || attr.value.name.None? || attr.value.name.value == ""
    || (attr.value.indexRoot && attr.value.name.value == "$I30")
  }

  /** The columns of the row: the name column holds the attribute's name behind a colon, but for those
      that add nothing. */
  lemma NameColumn(before: seq<FileRow>, after: seq<FileRow>, file: FsFile, attr: Option<Attribute>, path: string,
                   fsObjId: int)
    requires file.name.Some? && NewRows(before, after, file, attr, path, fsObjId)
    ensures |before| < |after| && before == after[..|before|]
    ensures var (row, name) := (after[|before|], file.name.value);
            && row.fsObjId == fsObjId && row.metaAddr == name.metaAddr && row.parentPath == "/" + path
            && (AddsNothing(attr) ==> row.name == name.name)
            && (!AddsNothing(attr) ==> row.name == name.name + ":" + attr.value.name.value)
  {
    if AddsNothing(attr) {
      assert file.name.value.name + "" == file.name.value.name;
    } else {
      var attribute := attr.value.name.value;
      assert file.name.value.name + (":" + attribute) == file.name.value.name + ":" + attribute;
    }
    hide HasSlack;
  }

  /** There is a second row exactly for data outside of the meta data, not compressed, with more space
      than is initialised, of a file whose name column is neither empty nor a dot entry. */
  lemma SlackRow(before: seq<FileRow>, after: seq<FileRow>, file: FsFile, attr: Option<Attribute>, path: string,
                 fsObjId: int)
    requires file.name.Some? && NewRows(before, after, file, attr, path, fsObjId)
    ensures |before| < |after| <= |before| + 2
    ensures var row := after[|before|];
            && (|after| == |before| + 2
                <==> && row.name != "" && row.name != "." && row.name != ".." && attr.Some? && attr.value.nonResident
                     && attr.value.allocSize > attr.value.initSize && !(file.meta.Some? && file.meta.value.compressed))
            && (|after| == |before| + 2 ==>
                  var slack := after[|before| + 1];
                  && slack.name == row.name + "-slack" && slack.parentPath == row.parentPath
                  && slack.metaAddr == row.metaAddr && slack.fsObjId == row.fsObjId)
  {
    hide Suffix;
  }

  /** Directories other than the dot entries come into the cache, with the id of their own row. NTFS
      has sequences for them, other file systems the hash of their path. */
  lemma CacheEntry(before: seq<FileRow>, after: seq<FileRow>, known: seq<Dir>, dirs: seq<Dir>, file: FsFile,
                   attr: Option<Attribute>, path: string, fsObjId: int)
    requires file.name.Some? && NewRows(before, after, file, attr, path, fsObjId) && |before| < |after|
    requires NewDirs(before, after, known, dirs, file, attr, path, fsObjId)
    ensures var name := file.name.value;
            if file.meta.None? || file.meta.value.kind == OtherType || name.name == "." || name.name == ".." then
              dirs == known
            else
              && |dirs| == |known| + 1 && known == dirs[..|known|]
              && var (d, row) := (dirs[|known|], after[|before|]);
                 && d.objId == row.objId && d.fsObjId == fsObjId && d.metaAddr == name.metaAddr
                 && d.path == path && d.name == name.name && d.name + d.suffix == row.name
                 && d.seqNo == if file.ntfs then file.meta.value.seqNo else PathKey(path + name.name)
  {
    hide PathKey, Suffix, HasSlack;
  }

  /** What the parent query selects, in terms of the path asked for. */
  lemma SelectedExactly(files: seq<FileRow>, metaAddr: nat, fsObjId: int, path: string, id: int)
    ensures id in Selected(files, metaAddr, fsObjId, Split(path))
       <==> exists k :: 0 <= k < |files| && FolderRow(files[k], metaAddr, fsObjId, path) && files[k].objId == id
  {
    hide Split;
    forall k | 0 <= k < |files|
      ensures Matches(files[k], metaAddr, fsObjId, Split(path)) <==> FolderRow(files[k], metaAddr, fsObjId, path)
    {
      RowOfFolder(files[k], metaAddr, fsObjId, path);
    }
    hide Matches, FolderRow;
  }

  /** The row has the address and the file system, and its columns read like the path. */
  predicate FolderRow(row: FileRow, metaAddr: nat, fsObjId: int, path: string) {
    && row.metaAddr == metaAddr && row.fsObjId == fsObjId
    && EndsWithSlash(row.parentPath) && NoSlash(row.name) && row.parentPath + row.name == Normal(path)
  }

  lemma RowOfFolder(row: FileRow, metaAddr: nat, fsObjId: int, path: string)
    ensures Matches(row, metaAddr, fsObjId, Split(path)) <==> FolderRow(row, metaAddr, fsObjId, path)
  {
    SplitExact(path, Parts(row.parentPath, row.name));
    hide Split, Normal, EndsWithSlash, NoSlash;
  }

  /** Without an answer from the cache: a folder's row is the parent, and there is none exactly for
      paths of 2048 characters and more and for folders without a row. */
  lemma ParentRow(files: seq<FileRow>, dirs: seq<Dir>, file: FsFile, path: string, fsObjId: int, parObjId: int)
    requires file.name.Some? && FoundParent(files, dirs, file, path, fsObjId, parObjId)
    requires forall row <- files :: row.objId > 0
    ensures var name := file.name.value;
            var cached := CachedId(dirs, fsObjId, name.parAddr, if file.ntfs then name.parSeq else PathKey(path), path);
            if cached.Some? then parObjId == cached.value
            else if parObjId == -1 then
              |path| >= 2048 || forall k :: 0 <= k < |files| ==> !FolderRow(files[k], name.parAddr, fsObjId, path)
            else
              |path| < 2048
              && exists k :: 0 <= k < |files| && FolderRow(files[k], name.parAddr, fsObjId, path)
                             && files[k].objId == parObjId
  {
    hide PathKey, CachedId, Split, FolderRow;
    SelectedExactly(files, file.name.value.parAddr, fsObjId, path, parObjId);
    forall k | 0 <= k < |files| && FolderRow(files[k], file.name.value.parAddr, fsObjId, path)
      ensures files[k].objId in Selected(files, file.name.value.parAddr, fsObjId, Split(path))
    {
      SelectedExactly(files, file.name.value.parAddr, fsObjId, path, files[k].objId);
    }
    assert MAX_PATH_LENGTH == 2048;
    hide Selected;
  }
}
