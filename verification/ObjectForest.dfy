/** The object table of tsk/auto/db_sqlite.cpp and its parent links. */
module ObjectForest {

  datatype ObjectType = Img | Vs | Vol | Fs | File

  /** A row of tsk_objects; an image has no parent, which is read as parent 0. */
  datatype ObjectRow = ObjectRow(parObjId: int, kind: ObjectType)

  type Objects = map<int, ObjectRow>

  /** Every row but an image has its parent in the table, with a smaller id. */
  ghost predicate Forest(objects: Objects) {
    forall id <- objects :: RowInForest(objects, id)
  }

  predicate RowInForest(objects: Objects, id: int)
    requires id in objects
  {
    var row := objects[id];
    && id > 0
    && (row.kind == Img <==> row.parObjId == 0)
    && (row.kind != Img ==> row.parObjId in objects && row.parObjId < id)
  }

  /** The image at the end of the parent links. */
  ghost function RootOf(objects: Objects, id: int): int
    requires Forest(objects) && id in objects
    decreases id
  {
    assert RowInForest(objects, id);
    if objects[id].kind == Img then id else RootOf(objects, objects[id].parObjId)
  }

  /** Each object of the list is the child of the next. */
  ghost predicate ParentLinks(objects: Objects, chain: seq<int>) {
    && |chain| > 0
    && (forall i :: 0 <= i < |chain| ==> chain[i] in objects)
    && (forall i :: 0 <= i < |chain| - 1 ==> objects[chain[i]].parObjId == chain[i + 1])
  }

  /** Parent links lead from id to the image. */
  ghost predicate LinksTo(objects: Objects, id: int, image: int) {
    && image in objects && objects[image].kind == Img
    && exists chain :: ParentLinks(objects, chain) && chain[0] == id && chain[|chain| - 1] == image
  }

  /** Exactly one image is reached from an object, and it is the root. */
  lemma RootIsTheOnlyImage(objects: Objects, id: int, image: int)
    requires Forest(objects) && id in objects
    ensures LinksTo(objects, id, image) <==> image == RootOf(objects, id)
  {
    if LinksTo(objects, id, image) {
      var chain :| ParentLinks(objects, chain) && chain[0] == id && chain[|chain| - 1] == image;
      ChainEndsAtRoot(objects, chain);
    }
    if image == RootOf(objects, id) {
      var chain := ChainToRoot(objects, id);
    }
  }

  lemma {:induction false} ChainEndsAtRoot(objects: Objects, chain: seq<int>)
    requires Forest(objects) && ParentLinks(objects, chain) && objects[chain[|chain| - 1]].kind == Img
    ensures RootOf(objects, chain[0]) == chain[|chain| - 1]
    decreases |chain|
  {
    assert RowInForest(objects, chain[0]);
    if |chain| > 1 {
      ChainEndsAtRoot(objects, chain[1..]);
      assert objects[chain[0]].parObjId == chain[1];
      assert RowInForest(objects, chain[1]);
    }
  }

  lemma {:induction false} ChainToRoot(objects: Objects, id: int) returns (chain: seq<int>)
    requires Forest(objects) && id in objects
    ensures ParentLinks(objects, chain) && chain[0] == id && chain[|chain| - 1] == RootOf(objects, id)
    ensures objects[RootOf(objects, id)].kind == Img
    decreases id
  {
    assert RowInForest(objects, id);
    if objects[id].kind == Img {
      chain := [id];
    } else {
      var rest := ChainToRoot(objects, objects[id].parObjId);
      chain := [id] + rest;
      assert forall i :: 1 <= i < |chain| ==> chain[i] == rest[i - 1];
    }
  }

  ghost predicate Extends(before: Objects, after: Objects) {
    forall id <- before :: id in after && after[id] == before[id]
  }

  /** Rows added later do not change a root. */
  lemma {:induction false} RootStays(before: Objects, after: Objects, id: int)
    requires Forest(before) && Forest(after) && Extends(before, after) && id in before
    ensures id in after && RootOf(after, id) == RootOf(before, id)
    decreases id
  {
    assert RowInForest(before, id) && RowInForest(after, id);
    if before[id].kind != Img {
      RootStays(before, after, before[id].parObjId);
    }
  }

  /** A row that keeps the table a forest: only an image has no parent, and the parent is known. */
  predicate Fits(objects: Objects, row: ObjectRow) {
    && (row.kind == Img <==> row.parObjId == 0)
    && (row.kind != Img ==> row.parObjId in objects)
  }

  /** A row with an id above all others keeps the table a forest exactly when it fits. */
  lemma GrowForest(objects: Objects, id: int, row: ObjectRow)
    requires Forest(objects) && id > 0 && forall k <- objects :: k < id
    ensures Forest(objects[id := row]) <==> Fits(objects, row)
    ensures Extends(objects, objects[id := row])
    ensures Fits(objects, row) ==>
              RootOf(objects[id := row], id) == if row.kind == Img then id else RootOf(objects, row.parObjId)
  {
    var after := objects[id := row];
    assert RowInForest(after, id) <==> Fits(objects, row);
    if Fits(objects, row) {
      forall k <- after ensures RowInForest(after, k) {
        if k != id {
          assert RowInForest(objects, k);
        }
      }
      if row.kind != Img {
        RootStays(objects, after, row.parObjId);
      }
    }
  }

  /** A row of tsk_fs_info: the object id and the columns copied from the file system. */
  datatype FsInfo<D> = FsInfo(objId: int, details: D)

  ghost predicate FsKnown<D>(objects: Objects, fsInfos: seq<FsInfo<D>>) {
    forall k :: 0 <= k < |fsInfos| ==> fsInfos[k].objId in objects
  }

  /** The file systems below an image, in table order. */
  ghost function FsBelow<D>(objects: Objects, fsInfos: seq<FsInfo<D>>, image: int): seq<FsInfo<D>>
    requires Forest(objects) && FsKnown(objects, fsInfos)
    decreases |fsInfos|
  {
    if |fsInfos| == 0 then []
    else
      var last := fsInfos[|fsInfos| - 1];
      FsBelow(objects, fsInfos[..|fsInfos| - 1], image) + if RootOf(objects, last.objId) == image then [last] else []
  }

  lemma FsBelowNext<D>(objects: Objects, fsInfos: seq<FsInfo<D>>, fs: FsInfo<D>, image: int)
    requires Forest(objects) && FsKnown(objects, fsInfos + [fs])
    ensures FsKnown(objects, fsInfos) && fs.objId in objects
    ensures FsBelow(objects, fsInfos + [fs], image)
         == FsBelow(objects, fsInfos, image) + if RootOf(objects, fs.objId) == image then [fs] else []
  {
    assert (fsInfos + [fs])[|fsInfos|] == fs;
    assert forall k :: 0 <= k < |fsInfos| ==> (fsInfos + [fs])[k] == fsInfos[k];
    assert (fsInfos + [fs])[..|fsInfos|] == fsInfos;
  }

  lemma {:induction false} FsBelowStays<D>(before: Objects, after: Objects, fsInfos: seq<FsInfo<D>>, image: int)
    requires Forest(before) && Forest(after) && Extends(before, after) && FsKnown(before, fsInfos)
    ensures FsKnown(after, fsInfos) && FsBelow(after, fsInfos, image) == FsBelow(before, fsInfos, image)
    decreases |fsInfos|
  {
    if |fsInfos| > 0 {
      FsBelowStays(before, after, fsInfos[..|fsInfos| - 1], image);
      RootStays(before, after, fsInfos[|fsInfos| - 1].objId);
    }
  }

  /** Only an image has file systems below it. */
  lemma {:induction false} NoneBelow<D>(objects: Objects, fsInfos: seq<FsInfo<D>>, image: int)
    requires Forest(objects) && FsKnown(objects, fsInfos) && image !in objects
    ensures FsBelow(objects, fsInfos, image) == []
    decreases |fsInfos|
  {
    if |fsInfos| > 0 {
      NoneBelow(objects, fsInfos[..|fsInfos| - 1], image);
      var chain := ChainToRoot(objects, fsInfos[|fsInfos| - 1].objId);
    }
  }

  /** The tables of the case database that hold the objects. */
  class CaseDb<D> {
    var objects: Objects
    var lastRowId: int
    var fsInfos: seq<FsInfo<D>>

    /** No id lies above the last one given. */
    ghost predicate Bounded()
      reads this
    {
      lastRowId >= 0 && forall id <- objects :: id <= lastRowId
    }

    ghost predicate Valid()
      reads this
    {
      Forest(objects) && FsKnown(objects, fsInfos) && Bounded()
    }

    constructor ()
      ensures Valid() && objects == map[] && fsInfos == []
    {
      objects := map[];
      lastRowId := 0;
      fsInfos := [];
    }

    /** An insert gets some id above all ids of the table; any parent is stored. The table stays a
        forest exactly when the row fits. */
    method InsertObject(row: ObjectRow) returns (objId: int)
      requires Bounded()
      modifies this`objects, this`lastRowId
      ensures Bounded() && objId !in old(objects) && (forall id <- old(objects) :: id < objId)
      ensures objects == old(objects)[objId := row] && Extends(old(objects), objects)
      ensures old(Forest(objects)) ==> (Forest(objects) <==> Fits(old(objects), row))
      ensures old(Valid()) && Fits(old(objects), row) ==>
          Valid() && RootOf(objects, objId) == if row.kind == Img then objId else RootOf(old(objects), row.parObjId)
    {
      assert lastRowId + 1 > lastRowId;
      objId :| objId > lastRowId;
      if Forest(objects) {
        GrowForest(objects, objId, row);
      }
      lastRowId := objId;
      objects := objects[objId := row];
    }

    /** addObject. */
    method AddObject(kind: ObjectType, parObjId: int) returns (objId: int)
      requires Bounded()
      modifies this`objects, this`lastRowId
      ensures Bounded() && objId !in old(objects) && (forall id <- old(objects) :: id < objId)
      ensures objects == old(objects)[objId := ObjectRow(parObjId, kind)] && Extends(old(objects), objects)
      ensures old(Forest(objects)) ==> (Forest(objects) <==> Fits(old(objects), ObjectRow(parObjId, kind)))
      ensures old(Valid()) && kind != Img && parObjId in old(objects) ==>
          Valid() && RootOf(objects, objId) == RootOf(old(objects), parObjId)
    {
      assert Forest(objects) && parObjId in objects ==> RowInForest(objects, parObjId);
      objId := InsertObject(ObjectRow(parObjId, kind));
    }

    /** addImageInfo: the parent column is NULL. */
    method AddImageInfo() returns (objId: int)
      requires Valid()
      modifies this`objects, this`lastRowId
      ensures Valid() && objId !in old(objects) && (forall id <- old(objects) :: id < objId)
      ensures objects == old(objects)[objId := ObjectRow(0, Img)]
      ensures Extends(old(objects), objects) && RootOf(objects, objId) == objId
    {
      objId := InsertObject(ObjectRow(0, Img));
    }

    /** addFsInfo: an object and a row of tsk_fs_info. */
    method AddFsInfo(details: D, parObjId: int) returns (objId: int)
      requires Bounded()
      modifies this
      ensures Bounded() && objId !in old(objects)
      ensures objects == old(objects)[objId := ObjectRow(parObjId, Fs)] && Extends(old(objects), objects)
      ensures fsInfos == old(fsInfos) + [FsInfo(objId, details)]
      ensures old(Forest(objects)) ==> (Forest(objects) <==> Fits(old(objects), ObjectRow(parObjId, Fs)))
      ensures old(Valid()) && parObjId in old(objects) ==>
          Valid() && RootOf(objects, objId) == RootOf(old(objects), parObjId)
    {
      objId := AddObject(Fs, parObjId);
      fsInfos := fsInfos + [FsInfo(objId, details)];
    }

    /** getParentImageId: climbs the parent links until a row has no parent. */
    method GetParentImageId(objId: int) returns (ok: bool, imageId: int)
      requires Valid()
      ensures ok <==> objId in objects
      ensures ok ==> imageId == RootOf(objects, objId)
    {
      var queryObjectId := objId;
      while true
        invariant queryObjectId in objects <==> objId in objects
        invariant objId in objects ==> RootOf(objects, queryObjectId) == RootOf(objects, objId)
        decreases queryObjectId
      {
        if queryObjectId !in objects {
          return false, 0;
        }
        assert RowInForest(objects, queryObjectId);
        var objectInfo := objects[queryObjectId];
        if objectInfo.parObjId == 0 {
          return true, queryObjectId;
        }
        assert RowInForest(objects, objectInfo.parObjId);
        queryObjectId := objectInfo.parObjId;
      }
    }

    /** getFsInfos: exactly the file systems below the image, in table order. */
    method GetFsInfos(imgId: int) returns (ok: bool, result: seq<FsInfo<D>>)
      requires Valid()
      ensures ok && result == FsBelow(objects, fsInfos, imgId)
    {
      result := [];
      for k := 0 to |fsInfos|
        invariant result == FsBelow(objects, fsInfos[..k], imgId)
      {
        assert fsInfos[..k + 1] == fsInfos[..k] + [fsInfos[k]];
        FsBelowNext(objects, fsInfos[..k], fsInfos[k], imgId);
        var found, curImgId := GetParentImageId(fsInfos[k].objId);
        if !found {
          return false, [];
        }
        if imgId != curImgId {
          continue;
        }
        result := result + [fsInfos[k]];
      }
      assert fsInfos[..|fsInfos|] == fsInfos;
      ok := true;
    }
  }
}

/** How the loader of tsk/auto/auto_db.cpp threads object ids while it reads an image. */
module ImageLoader {
  import opened ObjectForest
  import opened Options

  /** What the image holds: a file system or none, or volumes that each hold one or none. */
  datatype ImageLayout<D> = Bare(fs: Option<D>) | Partitioned(volumes: seq<Option<D>>)

  function Listed<D>(fs: Option<D>): seq<D> { if fs.Some? then [fs.value] else [] }

  function ListedAll<D>(volumes: seq<Option<D>>): seq<D>
    decreases |volumes|
  {
    if |volumes| == 0 then [] else ListedAll(volumes[..|volumes| - 1]) + Listed(volumes[|volumes| - 1])
  }

  /** The file systems of an image, in the order they are found. */
  function FileSystems<D>(layout: ImageLayout<D>): seq<D> {
    match layout
    case Bare(fs) => Listed(fs)
    case Partitioned(volumes) => ListedAll(volumes)
  }

  function DetailsOf<D>(fsInfos: seq<FsInfo<D>>): (details: seq<D>)
    ensures |details| == |fsInfos| && forall i :: 0 <= i < |details| ==> details[i] == fsInfos[i].details
  {
    seq(|fsInfos|, i requires 0 <= i < |fsInfos| => fsInfos[i].details)
  }

  /** The volumes in front of v that hold a file system. */
  ghost function Formatted<D>(volumes: seq<Option<D>>, v: nat): (before: set<nat>)
    requires v <= |volumes|
  {
    set i: nat | i < v && volumes[i].Some?
  }

  lemma FormattedNext<D>(volumes: seq<Option<D>>, v: nat)
    requires v < |volumes|
    ensures |Formatted(volumes, v + 1)| == |Formatted(volumes, v)| + if volumes[v].Some? then 1 else 0
  {
    if volumes[v].Some? {
      assert Formatted(volumes, v + 1) == Formatted(volumes, v) + {v};
    } else {
      assert Formatted(volumes, v + 1) == Formatted(volumes, v);
    }
  }

  /** The file system of a volume is listed behind those of the volumes in front of it. */
  lemma {:induction false} VolumeIsListed<D>(volumes: seq<Option<D>>)
    ensures |ListedAll(volumes)| == |Formatted(volumes, |volumes|)|
    ensures forall v: nat :: v < |volumes| && volumes[v].Some? ==>
              var k := |Formatted(volumes, v)|; k < |ListedAll(volumes)| && ListedAll(volumes)[k] == volumes[v].value
    decreases |volumes|
  {
    if |volumes| > 0 {
      var front, last := volumes[..|volumes| - 1], |volumes| - 1;
      VolumeIsListed(front);
      forall v: nat | v <= last ensures Formatted(volumes, v) == Formatted(front, v) {
      }
      FormattedNext(volumes, last);
      hide Formatted;
    } else {
      assert Formatted(volumes, 0) == {};
    }
  }

  /** What an image holds is listed: one file system for each volume that has one, in the order of the
      volumes, and the file system of an image without volumes. */
  lemma FileSystemsExactly<D>(layout: ImageLayout<D>)
    ensures layout.Bare? ==> FileSystems(layout) == if layout.fs.Some? then [layout.fs.value] else []
    ensures layout.Partitioned? ==>
              var (volumes, list) := (layout.volumes, FileSystems(layout));
              && |list| == |Formatted(volumes, |volumes|)|
              && (forall v: nat :: v < |volumes| && volumes[v].Some? ==>
                    var k := |Formatted(volumes, v)|; k < |list| && list[k] == volumes[v].value)
  {
    if layout.Partitioned? {
      VolumeIsListed(layout.volumes);
    }
    hide ListedAll, Formatted;
  }

  class AutoDb<D> {
    const db: CaseDb<D>
    var curImgId: int
    var curVsId: int
    var curVolId: int
    var curFsId: int
    var vsFound: bool
    var volFound: bool

    /** The current ids all belong to the current image. */
    ghost predicate Valid()
      reads this, db
    {
      && db.Valid()
      && Below(curImgId)
      && (vsFound ==> Below(curVsId))
      && (volFound ==> Below(curVolId))
    }

    ghost predicate Below(id: int)
      requires db.Valid()
      reads this, db
    {
      id in db.objects && RootOf(db.objects, id) == curImgId
    }

    /** The details of the file systems the database reports for the current image. */
    ghost function Reported(): seq<D>
      requires db.Valid()
      reads this, db
    {
      DetailsOf(FsBelow(db.objects, db.fsInfos, curImgId))
    }

    constructor (db: CaseDb<D>)
      ensures this.db == db && curImgId == 0 && !vsFound && !volFound
    {
      this.db := db;
      curImgId, curVsId, curVolId, curFsId := 0, 0, 0, 0;
      vsFound, volFound := false, false;
    }

    /** addImageDetails: a loader is given one image. */
    method AddImageDetails()
      requires db.Valid() && !vsFound && !volFound
      modifies this`curImgId, db
      ensures Valid() && curImgId !in old(db.objects) && Reported() == []
      ensures Extends(old(db.objects), db.objects) && db.fsInfos == old(db.fsInfos)
    {
      ghost var before := db.objects;
      curImgId := db.AddImageInfo();
      NoneBelow(before, db.fsInfos, curImgId);
      FsBelowStays(before, db.objects, db.fsInfos, curImgId);
    }

    method FilterVs()
      requires Valid()
      modifies this`vsFound, this`curVsId, db
      ensures Valid() && vsFound && db.objects == old(db.objects)[curVsId := ObjectRow(curImgId, Vs)]
      ensures Extends(old(db.objects), db.objects) && db.fsInfos == old(db.fsInfos)
    {
      ghost var before := db.objects;
      vsFound := true;
      curVsId := db.AddObject(Vs, curImgId);
      StillBelow(before);
    }

    /** Volumes are walked only after their volume system was found. */
    method FilterVol()
      requires Valid() && vsFound
      modifies this`volFound, this`curVolId, db
      ensures Valid() && volFound && db.objects == old(db.objects)[curVolId := ObjectRow(curVsId, Vol)]
      ensures Extends(old(db.objects), db.objects) && db.fsInfos == old(db.fsInfos)
    {
      ghost var before := db.objects;
      volFound := true;
      curVolId := db.AddObject(Vol, curVsId);
      StillBelow(before);
    }

    /** A file system hangs below the current volume, or below the image when there is none. */
    method FilterFs(details: D)
      requires Valid()
      modifies this`curFsId, db
      ensures Valid() && db.fsInfos == old(db.fsInfos) + [FsInfo(curFsId, details)]
      ensures db.objects
              == old(db.objects)[curFsId := ObjectRow(if volFound && vsFound then curVolId else curImgId, Fs)]
      ensures Extends(old(db.objects), db.objects) && Below(curFsId)
    {
      ghost var before := db.objects;
      if volFound && vsFound {
        curFsId := db.AddFsInfo(details, curVolId);
      } else {
        curFsId := db.AddFsInfo(details, curImgId);
      }
      StillBelow(before);
    }

    lemma StillBelow(before: Objects)
      requires db.Valid() && Forest(before) && Extends(before, db.objects)
      ensures forall id <- before :: RootOf(before, id) == curImgId ==> Below(id)
    {
      forall id <- before ensures RootOf(before, id) == curImgId ==> Below(id) {
        RootStays(before, db.objects, id);
      }
    }

    /** findFilesInVs: without a volume system the image is tried as a file system. */
    method FindFilesInImg(layout: ImageLayout<D>)
      requires Valid() && Reported() == [] && !vsFound && !volFound
      modifies this, db
      ensures Valid() && curImgId == old(curImgId) && Reported() == FileSystems(layout)
      ensures Grown(old(db.objects), old(db.fsInfos))
    {
      match layout
      case Bare(fs) =>
        FindFilesInFs(fs);
      case Partitioned(volumes) =>
        ghost var objects, fsInfos := db.objects, db.fsInfos;
        FilterVs();
        NothingReported(objects, fsInfos);
        for k := 0 to |volumes|
          invariant Valid() && curImgId == old(curImgId) && vsFound
          invariant Reported() == ListedAll(volumes[..k])
          invariant Grown(objects, fsInfos)
        {
          VsWalkCb(volumes[k]);
          assert volumes[..k + 1][..k] == volumes[..k];
        }
        assert volumes[..|volumes|] == volumes;
    }

    /** vsWalkCb: a volume is recorded, then tried as a file system. */
    method VsWalkCb(volume: Option<D>)
      requires Valid() && vsFound
      modifies this, db
      ensures Valid() && curImgId == old(curImgId) && vsFound && Reported() == old(Reported()) + Listed(volume)
      ensures Grown(old(db.objects), old(db.fsInfos))
    {
      ghost var objects, fsInfos := db.objects, db.fsInfos;
      FilterVol();
      NothingReported(objects, fsInfos);
      FindFilesInFs(volume);
    }

    method FindFilesInFs(fs: Option<D>)
      requires Valid()
      modifies this, db
      ensures Valid() && curImgId == old(curImgId) && vsFound == old(vsFound)
      ensures Reported() == old(Reported()) + Listed(fs)
      ensures Grown(old(db.objects), old(db.fsInfos))
    {
      if fs.Some? {
        ghost var objects, fsInfos := db.objects, db.fsInfos;
        FilterFs(fs.value);
        OneReported(objects, fsInfos, fs.value);
      }
    }

    /** Rows were only added, and no other image got a file system. */
    ghost predicate Grown(objects: Objects, fsInfos: seq<FsInfo<D>>)
      requires db.Valid()
      reads this, db
    {
      && Forest(objects) && FsKnown(objects, fsInfos) && Extends(objects, db.objects)
      && (forall image | image != curImgId ::
            FsBelow(db.objects, db.fsInfos, image) == FsBelow(objects, fsInfos, image))
    }

    lemma NothingReported(objects: Objects, fsInfos: seq<FsInfo<D>>)
      requires Valid() && db.fsInfos == fsInfos
      requires Forest(objects) && FsKnown(objects, fsInfos) && Extends(objects, db.objects)
      ensures Grown(objects, fsInfos) && Reported() == DetailsOf(FsBelow(objects, fsInfos, curImgId))
    {
      forall image ensures FsBelow(db.objects, fsInfos, image) == FsBelow(objects, fsInfos, image) {
        FsBelowStays(objects, db.objects, fsInfos, image);
      }
    }

    lemma OneReported(objects: Objects, fsInfos: seq<FsInfo<D>>, details: D)
      requires Valid() && db.fsInfos == fsInfos + [FsInfo(curFsId, details)] && Below(curFsId)
      requires Forest(objects) && FsKnown(objects, fsInfos) && Extends(objects, db.objects)
      ensures Grown(objects, fsInfos) && Reported() == DetailsOf(FsBelow(objects, fsInfos, curImgId)) + [details]
    {
      forall image ensures FsBelow(db.objects, db.fsInfos, image)
          == FsBelow(objects, fsInfos, image) + if image == curImgId then [FsInfo(curFsId, details)] else [] {
        FsBelowStays(objects, db.objects, fsInfos, image);
        FsBelowNext(db.objects, fsInfos, FsInfo(curFsId, details), image);
      }
    }
  }

  /** TskCaseDb::addImage: a new loader for each image. The database then reports for this image
      exactly the file systems found in it, and nothing changes for the images before it. */
  method AddImage<D>(db: CaseDb<D>, layout: ImageLayout<D>) returns (imgId: int)
    requires db.Valid()
    modifies db
    ensures db.Valid() && imgId !in old(db.objects) && imgId in db.objects && Extends(old(db.objects), db.objects)
    ensures DetailsOf(FsBelow(db.objects, db.fsInfos, imgId)) == FileSystems(layout)
    ensures forall image | image != imgId ::
              FsBelow(db.objects, db.fsInfos, image) == FsBelow(old(db.objects), old(db.fsInfos), image)
  {
    ghost var objects, fsInfos := db.objects, db.fsInfos;
    var loader := new AutoDb(db);
    loader.AddImageDetails();
    loader.NothingReported(objects, fsInfos);
    loader.FindFilesInImg(layout);
    imgId := loader.curImgId;
  }

  /** Any number of images, one after another. */
  method AddImages<D>(db: CaseDb<D>, layouts: seq<ImageLayout<D>>) returns (ids: seq<int>)
    requires db.Valid()
    modifies db
    ensures db.Valid() && |ids| == |layouts|
    ensures forall i, j :: 0 <= i < j < |ids| ==> ids[i] != ids[j]
    ensures forall k :: 0 <= k < |ids| ==> DetailsOf(FsBelow(db.objects, db.fsInfos, ids[k])) == FileSystems(layouts[k])
  {
    hide Forest, FsKnown, FsBelow, RootOf, DetailsOf, FileSystems, AllReported, Extends;
    ids := [];
    NoneReported(db.objects, db.fsInfos, layouts);
    for n := 0 to |layouts|
      invariant db.Valid() && |ids| == n
      invariant AllReported(db.objects, db.fsInfos, ids, layouts)
    {
      ghost var objects, fsInfos := db.objects, db.fsInfos;
      var imgId := AddImage(db, layouts[n]);
      OneMoreReported(objects, fsInfos, db.objects, db.fsInfos, ids, imgId, layouts);
      ids := ids + [imgId];
    }
    ReportedAll(db.objects, db.fsInfos, ids, layouts);
  }

  /** The images given are different ones of the table, and each reports the file systems found in it. */
  ghost predicate AllReported<D>(objects: Objects, fsInfos: seq<FsInfo<D>>, ids: seq<int>, layouts: seq<ImageLayout<D>>)
    requires Forest(objects) && FsKnown(objects, fsInfos) && |ids| <= |layouts|
  {
    && (forall k :: 0 <= k < |ids| ==> ids[k] in objects)
    && (forall i, j :: 0 <= i < j < |ids| ==> ids[i] != ids[j])
    && (forall k :: 0 <= k < |ids| ==> DetailsOf(FsBelow(objects, fsInfos, ids[k])) == FileSystems(layouts[k]))
  }

  lemma NoneReported<D>(objects: Objects, fsInfos: seq<FsInfo<D>>, layouts: seq<ImageLayout<D>>)
    requires Forest(objects) && FsKnown(objects, fsInfos)
    ensures AllReported(objects, fsInfos, [], layouts)
  {
  }

  /** A new image keeps the reports of those before it. */
  lemma OneMoreReported<D>(objects: Objects, fsInfos: seq<FsInfo<D>>, laterObjects: Objects,
                           laterInfos: seq<FsInfo<D>>, ids: seq<int>, imgId: int, layouts: seq<ImageLayout<D>>)
    requires Forest(objects) && FsKnown(objects, fsInfos) && Forest(laterObjects) && FsKnown(laterObjects, laterInfos)
    requires |ids| < |layouts| && AllReported(objects, fsInfos, ids, layouts)
    requires imgId !in objects && imgId in laterObjects && Extends(objects, laterObjects)
    requires DetailsOf(FsBelow(laterObjects, laterInfos, imgId)) == FileSystems(layouts[|ids|])
    requires forall image | image != imgId ::
               FsBelow(laterObjects, laterInfos, image) == FsBelow(objects, fsInfos, image)
    ensures AllReported(laterObjects, laterInfos, ids + [imgId], layouts)
  {
    hide Forest, FsKnown, FsBelow, DetailsOf, FileSystems;
  }

  lemma ReportedAll<D>(objects: Objects, fsInfos: seq<FsInfo<D>>, ids: seq<int>, layouts: seq<ImageLayout<D>>)
    requires Forest(objects) && FsKnown(objects, fsInfos) && |ids| <= |layouts|
    requires AllReported(objects, fsInfos, ids, layouts)
    ensures forall i, j :: 0 <= i < j < |ids| ==> ids[i] != ids[j]
    ensures forall k :: 0 <= k < |ids| ==> DetailsOf(FsBelow(objects, fsInfos, ids[k])) == FileSystems(layouts[k])
  {
    hide Forest, FsKnown, FsBelow, DetailsOf, FileSystems;
  }
}
