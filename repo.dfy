/**
  The canvas store: one encoded raster per generated id, kept as one file `folder/id.bmp`. The
  folder is modelled as a finite map from id to the raster its file holds; an id without a
  file is absent from the map.
 */
module Repo {
  import opened Images

  /** The file an id is stored in: `folder + "/" + id + ".bmp"`. */
  function ImagePathById(folderPath: string, id: string): (path: string)
    ensures |path| == |folderPath| + |id| + 5
    ensures path[..|folderPath|] == folderPath && path[|folderPath|] == '/'
    ensures path[|folderPath| + 1..|path| - 4] == id && path[|path| - 4..] == ".bmp"
  {
    folderPath + "/" + id + ".bmp"
  }

  /** The id can be read back out of its path, so distinct ids never share a path. */
  lemma ImagePathInjective(folderPath: string, a: string, b: string)
    ensures ImagePathById(folderPath, a) == ImagePathById(folderPath, b) <==> a == b
  {
    if ImagePathById(folderPath, a) == ImagePathById(folderPath, b) {
      var pa, pb := ImagePathById(folderPath, a), ImagePathById(folderPath, b);
      var n := |folderPath| + 1;
      assert |a| == |b|;
      assert pa[n..|pa| - 4] == a;
      assert pb[n..|pb| - 4] == b;
    }
  }

  /** A string longer than every key of a finite set, hence not one of them. */
  lemma {:induction false} LongerThanAll(keys: set<string>) returns (s: string)
    ensures forall k :: k in keys ==> |k| < |s|
    ensures s !in keys
    decreases keys
  {
    if keys == {} {
      s := "";
    } else {
      var k :| k in keys;
      var t := LongerThanAll(keys - {k});
      s := t + k + "-";
    }
  }

  class ImageRepo {
    /** The storage folder, fixed when the store is set up. */
    const folderPath: string
    /** The files of the folder: each id with the raster its file decodes to. */
    var images: map<string, Raster>

    /**
      Every stored file decodes to a well-formed raster. A file placed in the folder from outside
      may decode to a layout with alpha, which the BMP codec could not write back.
     */
    ghost predicate Valid()
      reads this
    {
      forall id :: id in images ==> images[id].Valid()
    }

    /** A store over `folderPath`, whose folder already holds `existing`. */
    constructor (folderPath: string, existing: map<string, Raster>)
      requires forall id :: id in existing ==> existing[id].Valid()
      ensures Valid()
      ensures this.folderPath == folderPath && images == existing
    {
      this.folderPath := folderPath;
      images := existing;
    }

    /**
      Writes `image` under a newly generated id. An id is drawn that names no file yet; a raster
      the codec cannot write is refused with a typed failure and nothing is written.
     */
    method SaveImage(image: Raster) returns (r: Result<string>)
      requires Valid() && image.Valid()
      modifies this
      ensures Valid()
      ensures Encodable(image) ==>
        r.Success? && r.value !in old(images) && images == old(images)[r.value := image]
      ensures !Encodable(image) ==>
        r == Failure(NoAppropriateWriter(BmpFormat)) && images == old(images)
    {
      if !Encodable(image) {
        return Failure(NoAppropriateWriter(BmpFormat));
      }
      var _ := LongerThanAll(images.Keys);
      var id :| id !in images;
      images := images[id := image];
      r := Success(id);
    }

    /**
      `saveImage` as written: the id is returned whatever the codec did, and a raster it has no
      writer for leaves no file behind.
     */
    method SaveImageAsWritten(image: Raster) returns (id: string)
      requires Valid() && image.Valid()
      modifies this
      ensures Valid()
      ensures id !in old(images)
      ensures images == if Encodable(image) then old(images)[id := image] else old(images)
    {
      var _ := LongerThanAll(images.Keys);
      id :| id !in images;
      if Encodable(image) {
        images := images[id := image];
      }
    }

    /** Decodes the file of `id`; a missing file is reported as not found, with its path. */
    method ReadImage(id: string) returns (r: Result<Raster>)
      requires Valid()
      ensures id in images ==> r == Success(images[id])
      ensures id !in images ==> r == Failure(ImageNotFound(ImagePathById(folderPath, id)))
      ensures r.Success? ==> r.value.Valid()
    {
      if id in images {
        r := Success(images[id]);
      } else {
        r := Failure(ImageNotFound(ImagePathById(folderPath, id)));
      }
    }

    /**
      Overwrites the whole file of `id` with `image` (creating it if absent); a raster the codec
      cannot write is refused with a typed failure and the previous content is kept.
     */
    method UpdateImage(id: string, image: Raster) returns (r: Outcome)
      requires Valid() && image.Valid()
      modifies this
      ensures Valid()
      ensures Encodable(image) ==> r == Pass && images == old(images)[id := image]
      ensures !Encodable(image) ==>
        r == Fail(NoAppropriateWriter(BmpFormat)) && images == old(images)
    {
      if !Encodable(image) {
        return Fail(NoAppropriateWriter(BmpFormat));
      }
      images := images[id := image];
      r := Pass;
    }

    /**
      `updateImage` as written: nothing is reported, and a raster the codec has no writer for
      leaves the previous content in place.
     */
    method UpdateImageAsWritten(id: string, image: Raster)
      requires Valid() && image.Valid()
      modifies this
      ensures Valid()
      ensures images == if Encodable(image) then old(images)[id := image] else old(images)
    {
      if Encodable(image) {
        images := images[id := image];
      }
    }

    /** Removes the file of `id` if there is one; deleting an absent id changes nothing. */
    method DeleteImage(id: string)
      requires Valid()
      modifies this
      ensures Valid()
      ensures images == old(images) - {id}
      ensures id !in images
      ensures id !in old(images) ==> images == old(images)
    {
      if id in images {
        images := images - {id};
      }
    }
  }

  /**
    Save, read, update, read, delete twice and read again, on a store whose folder already holds
    `existing`: each read sees the last write under the id, the id was new, the other files are
    untouched, and after the deletes the id is not found.
   */
  method SaveReadUpdateDelete(folderPath: string, existing: map<string, Raster>, first: Raster, second: Raster)
    returns (id: string, afterSave: Result<Raster>, afterUpdate: Result<Raster>, afterDelete: Result<Raster>,
             others: map<string, Raster>)
    requires forall k :: k in existing ==> existing[k].Valid()
    requires first.Valid() && Encodable(first) && second.Valid() && Encodable(second)
    ensures id !in existing
    ensures afterSave == Success(first) && afterUpdate == Success(second)
    ensures afterDelete == Failure(ImageNotFound(ImagePathById(folderPath, id)))
    ensures others == existing
  {
    var repo := new ImageRepo(folderPath, existing);
    var saved := repo.SaveImage(first);
    id := saved.value;
    afterSave := repo.ReadImage(id);
    var _ := repo.UpdateImage(id, second);
    afterUpdate := repo.ReadImage(id);
    repo.DeleteImage(id);
    repo.DeleteImage(id);
    afterDelete := repo.ReadImage(id);
    others := repo.images;
  }

  /**
    A raster with an alpha channel, saved through `saveImage` as written and read back under the
    id it returned: the read fails with not found, although the save reported nothing.
   */
  method SwallowedSaveLosesImage() returns (id: string, read: Result<Raster>)
    ensures read == Failure(ImageNotFound(ImagePathById("store", id)))
  {
    var repo := new ImageRepo("store", map[]);
    var withAlpha := Raster(1, 1, true, [[Black]]);
    id := repo.SaveImageAsWritten(withAlpha);
    read := repo.ReadImage(id);
  }

  /**
    The same save through the corrected `SaveImage`: the caller gets the typed failure and no id.
   */
  method RefusedSaveReportsFailure() returns (saved: Result<string>)
    ensures saved == Failure(NoAppropriateWriter(BmpFormat))
  {
    var repo := new ImageRepo("store", map[]);
    saved := repo.SaveImage(Raster(1, 1, true, [[Black]]));
  }

  /**
    A canvas overwritten through `updateImage` as written with a raster that has an alpha
    channel: the update reports nothing, yet a read still returns the old canvas.
   */
  method SwallowedUpdateKeepsOldImage() returns (read: Result<Raster>)
    ensures read == Success(Blank(1, 1))
  {
    var repo := new ImageRepo("store", map["canvas" := Blank(1, 1)]);
    repo.UpdateImageAsWritten("canvas", Raster(1, 1, true, [[0xFF_FFFF]]));
    read := repo.ReadImage("canvas");
  }

  /**
    The same update through the corrected `UpdateImage`: the caller gets the typed failure.
   */
  method RefusedUpdateReportsFailure() returns (updated: Outcome)
    ensures updated == Fail(NoAppropriateWriter(BmpFormat))
  {
    var repo := new ImageRepo("store", map["canvas" := Blank(1, 1)]);
    updated := repo.UpdateImage("canvas", Raster(1, 1, true, [[0xFF_FFFF]]));
  }
}
