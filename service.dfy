/**
  The canvas service: blank-canvas creation, drawing a source into a stored canvas, reading a
  padded region of a stored canvas, and deletion. Drawing and region reading are explicit
  copies between pixel buffers, proved to compute the raster algebra of `Compositing`.
 */
module Service {
  import opened Images
  import opened Compositing
  import opened Repo

  /** Bounds the request layer enforces before the service is called. */
  const FullImageWidthLimit := 20000
  const FullImageHeightLimit := 50000
  const ImageSegmentWidthLimit := 5000
  const ImageSegmentHeightLimit := 5000

  /**
    Copies `source` into `target` with its top-left corner at (x, y), row by row; samples whose
    destination lies beyond the target's edges are skipped.
   */
  method DrawInto(target: array2<Pixel>, source: Raster, x: nat, y: nat)
    requires source.Valid()
    modifies target
    ensures forall j, i :: 0 <= j < target.Length0 && 0 <= i < target.Length1 ==>
      target[j, i] == if Covers(source, x, y, i, j) then source.At(i - x, j - y) else old(target[j, i])
  {
    var copyWidth := if x < target.Length1 then Min(source.width, target.Length1 - x) else 0;
    var copyHeight := if y < target.Length0 then Min(source.height, target.Length0 - y) else 0;
    var j := 0;
    while j < copyHeight
      invariant 0 <= j <= copyHeight
      invariant forall jj, ii :: 0 <= jj < target.Length0 && 0 <= ii < target.Length1 ==>
        target[jj, ii] == if y <= jj < y + j && x <= ii < x + copyWidth
                          then source.At(ii - x, jj - y) else old(target[jj, ii])
    {
      var i := 0;
      while i < copyWidth
        invariant 0 <= i <= copyWidth
        invariant forall jj, ii :: 0 <= jj < target.Length0 && 0 <= ii < target.Length1 ==>
          target[jj, ii] == if (y <= jj < y + j && x <= ii < x + copyWidth) || (jj == y + j && x <= ii < x + i)
                            then source.At(ii - x, jj - y) else old(target[jj, ii])
      {
        target[y + j, x + i] := source.At(i, j);
        i := i + 1;
      }
      j := j + 1;
    }
  }

  /**
    Allocates a black `width` x `height` buffer and copies into its top-left corner the part of
    `source` that starts at (x, y) and fits both the request and the source.
   */
  method CopyPart(source: Raster, width: nat, height: nat, x: nat, y: nat) returns (part: Raster)
    requires source.Valid() && 0 < width && 0 < height
    requires x < source.width && y < source.height
    ensures part == Part(source, width, height, x, y)
  {
    var buffer := new Pixel[height, width]((_, _) => Black);
    var copyWidth := Min(width, source.width - x);
    var copyHeight := Min(height, source.height - y);
    var j := 0;
    while j < copyHeight
      invariant 0 <= j <= copyHeight
      invariant forall jj, ii :: 0 <= jj < height && 0 <= ii < width ==>
        buffer[jj, ii] == if jj < j && ii < copyWidth then source.At(x + ii, y + jj) else Black
    {
      var i := 0;
      while i < copyWidth
        invariant 0 <= i <= copyWidth
        invariant forall jj, ii :: 0 <= jj < height && 0 <= ii < width ==>
          buffer[jj, ii] == if (jj < j && ii < copyWidth) || (jj == j && ii < i)
                            then source.At(x + ii, y + jj) else Black
      {
        buffer[j, i] := source.At(x + i, y + j);
        i := i + 1;
      }
      j := j + 1;
    }
    var expected := Part(source, width, height, x, y);
    forall jj, ii | 0 <= jj < height && 0 <= ii < width
      ensures buffer[jj, ii] == expected.At(ii, jj)
    {
      PartAt(source, width, height, x, y, ii, jj);
    }
    FreezeMatches(buffer, expected);
    part := Freeze(buffer, false);
  }

  class ImageService {
    const imageRepo: ImageRepo

    constructor (imageRepo: ImageRepo)
      ensures this.imageRepo == imageRepo
    {
      this.imageRepo := imageRepo;
    }

    ghost predicate Valid()
      reads imageRepo
    {
      imageRepo.Valid()
    }

    /** Stores a new all-black `width` x `height` canvas and returns its id. */
    method CreateImage(width: int, height: int) returns (id: string)
      requires Valid()
      requires 1 <= width <= FullImageWidthLimit && 1 <= height <= FullImageHeightLimit
      modifies imageRepo
      ensures Valid()
      ensures id !in old(imageRepo.images)
      ensures imageRepo.images == old(imageRepo.images)[id := Blank(width, height)]
    {
      var saved := imageRepo.SaveImage(Blank(width, height));
      match saved
      case Success(newId) =>
        id := newId;
      case Failure(_) =>
        assert false;
        id := "";
    }

    /**
      Draws `source` into the canvas `targetId` with its top-left corner at (x, y). The declared
      size is checked against the source first, then the canvas is read, drawn into and written
      back whole; what falls beyond the canvas's edges is dropped. A canvas whose layout has alpha
      is drawn into, but the codec refuses to write it back and the stored file is kept.
     */
    method InsertImage(targetId: string, width: int, height: int, x: int, y: int, source: Raster)
      returns (r: Outcome)
      requires Valid() && source.Valid()
      requires 1 <= width <= FullImageWidthLimit && 1 <= height <= FullImageHeightLimit
      requires 0 <= x && 0 <= y
      modifies imageRepo
      ensures Valid()
      ensures source.width != width || source.height != height ==>
        && r == Fail(IllegalImageSize(source.width, width, source.height, height))
        && imageRepo.images == old(imageRepo.images)
      ensures source.width == width && source.height == height && targetId !in old(imageRepo.images) ==>
        && r == Fail(ImageNotFound(ImagePathById(imageRepo.folderPath, targetId)))
        && imageRepo.images == old(imageRepo.images)
      ensures source.width == width && source.height == height && targetId in old(imageRepo.images)
              && Encodable(old(imageRepo.images)[targetId]) ==>
        && r == Pass
        && imageRepo.images
           == old(imageRepo.images)[targetId := Inserted(old(imageRepo.images)[targetId], source, x, y)]
      ensures source.width == width && source.height == height && targetId in old(imageRepo.images)
              && !Encodable(old(imageRepo.images)[targetId]) ==>
        && r == Fail(NoAppropriateWriter(BmpFormat))
        && imageRepo.images == old(imageRepo.images)
    {
      if source.height != height || source.width != width {
        return Fail(IllegalImageSize(source.width, width, source.height, height));
      }
      var read := imageRepo.ReadImage(targetId);
      if read.Failure? {
        return Fail(read.error);
      }
      var target := read.value;
      var buffer := Thaw(target);
      DrawInto(buffer, source, x, y);
      var drawn := Inserted(target, source, x, y);
      forall j, i | 0 <= j < buffer.Length0 && 0 <= i < buffer.Length1
        ensures buffer[j, i] == drawn.At(i, j)
      {
        InsertedAt(target, source, x, y, i, j);
      }
      FreezeMatches(buffer, drawn);
      r := imageRepo.UpdateImage(targetId, Freeze(buffer, target.hasAlpha));
    }

    /**
      Reads the `width` x `height` region of canvas `id` whose top-left corner is (x, y). The
      canvas is read first; a corner at or beyond its far edge is refused; otherwise the region
      is exactly `width` x `height`, padded with black where it overruns the canvas.
     */
    method GetImagePart(id: string, width: int, height: int, x: int, y: int) returns (r: Result<Raster>)
      requires Valid()
      requires 1 <= width <= ImageSegmentWidthLimit && 1 <= height <= ImageSegmentHeightLimit
      requires 0 <= x && 0 <= y
      ensures id !in imageRepo.images ==>
        r == Failure(ImageNotFound(ImagePathById(imageRepo.folderPath, id)))
      ensures id in imageRepo.images && (x >= imageRepo.images[id].width || y >= imageRepo.images[id].height) ==>
        r == Failure(OffsetOutOfRange(imageRepo.images[id].width, x, imageRepo.images[id].height, y))
      ensures id in imageRepo.images && x < imageRepo.images[id].width && y < imageRepo.images[id].height ==>
        r == Success(Part(imageRepo.images[id], width, height, x, y))
    {
      var read := imageRepo.ReadImage(id);
      if read.Failure? {
        return Failure(read.error);
      }
      var sourceImage := read.value;
      if x >= sourceImage.width || y >= sourceImage.height {
        return Failure(OffsetOutOfRange(sourceImage.width, x, sourceImage.height, y));
      }
      var part := CopyPart(sourceImage, width, height, x, y);
      r := Success(part);
    }

    /** Removes canvas `id`, if it exists. */
    method DeleteImage(id: string)
      requires Valid()
      modifies imageRepo
      ensures Valid()
      ensures imageRepo.images == old(imageRepo.images) - {id}
    {
      imageRepo.DeleteImage(id);
    }
  }

  /**
    A canvas whose file decodes to a layout with alpha: drawing into it is refused at the
    write-back with the typed failure, and the stored canvas is kept.
   */
  method RefusedInsertIntoAlphaCanvas() returns (inserted: Outcome, read: Result<Raster>)
    ensures inserted == Fail(NoAppropriateWriter(BmpFormat))
    ensures read == Success(Raster(1, 1, true, [[0xFF_FFFF]]))
  {
    var repo := new ImageRepo("store", map["canvas" := Raster(1, 1, true, [[0xFF_FFFF]])]);
    var service := new ImageService(repo);
    inserted := service.InsertImage("canvas", 1, 1, 0, 0, Blank(1, 1));
    read := repo.ReadImage("canvas");
  }

  /** A 1 x 1 white source. */
  function WhiteDot(): (r: Raster)
    ensures r.Valid() && r.width == 1 && r.height == 1 && r.At(0, 0) == 0xFF_FFFF
  {
    Raster(1, 1, false, [[0xFF_FFFF]])
  }

  /**
    Two `insertImage` calls on one canvas, interleaved the way their separate read and
    write-back locks allow: both read the blank canvas before either writes back. The dots go
    to disjoint pixels, yet the second write-back erases the first dot.
   */
  method InterleavedInsertsLoseUpdate() returns (read: Result<Raster>)
    ensures read.Success? && read.value.Valid() && read.value.width == 2 && read.value.height == 1
    ensures read.value.At(0, 0) == Black && read.value.At(1, 0) == 0xFF_FFFF
  {
    var repo := new ImageRepo("store", map["canvas" := Blank(2, 1)]);
    var first := repo.ReadImage("canvas");
    var second := repo.ReadImage("canvas");
    var _ := repo.UpdateImage("canvas", Inserted(first.value, WhiteDot(), 0, 0));
    var _ := repo.UpdateImage("canvas", Inserted(second.value, WhiteDot(), 1, 0));
    read := repo.ReadImage("canvas");
    InsertedAt(Blank(2, 1), WhiteDot(), 1, 0, 0, 0);
    InsertedAt(Blank(2, 1), WhiteDot(), 1, 0, 1, 0);
  }

  /**
    The same two inserts run one after the other through `InsertImage`: both dots are kept,
    whichever runs first.
   */
  method SequentialInsertsKeepBoth() returns (read: Result<Raster>)
    ensures read.Success? && read.value.Valid() && read.value.width == 2 && read.value.height == 1
    ensures read.value.At(0, 0) == 0xFF_FFFF && read.value.At(1, 0) == 0xFF_FFFF
  {
    var repo := new ImageRepo("store", map["canvas" := Blank(2, 1)]);
    var service := new ImageService(repo);
    var _ := service.InsertImage("canvas", 1, 1, 0, 0, WhiteDot());
    var _ := service.InsertImage("canvas", 1, 1, 1, 0, WhiteDot());
    read := repo.ReadImage("canvas");
    DisjointInsertsCommute(Blank(2, 1), WhiteDot(), 0, 0, WhiteDot(), 1, 0);
  }
}
