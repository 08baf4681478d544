/**
  The raster algebra of the canvas service, as functions on raster values: drawing a source
  raster into a target at an offset, and reading a padded, clipped region out of a raster. The
  buffer-copying methods of the service are proved to compute exactly these.
 */
module Compositing {
  import opened Images

  /** Whether the destination pixel (i, j) lies in the rectangle a source drawn at (x, y) covers. */
  predicate Covers(source: Raster, x: nat, y: nat, i: nat, j: nat) {
    x <= i < x + source.width && y <= j < y + source.height
  }

  /**
    The target after `source` is drawn with its top-left corner at (x, y): covered pixels take
    the source's sample, all others keep the target's, and the parts of the source that fall
    beyond the target's edges are dropped. The target keeps its size and layout.
   */
  function Inserted(target: Raster, source: Raster, x: nat, y: nat): (r: Raster)
    requires target.Valid() && source.Valid()
    ensures r.Valid()
    ensures r.width == target.width && r.height == target.height && r.hasAlpha == target.hasAlpha
  {
    Raster(target.width, target.height, target.hasAlpha,
      seq<seq<Pixel>>(target.height, j requires 0 <= j < target.height =>
        seq<Pixel>(target.width, i requires 0 <= i < target.width =>
          if Covers(source, x, y, i, j) then source.At(i - x, j - y) else target.At(i, j))))
  }

  /** Pixel-wise reading of `Inserted`. */
  lemma InsertedAt(target: Raster, source: Raster, x: nat, y: nat, i: nat, j: nat)
    requires target.Valid() && source.Valid() && i < target.width && j < target.height
    ensures Inserted(target, source, x, y).At(i, j)
         == if Covers(source, x, y, i, j) then source.At(i - x, j - y) else target.At(i, j)
  {
  }

  /**
    The `width` x `height` region of `source` whose top-left corner is (x, y), as a new RGB
    raster: the overlap of `min(width, W - x)` columns and `min(height, H - y)` rows is copied to
    its top-left corner and the rest is black. Defined only for a corner inside the source.
   */
  function Part(source: Raster, width: nat, height: nat, x: nat, y: nat): (r: Raster)
    requires source.Valid() && 0 < width && 0 < height
    requires x < source.width && y < source.height
    ensures r.Valid() && r.width == width && r.height == height && Encodable(r)
  {
    var copyWidth: nat := Min(width, source.width - x);
    var copyHeight: nat := Min(height, source.height - y);
    Raster(width, height, false,
      seq<seq<Pixel>>(height, j requires 0 <= j < height =>
        seq<Pixel>(width, i requires 0 <= i < width =>
          if i < copyWidth && j < copyHeight then source.rows[y + j][x + i] else Black)))
  }

  /** Pixel-wise reading of `Part`. */
  lemma PartAt(source: Raster, width: nat, height: nat, x: nat, y: nat, i: nat, j: nat)
    requires source.Valid() && 0 < width && 0 < height
    requires x < source.width && y < source.height && i < width && j < height
    ensures Part(source, width, height, x, y).At(i, j)
         == if x + i < source.width && y + j < source.height then source.At(x + i, y + j) else Black
  {
  }

  /** Two valid rasters with the same size and the same sample everywhere are the same image. */
  lemma SameImageByPixels(a: Raster, b: Raster)
    requires a.Valid() && b.Valid() && a.width == b.width && a.height == b.height
    requires forall x, y :: 0 <= x < a.width && 0 <= y < a.height ==> a.At(x, y) == b.At(x, y)
    ensures SameImage(a, b)
  {
    forall y | 0 <= y < a.height
      ensures a.rows[y] == b.rows[y]
    {
      assert forall x :: 0 <= x < a.width ==> a.rows[y][x] == a.At(x, y);
    }
  }

  /** Reading the whole raster from (0, 0) gives back the same image. */
  lemma FullPartIsSameImage(r: Raster)
    requires r.Valid()
    ensures SameImage(Part(r, r.width, r.height, 0, 0), r)
  {
    var p := Part(r, r.width, r.height, 0, 0);
    forall x, y | 0 <= x < r.width && 0 <= y < r.height
      ensures p.At(x, y) == r.At(x, y)
    {
      PartAt(r, r.width, r.height, 0, 0, x, y);
    }
    SameImageByPixels(p, r);
  }

  /** Any region of a blank canvas, read from a corner inside it, is blank. */
  lemma PartOfBlank(canvasWidth: nat, canvasHeight: nat, width: nat, height: nat, x: nat, y: nat)
    requires 0 < canvasWidth && 0 < canvasHeight && 0 < width && 0 < height
    requires x < canvasWidth && y < canvasHeight
    ensures Part(Blank(canvasWidth, canvasHeight), width, height, x, y) == Blank(width, height)
  {
    var p := Part(Blank(canvasWidth, canvasHeight), width, height, x, y);
    var b := Blank(width, height);
    forall j | 0 <= j < height
      ensures p.rows[j] == b.rows[j]
    {
      forall i | 0 <= i < width
        ensures p.rows[j][i] == b.rows[j][i]
      {
        assert p.rows[j][i] == p.At(i, j) && b.rows[j][i] == b.At(i, j);
        PartAt(Blank(canvasWidth, canvasHeight), width, height, x, y, i, j);
      }
    }
  }

  /**
    A region that lies wholly inside the canvas, read back from where a source of the same size
    was just drawn, is that source.
   */
  lemma PartAfterInsert(target: Raster, source: Raster, x: nat, y: nat)
    requires target.Valid() && source.Valid()
    requires x + source.width <= target.width && y + source.height <= target.height
    ensures SameImage(Part(Inserted(target, source, x, y), source.width, source.height, x, y), source)
  {
    var t := Inserted(target, source, x, y);
    var p := Part(t, source.width, source.height, x, y);
    forall i, j | 0 <= i < source.width && 0 <= j < source.height
      ensures p.At(i, j) == source.At(i, j)
    {
      PartAt(t, source.width, source.height, x, y, i, j);
      InsertedAt(target, source, x, y, x + i, y + j);
    }
    SameImageByPixels(p, source);
  }

  /**
    Drawing back a region just read from the same corner leaves the canvas as it was: inside the
    canvas the region holds the canvas's own samples, and its black padding falls outside.
   */
  lemma InsertPartIsIdentity(target: Raster, width: nat, height: nat, x: nat, y: nat)
    requires target.Valid() && 0 < width && 0 < height
    requires x < target.width && y < target.height
    ensures Inserted(target, Part(target, width, height, x, y), x, y) == target
  {
    var p := Part(target, width, height, x, y);
    var t := Inserted(target, p, x, y);
    forall i, j | 0 <= i < target.width && 0 <= j < target.height
      ensures t.At(i, j) == target.At(i, j)
    {
      InsertedAt(target, p, x, y, i, j);
      if Covers(p, x, y, i, j) {
        PartAt(target, width, height, x, y, i - x, j - y);
      }
    }
    SameImageByPixels(t, target);
  }

  /** Drawing the same source at the same place twice is the same as drawing it once. */
  lemma InsertIdempotent(target: Raster, source: Raster, x: nat, y: nat)
    requires target.Valid() && source.Valid()
    ensures Inserted(Inserted(target, source, x, y), source, x, y) == Inserted(target, source, x, y)
  {
    var once := Inserted(target, source, x, y);
    var twice := Inserted(once, source, x, y);
    forall i, j | 0 <= i < target.width && 0 <= j < target.height
      ensures twice.At(i, j) == once.At(i, j)
    {
      InsertedAt(once, source, x, y, i, j);
      InsertedAt(target, source, x, y, i, j);
    }
    SameImageByPixels(twice, once);
  }

  /** Whether two sources drawn at their offsets cover no common pixel. */
  predicate Disjoint(a: Raster, x1: nat, y1: nat, b: Raster, x2: nat, y2: nat) {
    x1 + a.width <= x2 || x2 + b.width <= x1 || y1 + a.height <= y2 || y2 + b.height <= y1
  }

  /**
    Two draws into non-overlapping rectangles, made one after the other, commute, and after both
    each source is present where it was drawn, in either sequential order.
   */
  lemma DisjointInsertsCommute(target: Raster, a: Raster, x1: nat, y1: nat, b: Raster, x2: nat, y2: nat)
    requires target.Valid() && a.Valid() && b.Valid()
    requires Disjoint(a, x1, y1, b, x2, y2)
    ensures Inserted(Inserted(target, a, x1, y1), b, x2, y2)
         == Inserted(Inserted(target, b, x2, y2), a, x1, y1)
    ensures forall i, j :: 0 <= i < target.width && 0 <= j < target.height && Covers(a, x1, y1, i, j)
              ==> Inserted(Inserted(target, a, x1, y1), b, x2, y2).At(i, j) == a.At(i - x1, j - y1)
    ensures forall i, j :: 0 <= i < target.width && 0 <= j < target.height && Covers(b, x2, y2, i, j)
              ==> Inserted(Inserted(target, a, x1, y1), b, x2, y2).At(i, j) == b.At(i - x2, j - y2)
  {
    var ab := Inserted(Inserted(target, a, x1, y1), b, x2, y2);
    var ba := Inserted(Inserted(target, b, x2, y2), a, x1, y1);
    forall i, j | 0 <= i < target.width && 0 <= j < target.height
      ensures ab.At(i, j) == ba.At(i, j)
      ensures Covers(a, x1, y1, i, j) ==> ab.At(i, j) == a.At(i - x1, j - y1)
      ensures Covers(b, x2, y2, i, j) ==> ab.At(i, j) == b.At(i - x2, j - y2)
    {
      InsertedAt(target, a, x1, y1, i, j);
      InsertedAt(target, b, x2, y2, i, j);
      InsertedAt(Inserted(target, a, x1, y1), b, x2, y2, i, j);
      InsertedAt(Inserted(target, b, x2, y2), a, x1, y1, i, j);
    }
    SameImageByPixels(ab, ba);
  }

  /**
    A source no larger than the target, drawn at (0, 0): the target's top-left block of the
    source's size reads back as the source, every other sample keeps the target's value, and a
    source of the target's own size replaces the whole target.
   */
  lemma InsertAtOrigin(target: Raster, source: Raster)
    requires target.Valid() && source.Valid()
    requires source.width <= target.width && source.height <= target.height
    ensures SameImage(Part(Inserted(target, source, 0, 0), source.width, source.height, 0, 0), source)
    ensures forall i, j :: 0 <= i < source.width && 0 <= j < source.height
              ==> Inserted(target, source, 0, 0).At(i, j) == source.At(i, j)
    ensures forall i, j :: 0 <= i < target.width && 0 <= j < target.height && !(i < source.width && j < source.height)
              ==> Inserted(target, source, 0, 0).At(i, j) == target.At(i, j)
    ensures (source.width == target.width && source.height == target.height) ==>
              SameImage(Inserted(target, source, 0, 0), source)
  {
    var t := Inserted(target, source, 0, 0);
    PartAfterInsert(target, source, 0, 0);
    forall i, j | 0 <= i < target.width && 0 <= j < target.height
      ensures t.At(i, j) == if i < source.width && j < source.height then source.At(i, j) else target.At(i, j)
    {
      InsertedAt(target, source, 0, 0, i, j);
    }
    if source.width == target.width && source.height == target.height {
      SameImageByPixels(t, source);
    }
  }
}
