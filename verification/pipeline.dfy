/**
 The render pipeline: from the loaded raster and the editing settings to the
 displayed image. The mask starts fully opaque; global mode or the magic-wand
 seeds clear it into the base mask, which is kept; erosion and then feathering
 refine a copy; the output keeps every source colour and takes its alpha from
 the refined mask.
 */
module Pipeline {
  import opened Image
  import opened GlobalMask
  import opened MagicWand
  import opened Erode
  import opened Feather

  datatype Mode = Global | Magic

  /** Everything the pipeline reads from the editing state. */
  datatype Settings = Settings(target: Color, mode: Mode, seeds: seq<Seed>,
                               tolerance: nat, erode: nat, feather: nat)

  /** The base mask kept for reuse, and the image put on the canvas. */
  datatype Rendered = Rendered(alpha: seq<byte>, output: Raster)

  /** A mask of n fully opaque entries. */
  function Opaque(n: nat): (m: seq<byte>)
    ensures |m| == n && forall i :: 0 <= i < n ==> m[i] == 255
  {
    seq(n, _ => 255)
  }

  /** The mask the chosen mode produces, before refinement. */
  ghost function BaseMask(src: Raster, s: Settings): (m: seq<byte>)
    requires src.Valid()
    ensures |m| == src.width * src.height
  {
    if s.mode == Global then GlobalMaskOf(src, s.target, s.tolerance)
    else FillAll(src, Opaque(src.width * src.height), s.seeds, s.tolerance)
  }

  /** The alpha of pixel i on the canvas: the base mask eroded, then
      feathered. */
  ghost function FinalAlpha(src: Raster, s: Settings, i: int): int
    requires src.Valid() && 0 <= i < src.width * src.height
  {
    BoxMean(ErodeN(BaseMask(src, s), src.width, src.height, s.erode),
            src.width, src.height, s.feather, i)
  }

  /** The output raster has the source's size and colours, and the given
      alpha. */
  ghost predicate Composited(src: Raster, alpha: seq<byte>, out: Raster)
    requires src.Valid() && |alpha| == src.width * src.height
  {
    && out.width == src.width && out.height == src.height && out.Valid()
    && forall i :: 0 <= i < src.width * src.height ==>
         && out.data[4 * i] == src.data[4 * i]
         && out.data[4 * i + 1] == src.data[4 * i + 1]
         && out.data[4 * i + 2] == src.data[4 * i + 2]
         && out.data[4 * i + 3] == alpha[i]
  }

  /** The render loop: a fresh image of the source's size whose colour
      samples are copied from the source and whose alpha comes from the
      mask. */
  method Composite(src: Raster, alpha: seq<byte>) returns (out: Raster)
    requires src.Valid() && |alpha| == src.width * src.height
    ensures Composited(src, alpha, out)
  {
    var n := src.width * src.height;
    var data: seq<byte> := seq(4 * n, _ => 0);
    var i := 0;
    while i < n
      invariant 0 <= i <= n && |data| == 4 * n
      invariant forall j :: 0 <= j < i ==>
        && data[4 * j] == src.data[4 * j]
        && data[4 * j + 1] == src.data[4 * j + 1]
        && data[4 * j + 2] == src.data[4 * j + 2]
        && data[4 * j + 3] == alpha[j]
    {
      var idx := i * 4;
      data := data[idx := src.data[idx]][idx + 1 := src.data[idx + 1]]
                  [idx + 2 := src.data[idx + 2]][idx + 3 := alpha[i]];
      i := i + 1;
    }
    out := Raster(src.width, src.height, data);
  }

  /** The canvas shows the source's colours with the refined alpha. */
  ghost predicate Renders(src: Raster, s: Settings, out: Raster)
    requires src.Valid()
  {
    && out.width == src.width && out.height == src.height && out.Valid()
    && forall i :: 0 <= i < src.width * src.height ==>
         && out.data[4 * i] == src.data[4 * i]
         && out.data[4 * i + 1] == src.data[4 * i + 1]
         && out.data[4 * i + 2] == src.data[4 * i + 2]
         && out.data[4 * i + 3] == FinalAlpha(src, s, i)
  }

  /** The mask stage: start opaque, then clear by colour (global mode) or
      by flood fill from every seed (magic mode; nothing to do without
      seeds). */
  method ComputeBase(src: Raster, s: Settings) returns (base: seq<byte>)
    requires src.Valid()
    ensures base == BaseMask(src, s)
  {
    base := Opaque(src.width * src.height);
    if s.mode == Global {
      base := ProcessGlobalMask(src, base, s.target, s.tolerance);
    } else {
      if |s.seeds| > 0 {
        base := ApplySeeds(src, base, s.seeds, s.tolerance);
      }
    }
  }

  /** The refinement stage, on a copy of the base mask: erosion, then
      feathering, each skipped when its size is zero. Skipping changes
      nothing, because both are the identity at size zero. */
  method Refine(base: seq<byte>, w: nat, h: nat, erode: nat, feather: nat)
    returns (final: seq<byte>)
    requires w >= 1 && h >= 1 && |base| == w * h
    ensures |final| == w * h
    ensures forall i :: 0 <= i < w * h ==>
      final[i] == BoxMean(ErodeN(base, w, h, erode), w, h, feather, i)
  {
    final := base;
    if erode > 0 || feather > 0 {
      var temp := base;
      if erode > 0 {
        temp := ApplyErode(temp, w, h, erode);
      }
      if feather > 0 {
        temp := ApplyFeather(temp, w, h, feather);
      }
      final := temp;
    }
    forall i | 0 <= i < w * h
      ensures final[i] == BoxMean(ErodeN(base, w, h, erode), w, h, feather, i)
    {
      FeatherRadiusZero(ErodeN(base, w, h, erode), w, h, i);
    }
  }

  /** The whole pipeline. Nothing happens before an image is loaded.
      Otherwise the kept mask is the unrefined base mask, and the canvas
      shows every source colour with the eroded-then-feathered alpha. */
  method ProcessImage(img: Option<Raster>, s: Settings) returns (r: Option<Rendered>)
    requires img.Some? ==> img.value.Valid()
    ensures img.None? <==> r.None?
    ensures img.Some? ==>
      && r.Some?
      && r.value.alpha == BaseMask(img.value, s)
      && Renders(img.value, s, r.value.output)
  {
    if img.None? {
      return None;
    }
    var src := img.value;
    var base := ComputeBase(src, s);
    var final := Refine(base, src.width, src.height, s.erode, s.feather);
    var out := Composite(src, final);
    assert forall i :: 0 <= i < src.width * src.height ==> final[i] == FinalAlpha(src, s, i);
    r := Some(Rendered(base, out));
  }

  // ---------------------------------------------------------------------
  // Properties
  // ---------------------------------------------------------------------

  /** With neither erosion nor feathering, the canvas alpha is the base
      mask. */
  lemma NoRefinementShowsBase(src: Raster, s: Settings, i: int)
    requires src.Valid() && 0 <= i < src.width * src.height
    requires s.erode == 0 && s.feather == 0
    ensures FinalAlpha(src, s, i) == BaseMask(src, s)[i]
  {
    FeatherRadiusZero(BaseMask(src, s), src.width, src.height, i);
  }

  /** Magic mode before any click shows the image fully opaque, whatever the
      erosion and feathering. */
  lemma MagicWithoutSeedsIsOpaque(src: Raster, s: Settings, i: int)
    requires src.Valid() && 0 <= i < src.width * src.height
    requires s.mode == Magic && |s.seeds| == 0
    ensures FinalAlpha(src, s, i) == 255
  {
    var w, h := src.width, src.height;
    ErodeUniformFixed(Opaque(w * h), w, h, s.erode, 255);
    FeatherUniform(ErodeN(Opaque(w * h), w, h, s.erode), w, h, s.feather, 255);
  }

  /** Global mode with tolerance zero removes nothing. */
  lemma GlobalZeroToleranceIsOpaque(src: Raster, s: Settings, i: int)
    requires src.Valid() && 0 <= i < src.width * src.height
    requires s.mode == Global && s.tolerance == 0
    ensures FinalAlpha(src, s, i) == 255
  {
    var w, h := src.width, src.height;
    ToleranceZeroKeepsAll(src, s.target);
    ErodeUniformFixed(BaseMask(src, s), w, h, s.erode, 255);
    FeatherUniform(ErodeN(BaseMask(src, s), w, h, s.erode), w, h, s.feather, 255);
  }

  /** An image entirely of the target colour disappears in global mode as
      soon as the tolerance is positive. */
  lemma UniformTargetVanishes(src: Raster, s: Settings, i: int)
    requires src.Valid() && 0 <= i < src.width * src.height
    requires s.mode == Global && s.tolerance >= 1
    requires forall j :: 0 <= j < src.width * src.height ==> PixelColor(src, j) == s.target
    ensures FinalAlpha(src, s, i) == 0
  {
    var w, h := src.width, src.height;
    forall j | 0 <= j < w * h
      ensures BaseMask(src, s)[j] == 0
    {
      ToleranceOneIsExactColour(src, s.target, j);
      RemovedMonotone(src, s.target, 1, s.tolerance, j);
    }
    ErodeUniformFixed(BaseMask(src, s), w, h, s.erode, 0);
    FeatherUniform(ErodeN(BaseMask(src, s), w, h, s.erode), w, h, s.feather, 0);
  }
}
