/**
 Global mode: one target colour is removed everywhere. A pixel is cleared
 when its RGB distance to the target is strictly below the tolerance, and
 kept otherwise; every mask entry is overwritten.
 */
module GlobalMask {
  import opened Image
  import opened Distance

  /** Global mode's (strict) match test, on squared distances. */
  predicate Removed(src: Raster, target: Color, tol: nat, i: int)
    requires src.Valid() && 0 <= i < src.width * src.height
  {
    SqDist(PixelColor(src, i), target) < tol * tol
  }

  /** The mask global mode produces for the whole raster. */
  function GlobalMaskOf(src: Raster, target: Color, tol: nat): (m: seq<byte>)
    requires src.Valid()
    ensures |m| == src.width * src.height
  {
    seq(src.width * src.height, i requires 0 <= i < src.width * src.height =>
      if Removed(src, target, tol, i) then 0 else 255)
  }

  /** The loop of script.js: whatever the mask held before, entry i ends up
      0 exactly when pixel i lies strictly inside the tolerance, 255 otherwise. */
  method ProcessGlobalMask(src: Raster, mask: seq<byte>, target: Color, tol: nat)
    returns (out: seq<byte>)
    requires src.Valid() && |mask| == src.width * src.height
    ensures |out| == |mask|
    ensures forall i :: 0 <= i < |out| ==>
      out[i] == (if SqDist(PixelColor(src, i), target) < tol * tol then 0 else 255)
    ensures out == GlobalMaskOf(src, target, tol)
  {
    out := mask;
    var len := |mask|;
    var i := 0;
    while i < len
      invariant 0 <= i <= len && |out| == len
      invariant forall j :: 0 <= j < i ==>
        out[j] == (if SqDist(PixelColor(src, j), target) < tol * tol then 0 else 255)
    {
      var idx := i * 4;
      var r, g, b := src.data[idx], src.data[idx + 1], src.data[idx + 2];
      var d2 := (r - target.r) * (r - target.r) + (g - target.g) * (g - target.g)
              + (b - target.b) * (b - target.b);
      if d2 < tol * tol {
        out := out[i := 0];
      } else {
        out := out[i := 255];
      }
      i := i + 1;
    }
  }

  /** The integer test is the test of script.js: for any exact square root s of
      the squared distance, s < tol holds exactly when the pixel is removed. */
  lemma RemovedMatchesSqrt(src: Raster, target: Color, tol: nat, i: int, s: real)
    requires src.Valid() && 0 <= i < src.width * src.height
    requires s >= 0.0 && s * s == SqDist(PixelColor(src, i), target) as real
    ensures Removed(src, target, tol, i) <==> s < tol as real
  {
    SqrtComparison(SqDist(PixelColor(src, i), target), s, tol);
  }

  /** Tolerance 0 removes nothing, not even pixels of exactly the target
      colour: the distance is never strictly below 0. */
  lemma ToleranceZeroKeepsAll(src: Raster, target: Color)
    requires src.Valid()
    ensures forall i :: 0 <= i < |GlobalMaskOf(src, target, 0)| ==>
      GlobalMaskOf(src, target, 0)[i] == 255
  {
  }

  /** Tolerance 1 removes exactly the pixels of the target colour. */
  lemma ToleranceOneIsExactColour(src: Raster, target: Color, i: int)
    requires src.Valid() && 0 <= i < src.width * src.height
    ensures Removed(src, target, 1, i) <==> PixelColor(src, i) == target
  {
    SqDistZero(PixelColor(src, i), target);
  }

  /** Raising the tolerance never brings a removed pixel back. */
  lemma RemovedMonotone(src: Raster, target: Color, tol1: nat, tol2: nat, i: int)
    requires src.Valid() && 0 <= i < src.width * src.height && tol1 <= tol2
    ensures Removed(src, target, tol1, i) ==> Removed(src, target, tol2, i)
  {
    MulMono(tol1, tol2, tol1);
    MulMono(tol1, tol2, tol2);
  }
}
