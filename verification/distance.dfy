/**
 Colour matching. script.js measures the Euclidean RGB distance with
 Math.sqrt and compares it with an integer tolerance; this module states the
 distance squared, over integers, and shows the two comparisons agree.
 */
module Distance {
  import opened Image

  /** Squared Euclidean distance between two colours in RGB space. */
  function SqDist(a: Color, b: Color): nat
  {
    (a.r - b.r) * (a.r - b.r) + (a.g - b.g) * (a.g - b.g) + (a.b - b.b) * (a.b - b.b)
  }

  /** For a non-negative tolerance, comparing the exact square root of the
      squared distance with the tolerance is the same as comparing the squared
      distance with the squared tolerance, both for the strict test of global
      mode and for the inclusive test of region growing. */
  lemma SqrtComparison(d2: nat, s: real, tol: nat)
    requires s >= 0.0 && s * s == d2 as real
    ensures s < tol as real <==> d2 < tol * tol
    ensures s <= tol as real <==> d2 <= tol * tol
  {
    var t := tol as real;
    assert (tol * tol) as real == t * t;
    if s < t { SquareStrict(s, t); } else { SquareMono(t, s); }
    if s <= t { SquareMono(s, t); } else { SquareStrict(t, s); }
  }

  lemma SquareMono(a: real, b: real)
    requires 0.0 <= a <= b
    ensures a * a <= b * b
  {
    var aa, ab, bb := a * a, a * b, b * b;
    assert aa <= ab;
    assert ab <= bb;
  }

  lemma SquareStrict(a: real, b: real)
    requires 0.0 <= a < b
    ensures a * a < b * b
  {
    var aa, ab, bb := a * a, a * b, b * b;
    assert aa <= ab;
    assert ab < bb;
  }

  /** Only an identical colour lies at squared distance zero. */
  lemma SqDistZero(a: Color, b: Color)
    ensures SqDist(a, b) == 0 <==> a == b
  {
    if SqDist(a, b) == 0 {
      SquareZero(a.r - b.r);
      SquareZero(a.g - b.g);
      SquareZero(a.b - b.b);
    }
  }

  lemma SquareZero(d: int)
    ensures d * d >= 0
    ensures d * d == 0 ==> d == 0
  {
    if d > 0 { assert d * d >= d; } else if d < 0 { assert d * d >= -d; }
  }
}
