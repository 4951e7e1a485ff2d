/**
 Mask feathering: a separable box blur. A horizontal pass averages each entry
 over the in-grid columns within the radius; a vertical pass averages those
 averages over the in-grid rows within the radius and rounds down. The
 result at a pixel is the floor of the mean of the mask over the clipped
 (2r+1) x (2r+1) box around it.
 */
module Feather {
  import opened Image

  /** First and last in-range coordinate of the window of radius r around c,
      on an axis of n positions, and how many positions it holds. */
  function Lo(c: int, r: nat): int { Max(0, c - r) }
  function Hi(c: int, r: nat, n: nat): int { Min(n - 1, c + r) }
  function Count(c: int, r: nat, n: nat): int { Hi(c, r, n) - Lo(c, r) + 1 }

  /** Sum of row y of the mask over columns a until b. */
  function RowSum(m: seq<byte>, w: nat, h: nat, y: int, a: int, b: int): int
    requires |m| == w * h && 0 <= y < h && 0 <= a <= b <= w
    decreases b - a
  {
    if a == b then 0 else RowSum(m, w, h, y, a, b - 1) + At(m, w, h, b - 1, y)
  }

  /** Sum of the mask over columns a until b of rows c until d. */
  function BoxSum(m: seq<byte>, w: nat, h: nat, a: int, b: int, c: int, d: int): int
    requires |m| == w * h && 0 <= a <= b <= w && 0 <= c <= d <= h
    decreases d - c
  {
    if c == d then 0 else BoxSum(m, w, h, a, b, c, d - 1) + RowSum(m, w, h, d - 1, a, b)
  }

  /** Sum of column x of a real-valued buffer over rows c until d. */
  function ColSum(t: seq<real>, w: nat, h: nat, x: int, c: int, d: int): real
    requires |t| == w * h && 0 <= x < w && 0 <= c <= d <= h
    decreases d - c
  {
    if c == d then 0.0
    else
      IdxCoords(w, h, x, d - 1);
      ColSum(t, w, h, x, c, d - 1) + t[Idx(w, x, d - 1)]
  }

  /** The reference result: the floor of the mean of the mask over the clipped
      box of radius r around pixel i. */
  function BoxMean(m: seq<byte>, w: nat, h: nat, r: nat, i: int): int
    requires w > 0 && |m| == w * h && 0 <= i < w * h
  {
    CoordsIdx(w, h, i);
    var x, y := Col(w, i), Row(w, i);
    MulPos(Count(x, r, w), Count(y, r, h));
    BoxSum(m, w, h, Lo(x, r), Hi(x, r, w) + 1, Lo(y, r), Hi(y, r, h) + 1)
      / (Count(x, r, w) * Count(y, r, h))
  }

  /** What the horizontal pass stores for pixel i. Single-precision storage
      is idealised as exact. */
  function RowMean(m: seq<byte>, w: nat, h: nat, r: nat, i: int): real
    requires w > 0 && |m| == w * h && 0 <= i < w * h
  {
    CoordsIdx(w, h, i);
    var x, y := Col(w, i), Row(w, i);
    RowSum(m, w, h, y, Lo(x, r), Hi(x, r, w) + 1) as real / Count(x, r, w) as real
  }

  // ---------------------------------------------------------------------
  // Arithmetic
  // ---------------------------------------------------------------------

  /** The floor of an exact real quotient is the integer quotient. */
  lemma FloorDiv(n: int, d: int)
    requires d > 0
    ensures (n as real / d as real).Floor == n / d
  {
    var q, r := n / d, n % d;
    var qd := q * d;
    assert n == qd + r;
    var dr, qr, nr := d as real, q as real, n as real;
    var qdr := qr * dr;
    assert qd as real == qdr;
    var f := nr / dr;
    DivMul(nr, dr);
    RealCancel(qr, f, dr);
    assert (qr + 1.0) * dr == qdr + dr;
    RealCancelStrict(f, qr + 1.0, dr);
  }

  lemma DivMul(x: real, y: real)
    requires y > 0.0
    ensures (x / y) * y == x
  {
  }

  lemma RealCancel(a: real, b: real, c: real)
    requires c > 0.0 && a * c <= b * c
    ensures a <= b
  {
  }

  lemma RealCancelStrict(a: real, b: real, c: real)
    requires c > 0.0 && a * c < b * c
    ensures a < b
  {
  }

  /** Averaging row means over rows is the same as averaging over the box. */
  lemma DivDiv(s: real, a: int, b: int)
    requires a > 0 && b > 0
    ensures (s / a as real) / b as real == s / (a * b) as real
  {
    var ar, br := a as real, b as real;
    var ab := a * b;
    assert ab as real == ar * br;
  }

  /** A sum of row means, each over the same count, is the mean of the sum. */
  lemma AddDiv(p: real, q: real, c: real)
    requires c > 0.0
    ensures p / c + q / c == (p + q) / c
  {
  }

  lemma MulSucc(a: int, k: int)
    ensures a * (k + 1) == a * k + a
  {
  }

  lemma MulAssoc(a: int, b: int, c: int)
    ensures a * b * c == a * (b * c)
  {
  }

  /** Euclidean quotient bounds: a sum between lo * n and hi * n has its
      quotient by n between lo and hi. */
  lemma DivBounds(s: int, n: int, lo: int, hi: int)
    requires n > 0 && lo * n <= s <= hi * n
    ensures lo <= s / n <= hi
  {
    var q := s / n;
    assert s == q * n + s % n;
    assert (q + 1) * n == q * n + n;
    MulCancel(lo, q + 1, n);
    assert (hi + 1) * n == hi * n + n;
    MulCancel(q, hi + 1, n);
  }

  // ---------------------------------------------------------------------
  // Properties
  // ---------------------------------------------------------------------

  /** Row sums of entries between lo and hi lie between lo and hi times the
      window length. */
  lemma {:induction false} RowSumBounds(m: seq<byte>, w: nat, h: nat, y: int, a: int, b: int, lo: int, hi: int)
    requires |m| == w * h && 0 <= y < h && 0 <= a <= b <= w
    requires forall px :: a <= px < b ==> lo <= At(m, w, h, px, y) <= hi
    ensures lo * (b - a) <= RowSum(m, w, h, y, a, b) <= hi * (b - a)
    decreases b - a
  {
    if a < b {
      RowSumBounds(m, w, h, y, a, b - 1, lo, hi);
      var e := At(m, w, h, b - 1, y);
      assert RowSum(m, w, h, y, a, b) == RowSum(m, w, h, y, a, b - 1) + e;
      assert lo <= e <= hi;
      MulSucc(lo, b - 1 - a);
      MulSucc(hi, b - 1 - a);
    }
  }

  /** Box sums of entries between lo and hi lie between lo and hi times the
      box area. */
  lemma {:induction false} BoxSumBounds(m: seq<byte>, w: nat, h: nat, a: int, b: int, c: int, d: int, lo: int, hi: int)
    requires |m| == w * h && 0 <= a <= b <= w && 0 <= c <= d <= h
    requires forall px, py :: a <= px < b && c <= py < d ==> lo <= At(m, w, h, px, py) <= hi
    ensures lo * (b - a) * (d - c) <= BoxSum(m, w, h, a, b, c, d) <= hi * (b - a) * (d - c)
    decreases d - c
  {
    if c < d {
      BoxSumBounds(m, w, h, a, b, c, d - 1, lo, hi);
      RowSumBounds(m, w, h, d - 1, a, b, lo, hi);
      assert BoxSum(m, w, h, a, b, c, d) == BoxSum(m, w, h, a, b, c, d - 1) + RowSum(m, w, h, d - 1, a, b);
      MulSucc(lo * (b - a), d - 1 - c);
      MulSucc(hi * (b - a), d - 1 - c);
    }
  }

  /** The feathered value of a pixel lies between the least and the greatest
      mask entry of its box; in particular it is a byte. */
  lemma FeatherBounds(m: seq<byte>, w: nat, h: nat, r: nat, i: int, lo: int, hi: int)
    requires w > 0 && |m| == w * h && 0 <= i < w * h
    requires forall px, py ::
      (&& Lo(Col(w, i), r) <= px <= Hi(Col(w, i), r, w)
       && Lo(Row(w, i), r) <= py <= Hi(Row(w, i), r, h)) ==> lo <= At(m, w, h, px, py) <= hi
    ensures lo <= BoxMean(m, w, h, r, i) <= hi
  {
    CoordsIdx(w, h, i);
    var x, y := Col(w, i), Row(w, i);
    var a, b, c, d := Lo(x, r), Hi(x, r, w) + 1, Lo(y, r), Hi(y, r, h) + 1;
    BoxSumBounds(m, w, h, a, b, c, d, lo, hi);
    var cw, ch := b - a, d - c;
    var n := cw * ch;
    MulMono(1, ch, cw);
    MulAssoc(lo, cw, ch);
    MulAssoc(hi, cw, ch);
    DivBounds(BoxSum(m, w, h, a, b, c, d), n, lo, hi);
  }

  /** Every feathered value is a byte. */
  lemma FeatherIsByte(m: seq<byte>, w: nat, h: nat, r: nat, i: int)
    requires w > 0 && |m| == w * h && 0 <= i < w * h
    ensures 0 <= BoxMean(m, w, h, r, i) < 256
  {
    forall px, py | (&& Lo(Col(w, i), r) <= px <= Hi(Col(w, i), r, w)
                     && Lo(Row(w, i), r) <= py <= Hi(Row(w, i), r, h))
      ensures 0 <= At(m, w, h, px, py) <= 255
    {
      var e: byte := At(m, w, h, px, py);
    }
    FeatherBounds(m, w, h, r, i, 0, 255);
  }

  /** A uniform mask is left as it is. */
  lemma FeatherUniform(m: seq<byte>, w: nat, h: nat, r: nat, v: byte)
    requires w > 0 && |m| == w * h
    requires forall j :: 0 <= j < |m| ==> m[j] == v
    ensures forall i :: 0 <= i < |m| ==> BoxMean(m, w, h, r, i) == v
  {
    forall i | 0 <= i < |m|
      ensures BoxMean(m, w, h, r, i) == v
    {
      forall px, py | (&& Lo(Col(w, i), r) <= px <= Hi(Col(w, i), r, w)
                       && Lo(Row(w, i), r) <= py <= Hi(Row(w, i), r, h))
        ensures v <= At(m, w, h, px, py) <= v
      {
        CoordsIdx(w, h, i);
        IdxCoords(w, h, px, py);
      }
      FeatherBounds(m, w, h, r, i, v, v);
    }
  }

  /** Radius zero is the identity, which script.js short-cuts. */
  lemma FeatherRadiusZero(m: seq<byte>, w: nat, h: nat, i: int)
    requires w > 0 && |m| == w * h && 0 <= i < w * h
    ensures BoxMean(m, w, h, 0, i) == m[i]
  {
    CoordsIdx(w, h, i);
    var x, y := Col(w, i), Row(w, i);
    assert RowSum(m, w, h, y, x, x + 1) == m[i];
    assert BoxSum(m, w, h, x, x + 1, y, y + 1) == m[i];
  }

  /** Summing the stored row means down a column gives the box sum over the
      common horizontal count. */
  lemma {:induction false} ColumnOfRowMeans(m: seq<byte>, t: seq<real>, w: nat, h: nat, r: nat, x: int, c: int, d: int)
    requires w > 0 && |m| == w * h && |t| == w * h && 0 <= x < w && 0 <= c <= d <= h
    requires forall k :: 0 <= k < w * h ==> t[k] == RowMean(m, w, h, r, k)
    ensures ColSum(t, w, h, x, c, d)
            == BoxSum(m, w, h, Lo(x, r), Hi(x, r, w) + 1, c, d) as real / Count(x, r, w) as real
    decreases d - c
  {
    if c < d {
      ColumnOfRowMeans(m, t, w, h, r, x, c, d - 1);
      IdxCoords(w, h, x, d - 1);
      assert t[Idx(w, x, d - 1)] == RowMean(m, w, h, r, Idx(w, x, d - 1));
      AddDiv(BoxSum(m, w, h, Lo(x, r), Hi(x, r, w) + 1, c, d - 1) as real,
             RowSum(m, w, h, d - 1, Lo(x, r), Hi(x, r, w) + 1) as real, Count(x, r, w) as real);
    }
  }

  /** The two passes compute the box mean at every pixel. */
  lemma TwoPassIsBoxMean(m: seq<byte>, t: seq<real>, w: nat, h: nat, r: nat, x: int, y: int)
    requires w > 0 && |m| == w * h && |t| == w * h && InGrid(w, h, x, y)
    requires forall k :: 0 <= k < w * h ==> t[k] == RowMean(m, w, h, r, k)
    ensures 0 <= Idx(w, x, y) < w * h
    ensures (ColSum(t, w, h, x, Lo(y, r), Hi(y, r, h) + 1) / Count(y, r, h) as real).Floor
            == BoxMean(m, w, h, r, Idx(w, x, y))
  {
    IdxCoords(w, h, x, y);
    var s := BoxSum(m, w, h, Lo(x, r), Hi(x, r, w) + 1, Lo(y, r), Hi(y, r, h) + 1);
    ColumnOfRowMeans(m, t, w, h, r, x, Lo(y, r), Hi(y, r, h) + 1);
    DivDiv(s as real, Count(x, r, w), Count(y, r, h));
    MulPos(Count(x, r, w), Count(y, r, h));
    FloorDiv(s, Count(x, r, w) * Count(y, r, h));
  }

  // ---------------------------------------------------------------------
  // The loops of script.js
  // ---------------------------------------------------------------------

  /** Horizontal window of pixel (x, y): offsets -r to r, in-range columns
      only. */
  method HorizontalWindow(m: seq<byte>, w: nat, h: nat, r: nat, x: int, y: int)
    returns (sum: int, count: int)
    requires |m| == w * h && InGrid(w, h, x, y)
    ensures sum == RowSum(m, w, h, y, Lo(x, r), Hi(x, r, w) + 1)
    ensures count == Count(x, r, w) && 1 <= count <= 2 * r + 1
  {
    sum, count := 0, 0;
    var k := -(r as int);
    while k <= r
      invariant -(r as int) <= k <= r + 1
      invariant sum == RowSum(m, w, h, y, Lo(x, r), Max(Lo(x, r), Min(w, x + k)))
      invariant count == Max(Lo(x, r), Min(w, x + k)) - Lo(x, r)
    {
      var px := x + k;
      if px >= 0 && px < w {
        IdxCoords(w, h, px, y);
        sum := sum + m[y * w + px];
        count := count + 1;
      }
      k := k + 1;
    }
  }

  /** Vertical window of pixel (x, y) over the row means. */
  method VerticalWindow(t: seq<real>, w: nat, h: nat, r: nat, x: int, y: int)
    returns (sum: real, count: int)
    requires |t| == w * h && InGrid(w, h, x, y)
    ensures sum == ColSum(t, w, h, x, Lo(y, r), Hi(y, r, h) + 1)
    ensures count == Count(y, r, h) && 1 <= count <= 2 * r + 1
  {
    sum, count := 0.0, 0;
    var k := -(r as int);
    while k <= r
      invariant -(r as int) <= k <= r + 1
      invariant sum == ColSum(t, w, h, x, Lo(y, r), Max(Lo(y, r), Min(h, y + k)))
      invariant count == Max(Lo(y, r), Min(h, y + k)) - Lo(y, r)
    {
      var py := y + k;
      if py >= 0 && py < h {
        IdxCoords(w, h, x, py);
        sum := sum + t[py * w + x];
        count := count + 1;
      }
      k := k + 1;
    }
  }

  /** The horizontal pass, row by row. */
  method HorizontalPass(m: seq<byte>, w: nat, h: nat, r: nat) returns (t: seq<real>)
    requires w > 0 && |m| == w * h
    ensures |t| == w * h
    ensures forall k :: 0 <= k < w * h ==> t[k] == RowMean(m, w, h, r, k)
  {
    t := seq(w * h, _ => 0.0);
    var y := 0;
    assert y * w == 0;
    while y < h
      invariant 0 <= y <= h && |t| == w * h && 0 <= y * w <= w * h
      invariant forall k :: 0 <= k < y * w ==> t[k] == RowMean(m, w, h, r, k)
    {
      var x := 0;
      while x < w
        invariant 0 <= x <= w && |t| == w * h && y * w + x <= w * h
        invariant forall k :: 0 <= k < y * w + x ==> t[k] == RowMean(m, w, h, r, k)
      {
        var sum, count := HorizontalWindow(m, w, h, r, x, y);
        IdxCoords(w, h, x, y);
        t := t[y * w + x := sum as real / count as real];
        x := x + 1;
      }
      assert y * w + w == (y + 1) * w;
      y := y + 1;
    }
    assert y * w == w * h;
  }

  /** The vertical pass, column by column, writing the rounded-down means
      into the mask. */
  method VerticalPass(m: seq<byte>, t: seq<real>, w: nat, h: nat, r: nat) returns (out: seq<byte>)
    requires w > 0 && |m| == w * h && |t| == w * h
    requires forall k :: 0 <= k < w * h ==> t[k] == RowMean(m, w, h, r, k)
    ensures |out| == w * h
    ensures forall k :: 0 <= k < w * h ==> out[k] == BoxMean(m, w, h, r, k)
  {
    out := m;
    var x := 0;
    assert forall k :: 0 <= k < w * h ==> !(Col(w, k) < x);
    while x < w
      invariant 0 <= x <= w && |out| == w * h
      invariant forall k :: 0 <= k < w * h && Col(w, k) < x ==> out[k] == BoxMean(m, w, h, r, k)
    {
      var y := 0;
      while y < h
        invariant 0 <= y <= h && |out| == w * h
        invariant forall k :: 0 <= k < w * h && (Col(w, k) < x || (Col(w, k) == x && Row(w, k) < y)) ==>
                    out[k] == BoxMean(m, w, h, r, k)
      {
        var sum, count := VerticalWindow(t, w, h, r, x, y);
        TwoPassIsBoxMean(m, t, w, h, r, x, y);
        FeatherIsByte(m, w, h, r, Idx(w, x, y));
        forall k | 0 <= k < w * h && Col(w, k) == x && Row(w, k) == y
          ensures k == Idx(w, x, y)
        {
          CoordsIdx(w, h, k);
        }
        out := out[y * w + x := (sum / count as real).Floor];
        y := y + 1;
      }
      forall k | 0 <= k < w * h && Col(w, k) == x
        ensures Row(w, k) < h
      {
        CoordsIdx(w, h, k);
      }
      x := x + 1;
    }
    forall k | 0 <= k < w * h
      ensures Col(w, k) < w
    {
      CoordsIdx(w, h, k);
    }
  }

  /** The feathering of script.js. Radius zero returns at once; otherwise every
      entry becomes the rounded-down mean of its clipped box. */
  method ApplyFeather(buffer: seq<byte>, w: nat, h: nat, radius: nat) returns (out: seq<byte>)
    requires w > 0 && |buffer| == w * h
    ensures |out| == |buffer|
    ensures forall i :: 0 <= i < |out| ==> out[i] == BoxMean(buffer, w, h, radius, i)
  {
    if radius == 0 {
      forall i | 0 <= i < |buffer|
        ensures buffer[i] == BoxMean(buffer, w, h, radius, i)
      {
        FeatherRadiusZero(buffer, w, h, i);
      }
      return buffer;
    }
    var temp := HorizontalPass(buffer, w, h, radius);
    out := VerticalPass(buffer, temp, w, h, radius);
  }
}
