/**
 The raster and mask vocabulary shared by every stage of the matte pipeline:
 8-bit samples, RGB colours, the row-major RGBA source raster, and the
 geometry of a width x height pixel grid addressed by flat row-major index.
 */
module Image {

  /** One 8-bit sample: a colour channel, or one entry of an alpha mask. */
  type byte = x: int | 0 <= x < 256

  datatype Option<T> = None | Some(value: T)

  datatype Color = Color(r: byte, g: byte, b: byte)

  /** The loaded source image: four samples (R, G, B, A) per pixel, row-major.
      A canvas never yields image data of zero width or height, so a valid
      raster has at least one pixel. */
  datatype Raster = Raster(width: nat, height: nat, data: seq<byte>)
  {
    predicate Valid() {
      width >= 1 && height >= 1 && |data| == 4 * (width * height)
    }
  }

  /** The RGB colour of pixel i; the alpha sample is never consulted. */
  function PixelColor(img: Raster, i: int): Color
    requires img.Valid() && 0 <= i < img.width * img.height
  {
    Color(img.data[4 * i], img.data[4 * i + 1], img.data[4 * i + 2])
  }

  function Min(a: int, b: int): int { if a <= b then a else b }
  function Max(a: int, b: int): int { if a >= b then a else b }
  function Abs(a: int): nat { if a >= 0 then a else -a }

  // ---------------------------------------------------------------------
  // Grid geometry
  // ---------------------------------------------------------------------

  /** Flat row-major index of column x, row y. */
  function Idx(w: nat, x: int, y: int): int { y * w + x }

  function Col(w: nat, i: int): (c: int)
    requires w > 0
    ensures 0 <= c < w
  {
    i % w
  }

  /** Entry (x, y) of a row-major grid. */
  function At(m: seq<byte>, w: nat, h: nat, x: int, y: int): byte
    requires |m| == w * h && InGrid(w, h, x, y)
  {
    IdxCoords(w, h, x, y);
    m[Idx(w, x, y)]
  }

  lemma MulPos(a: int, b: int)
    requires a > 0 && b > 0
    ensures a * b > 0
  {
    MulMono(1, a, b);
  }

  /** Euclidean multiplication cancels a positive factor under strict order. */
  lemma MulCancel(a: int, b: int, n: int)
    requires n > 0 && a * n < b * n
    ensures a < b
  {
    if a >= b {
      MulMono(b, a, n);
    }
  }

  function Row(w: nat, i: int): (r: int)
    requires w > 0
    ensures i >= 0 ==> r >= 0
  {
    i / w
  }

  predicate InGrid(w: nat, h: nat, x: int, y: int) {
    0 <= x < w && 0 <= y < h
  }

  lemma MulMono(a: int, b: int, w: nat)
    requires a <= b
    ensures a * w <= b * w
  {
    assert b * w - a * w == (b - a) * w;
  }

  /** Euclidean division by a positive width is determined by its defining
      equation. */
  lemma DivModUnique(i: int, w: nat, q: int, r: int)
    requires w > 0 && 0 <= r < w && i == q * w + r
    ensures i / w == q && i % w == r
  {
    var q', r' := i / w, i % w;
    assert i == q' * w + r';
    assert (q - q') * w == q * w - q' * w;
    if q > q' {
      MulMono(1, q - q', w);
    } else if q < q' {
      MulMono(1, q' - q, w);
    }
  }

  /** Coordinates in the grid map to a flat index in range, and back. */
  lemma IdxCoords(w: nat, h: nat, x: int, y: int)
    requires InGrid(w, h, x, y)
    ensures 0 <= Idx(w, x, y) < w * h
    ensures Col(w, Idx(w, x, y)) == x && Row(w, Idx(w, x, y)) == y
  {
    MulMono(0, y, w);
    MulMono(y + 1, h, w);
    assert (y + 1) * w == y * w + w;
    assert h * w == w * h;
    DivModUnique(Idx(w, x, y), w, y, x);
  }

  /** Every flat index in range comes from in-grid coordinates. */
  lemma CoordsIdx(w: nat, h: nat, i: int)
    requires w > 0 && 0 <= i < w * h
    ensures InGrid(w, h, Col(w, i), Row(w, i))
    ensures Idx(w, Col(w, i), Row(w, i)) == i
  {
    var q := i / w;
    assert i == q * w + i % w;
    if q >= h {
      MulMono(h, q, w);
    }
  }

  /** j is one of the in-grid 4-neighbours of pixel i: left, right, above or
      below, guarded exactly as the neighbour pushes of the flood fill and the
      neighbour reads of the erosion pass are. */
  predicate Adjacent(w: nat, h: nat, i: int, j: int)
    requires w > 0
  {
    && 0 <= i < w * h
    && ( (j == i - 1 && Col(w, i) > 0)
      || (j == i + 1 && Col(w, i) < w - 1)
      || (j == i - w && Row(w, i) > 0)
      || (j == i + w && Row(w, i) < h - 1))
  }

  /** The flat indices and coordinates of the in-grid 4-neighbours of (x, y),
      and the fact that these are all its adjacent pixels. */
  /** The flat indices of the in-grid neighbours of (x, y), without their
      coordinates. */
  lemma NeighbourIdx(w: nat, h: nat, x: int, y: int)
    requires InGrid(w, h, x, y)
    ensures 0 <= Idx(w, x, y) < w * h
    ensures x > 0 ==> Idx(w, x - 1, y) == Idx(w, x, y) - 1
    ensures x < w - 1 ==> Idx(w, x + 1, y) == Idx(w, x, y) + 1 && Idx(w, x, y) + 1 < w * h
    ensures y > 0 ==> Idx(w, x, y - 1) == Idx(w, x, y) - w && 0 <= Idx(w, x, y) - w
    ensures y < h - 1 ==> Idx(w, x, y + 1) == Idx(w, x, y) + w && Idx(w, x, y) + w < w * h
  {
    Neighbours(w, h, x, y);
  }

  lemma Neighbours(w: nat, h: nat, x: int, y: int)
    requires InGrid(w, h, x, y)
    ensures 0 <= Idx(w, x, y) < w * h
    ensures Col(w, Idx(w, x, y)) == x && Row(w, Idx(w, x, y)) == y
    ensures x > 0 ==>
              (&& Idx(w, x - 1, y) == Idx(w, x, y) - 1 && 0 <= Idx(w, x, y) - 1
               && Col(w, Idx(w, x, y) - 1) == x - 1 && Row(w, Idx(w, x, y) - 1) == y)
    ensures x < w - 1 ==>
              (&& Idx(w, x + 1, y) == Idx(w, x, y) + 1 && Idx(w, x, y) + 1 < w * h
               && Col(w, Idx(w, x, y) + 1) == x + 1 && Row(w, Idx(w, x, y) + 1) == y)
    ensures y > 0 ==>
              (&& Idx(w, x, y - 1) == Idx(w, x, y) - w && 0 <= Idx(w, x, y) - w
               && Col(w, Idx(w, x, y) - w) == x && Row(w, Idx(w, x, y) - w) == y - 1)
    ensures y < h - 1 ==>
              (&& Idx(w, x, y + 1) == Idx(w, x, y) + w && Idx(w, x, y) + w < w * h
               && Col(w, Idx(w, x, y) + w) == x && Row(w, Idx(w, x, y) + w) == y + 1)
  {
    IdxCoords(w, h, x, y);
    if x > 0 { IdxCoords(w, h, x - 1, y); }
    if x < w - 1 { IdxCoords(w, h, x + 1, y); }
    if y > 0 { RowAbove(w, h, x, y); }
    if y < h - 1 { RowAbove(w, h, x, y + 1); }
  }

  /** The pixel above (x, y) is one row-width earlier in the flat order. */
  lemma RowAbove(w: nat, h: nat, x: int, y: int)
    requires InGrid(w, h, x, y) && y > 0
    ensures Idx(w, x, y - 1) == Idx(w, x, y) - w
    ensures 0 <= Idx(w, x, y - 1) < w * h && 0 <= Idx(w, x, y) < w * h
    ensures Col(w, Idx(w, x, y - 1)) == x && Row(w, Idx(w, x, y - 1)) == y - 1
    ensures Col(w, Idx(w, x, y)) == x && Row(w, Idx(w, x, y)) == y
  {
    IdxCoords(w, h, x, y - 1);
    IdxCoords(w, h, x, y);
    assert (y - 1) * w == y * w - w;
  }

  /** The adjacent pixels of (x, y) are its in-grid left, right, upper and
      lower neighbours. */
  lemma AdjacentCases(w: nat, h: nat, x: int, y: int, j: int)
    requires InGrid(w, h, x, y) && Adjacent(w, h, Idx(w, x, y), j)
    ensures 0 <= j < w * h
    ensures || (x > 0 && j == Idx(w, x, y) - 1 && Col(w, j) == x - 1 && Row(w, j) == y)
            || (x < w - 1 && j == Idx(w, x, y) + 1 && Col(w, j) == x + 1 && Row(w, j) == y)
            || (y > 0 && j == Idx(w, x, y) - w && Col(w, j) == x && Row(w, j) == y - 1)
            || (y < h - 1 && j == Idx(w, x, y) + w && Col(w, j) == x && Row(w, j) == y + 1)
  {
    Neighbours(w, h, x, y);
  }

  /** Grid (Manhattan) distance between two flat indices. */
  function Manhattan(w: nat, i: int, j: int): nat
    requires w > 0
  {
    Abs(Col(w, i) - Col(w, j)) + Abs(Row(w, i) - Row(w, j))
  }

  /** A flat index in range is determined by its coordinates. */
  lemma CoordsInjective(w: nat, h: nat, i: int, j: int)
    requires w > 0 && 0 <= i < w * h && 0 <= j < w * h
    requires Col(w, i) == Col(w, j) && Row(w, i) == Row(w, j)
    ensures i == j
  {
    CoordsIdx(w, h, i);
    CoordsIdx(w, h, j);
  }

  /** Adjacent pixels are in range and exactly one grid step apart, and
      conversely every in-range pixel one step away is adjacent. */
  lemma AdjacentIff(w: nat, h: nat, i: int, j: int)
    requires w > 0 && 0 <= i < w * h
    ensures Adjacent(w, h, i, j) <==> (0 <= j < w * h && Manhattan(w, i, j) == 1)
  {
    CoordsIdx(w, h, i);
    var x, y := Col(w, i), Row(w, i);
    assert Idx(w, x, y) == i;
    if Adjacent(w, h, i, j) {
      AdjacentCases(w, h, x, y, j);
      assert 0 <= j < w * h && Manhattan(w, i, j) == 1;
    }
    if 0 <= j < w * h && Manhattan(w, i, j) == 1 {
      OneStepAdjacent(w, h, x, y, j);
      assert Adjacent(w, h, i, j);
    }
  }

  /** An in-range pixel one grid step from (x, y) is adjacent to it. */
  lemma OneStepAdjacent(w: nat, h: nat, x: int, y: int, j: int)
    requires InGrid(w, h, x, y) && 0 <= j < w * h
    requires Abs(x - Col(w, j)) + Abs(y - Row(w, j)) == 1
    ensures Adjacent(w, h, Idx(w, x, y), j)
  {
    Neighbours(w, h, x, y);
    CoordsIdx(w, h, j);
    var i := Idx(w, x, y);
    if Row(w, j) == y {
      if Col(w, j) == x - 1 {
        CoordsInjective(w, h, j, i - 1);
      } else {
        CoordsInjective(w, h, j, i + 1);
      }
    } else if Row(w, j) == y - 1 {
      CoordsInjective(w, h, j, i - w);
    } else {
      CoordsInjective(w, h, j, i + w);
    }
  }

  /** From any pixel other than the target there is an adjacent pixel one grid
      step closer to it. */
  lemma StepToward(w: nat, h: nat, i: int, j: int) returns (k: int)
    requires w > 0 && 0 <= i < w * h && 0 <= j < w * h && i != j
    ensures Adjacent(w, h, i, k)
    ensures Manhattan(w, k, j) + 1 == Manhattan(w, i, j)
  {
    CoordsIdx(w, h, i);
    CoordsIdx(w, h, j);
    var x, y := Col(w, i), Row(w, i);
    Neighbours(w, h, x, y);
    if Col(w, j) < x {
      k := i - 1;
    } else if Col(w, j) > x {
      k := i + 1;
    } else if Row(w, j) < y {
      k := i - w;
    } else {
      if Row(w, j) == y {
        CoordsInjective(w, h, i, j);
      }
      k := i + w;
    }
  }

  /** Adjacent pixels lie in range. */
  lemma AdjacentInRange(w: nat, h: nat, i: int, j: int)
    requires w > 0 && Adjacent(w, h, i, j)
    ensures 0 <= j < w * h && Manhattan(w, i, j) == 1
  {
    AdjacentIff(w, h, i, j);
  }

  /** Manhattan distance obeys the triangle inequality. */
  lemma Triangle(w: nat, i: int, j: int, k: int)
    requires w > 0
    ensures Manhattan(w, i, k) <= Manhattan(w, i, j) + Manhattan(w, j, k)
  {
  }
}
