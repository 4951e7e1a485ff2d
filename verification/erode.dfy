/**
 Mask erosion: each pass replaces every non-zero mask entry by the minimum of
 itself and its in-grid 4-neighbours, read from a snapshot of the mask taken
 before the pass. r passes shrink the opaque area by r pixels of grid distance:
 the result at a pixel is the minimum of the input over the Manhattan ball of
 radius r around it.
 */
module Erode {
  import opened Image

  /** One pixel of one pass. A zero entry is skipped (it stays zero); any
      other becomes the minimum over itself and its in-grid neighbours, taken
      left, right, up, down. */
  function ErodeAt(m: seq<byte>, w: nat, h: nat, i: int): byte
    requires w > 0 && |m| == w * h && 0 <= i < w * h
  {
    CoordsIdx(w, h, i);
    Neighbours(w, h, Col(w, i), Row(w, i));
    var x, y := Col(w, i), Row(w, i);
    if m[i] == 0 then 0
    else
      var v0 := m[i];
      var v1 := if x > 0 then Min(v0, m[i - 1]) else v0;
      var v2 := if x < w - 1 then Min(v1, m[i + 1]) else v1;
      var v3 := if y > 0 then Min(v2, m[i - w]) else v2;
      if y < h - 1 then Min(v3, m[i + w]) else v3
  }

  /** One whole pass over the snapshot m. */
  function ErodePass(m: seq<byte>, w: nat, h: nat): (r: seq<byte>)
    requires w > 0 && |m| == w * h
    ensures |r| == |m|
  {
    seq(w * h, i requires 0 <= i < w * h => ErodeAt(m, w, h, i))
  }

  /** n passes. */
  function ErodeN(m: seq<byte>, w: nat, h: nat, n: nat): (r: seq<byte>)
    requires w > 0 && |m| == w * h
    ensures |r| == |m|
  {
    if n == 0 then m else ErodePass(ErodeN(m, w, h, n - 1), w, h)
  }

  /** v is the minimum of m over the pixels within grid distance r of i: no
      such pixel is below v, and one of them equals v. */
  ghost predicate BallMin(m: seq<byte>, w: nat, h: nat, r: nat, i: int, v: int)
    requires w > 0 && |m| == w * h
  {
    && (forall j :: 0 <= j < w * h && Manhattan(w, i, j) <= r ==> v <= m[j])
    && (exists j :: 0 <= j < w * h && Manhattan(w, i, j) <= r && v == m[j])
  }

  /** v is the minimum over entry i and its in-grid neighbours: none of them
      is below v, and one of them equals v. */
  ghost predicate LocalMin(m: seq<byte>, w: nat, h: nat, i: int, v: int)
    requires w > 0 && |m| == w * h && 0 <= i < w * h
  {
    && v <= m[i]
    && (forall k :: Adjacent(w, h, i, k) ==> 0 <= k < |m| && v <= m[k])
    && (v == m[i] || exists k :: Adjacent(w, h, i, k) && 0 <= k < |m| && v == m[k])
  }

  /** One pixel of one pass is a lower bound of the pixel and each of its
      neighbours, and equals one of them. */
  lemma ErodeAtBounds(m: seq<byte>, w: nat, h: nat, i: int)
    requires w > 0 && |m| == w * h && 0 <= i < w * h
    ensures ErodeAt(m, w, h, i) <= m[i]
    ensures forall k :: Adjacent(w, h, i, k) ==> 0 <= k < |m| && ErodeAt(m, w, h, i) <= m[k]
    ensures || ErodeAt(m, w, h, i) == m[i]
            || exists k :: Adjacent(w, h, i, k) && 0 <= k < |m| && ErodeAt(m, w, h, i) == m[k]
  {
    CoordsIdx(w, h, i);
    var x, y := Col(w, i), Row(w, i);
    Neighbours(w, h, x, y);
    forall k | Adjacent(w, h, i, k)
      ensures 0 <= k < |m| && ErodeAt(m, w, h, i) <= m[k]
    {
      AdjacentCases(w, h, x, y, k);
    }
    var v := ErodeAt(m, w, h, i);
    if v != m[i] {
      if x > 0 && v == m[i - 1] {
        assert Adjacent(w, h, i, i - 1);
      } else if x < w - 1 && v == m[i + 1] {
        assert Adjacent(w, h, i, i + 1);
      } else if y > 0 && v == m[i - w] {
        assert Adjacent(w, h, i, i - w);
      } else {
        assert Adjacent(w, h, i, i + w);
      }
    }
  }

  /** Only the pixel itself is at grid distance zero. */
  lemma ManhattanZero(w: nat, h: nat, i: int, j: int)
    requires w > 0 && 0 <= i < w * h && 0 <= j < w * h && Manhattan(w, i, j) == 0
    ensures i == j
  {
    CoordsIdx(w, h, i);
    CoordsIdx(w, h, j);
  }

  /** Every entry is the minimum over its ball of radius zero. */
  lemma BallMinZero(m: seq<byte>, w: nat, h: nat, i: int)
    requires w > 0 && |m| == w * h && 0 <= i < w * h
    ensures BallMin(m, w, h, 0, i, m[i])
  {
    forall j | 0 <= j < w * h && Manhattan(w, i, j) <= 0
      ensures m[i] <= m[j]
    {
      ManhattanZero(w, h, i, j);
    }
    assert Manhattan(w, i, i) == 0;
  }

  /** If p holds the ball minima of radius n - 1, one pass over p yields a
      lower bound of the ball of radius n. */
  lemma BallStepLower(m: seq<byte>, p: seq<byte>, w: nat, h: nat, n: nat, i: int)
    requires w > 0 && |m| == w * h && |p| == w * h && 0 <= i < w * h && n >= 1
    requires forall k :: 0 <= k < w * h ==> BallMin(m, w, h, n - 1, k, p[k])
    ensures forall j :: 0 <= j < w * h && Manhattan(w, i, j) <= n ==> ErodeAt(p, w, h, i) <= m[j]
  {
    ErodeAtBounds(p, w, h, i);
    forall j | 0 <= j < w * h && Manhattan(w, i, j) <= n
      ensures ErodeAt(p, w, h, i) <= m[j]
    {
      if Manhattan(w, i, j) > n - 1 {
        assert Manhattan(w, i, i) == 0;
        var k := StepToward(w, h, i, j);
        AdjacentInRange(w, h, i, k);
        assert BallMin(m, w, h, n - 1, k, p[k]);
      } else {
        assert BallMin(m, w, h, n - 1, i, p[i]);
      }
    }
  }

  /** ... and that bound is attained inside the ball of radius n. */
  lemma BallStepAttained(m: seq<byte>, p: seq<byte>, w: nat, h: nat, n: nat, i: int)
    requires w > 0 && |m| == w * h && |p| == w * h && 0 <= i < w * h && n >= 1
    requires forall k :: 0 <= k < w * h ==> BallMin(m, w, h, n - 1, k, p[k])
    ensures exists j :: 0 <= j < w * h && Manhattan(w, i, j) <= n && ErodeAt(p, w, h, i) == m[j]
  {
    ErodeAtBounds(p, w, h, i);
    var v := ErodeAt(p, w, h, i);
    if v == p[i] {
      assert BallMin(m, w, h, n - 1, i, p[i]);
      var j :| 0 <= j < w * h && Manhattan(w, i, j) <= n - 1 && p[i] == m[j];
    } else {
      var k :| Adjacent(w, h, i, k) && 0 <= k < |p| && v == p[k];
      AdjacentInRange(w, h, i, k);
      assert BallMin(m, w, h, n - 1, k, p[k]);
      var j :| 0 <= j < w * h && Manhattan(w, k, j) <= n - 1 && p[k] == m[j];
      Triangle(w, i, k, j);
    }
  }

  /** n passes compute the minimum over the Manhattan ball of radius n. */
  lemma {:induction false} ErodeBall(m: seq<byte>, w: nat, h: nat, n: nat, i: int)
    requires w > 0 && |m| == w * h && 0 <= i < w * h
    ensures BallMin(m, w, h, n, i, ErodeN(m, w, h, n)[i])
    decreases n
  {
    if n == 0 {
      BallMinZero(m, w, h, i);
    } else {
      var p := ErodeN(m, w, h, n - 1);
      forall k | 0 <= k < w * h
        ensures BallMin(m, w, h, n - 1, k, p[k])
      {
        ErodeBall(m, w, h, n - 1, k);
      }
      BallStepLower(m, p, w, h, n, i);
      BallStepAttained(m, p, w, h, n, i);
    }
  }

  /** An eroded entry is zero exactly when some zero entry lies within grid
      distance n. */
  lemma ErodeZeroIff(m: seq<byte>, w: nat, h: nat, n: nat, i: int)
    requires w > 0 && |m| == w * h && 0 <= i < w * h
    ensures ErodeN(m, w, h, n)[i] == 0 <==>
              exists j :: 0 <= j < w * h && Manhattan(w, i, j) <= n && m[j] == 0
  {
    ErodeBall(m, w, h, n, i);
  }

  /** Erosion never raises an entry, and each further pass lowers it further
      or leaves it. */
  lemma ErodeLowers(m: seq<byte>, w: nat, h: nat, n: nat, i: int)
    requires w > 0 && |m| == w * h && 0 <= i < w * h
    ensures ErodeN(m, w, h, n)[i] <= m[i]
    ensures ErodeN(m, w, h, n + 1)[i] <= ErodeN(m, w, h, n)[i]
  {
    ErodeBall(m, w, h, n, i);
    assert Manhattan(w, i, i) == 0;
    ErodeAtBounds(ErodeN(m, w, h, n), w, h, i);
  }

  /** A mask of only 0 and 255 stays so: erosion only copies existing
      values. */
  lemma ErodeKeepsBinary(m: seq<byte>, w: nat, h: nat, n: nat)
    requires w > 0 && |m| == w * h
    requires forall j :: 0 <= j < |m| ==> m[j] == 0 || m[j] == 255
    ensures forall i :: 0 <= i < |m| ==> ErodeN(m, w, h, n)[i] == 0 || ErodeN(m, w, h, n)[i] == 255
  {
    forall i | 0 <= i < |m|
      ensures ErodeN(m, w, h, n)[i] == 0 || ErodeN(m, w, h, n)[i] == 255
    {
      ErodeBall(m, w, h, n, i);
    }
  }

  /** A constant mask is unchanged by any number of passes. */
  lemma ErodeUniformFixed(m: seq<byte>, w: nat, h: nat, n: nat, c: byte)
    requires w > 0 && |m| == w * h
    requires forall j :: 0 <= j < |m| ==> m[j] == c
    ensures ErodeN(m, w, h, n) == m
  {
    forall i | 0 <= i < |m|
      ensures ErodeN(m, w, h, n)[i] == m[i]
    {
      ErodeBall(m, w, h, n, i);
    }
  }

  /** The minimum of entry i and its in-grid neighbours, folded in the
      order script.js uses (for a zero entry this is zero as well). */
  method NeighbourhoodMin(temp: seq<byte>, w: nat, h: nat, x: int, y: int, i: int) returns (minVal: byte)
    requires w > 0 && |temp| == w * h && InGrid(w, h, x, y)
    requires i == Idx(w, x, y) && 0 <= i < w * h
    ensures LocalMin(temp, w, h, i, minVal)
  {
    Neighbours(w, h, x, y);
    minVal := temp[i];
    if x > 0 { minVal := Min(minVal, temp[i - 1]); }
    if x < w - 1 { minVal := Min(minVal, temp[i + 1]); }
    if y > 0 { minVal := Min(minVal, temp[i - w]); }
    if y < h - 1 { minVal := Min(minVal, temp[i + w]); }
    IdxCoords(w, h, x, y);
    assert minVal == ErodeAt(temp, w, h, i);
    ErodeAtBounds(temp, w, h, i);
  }

  /** The neighbourhood minimum is unique, so it is the one-pass value. */
  lemma LocalMinUnique(m: seq<byte>, w: nat, h: nat, i: int, v: int)
    requires w > 0 && |m| == w * h && 0 <= i < w * h
    requires LocalMin(m, w, h, i, v)
    ensures v == ErodeAt(m, w, h, i)
  {
    ErodeAtBounds(m, w, h, i);
    var e := ErodeAt(m, w, h, i);
    if e != m[i] {
      var k :| Adjacent(w, h, i, k) && 0 <= k < |m| && e == m[k];
      assert v <= e;
    }
    if v != m[i] {
      var k :| Adjacent(w, h, i, k) && 0 <= k < |m| && v == m[k];
      assert e <= v;
    }
  }

  /** The value the scan writes at an entry: its one-pass erosion. */
  method ErodeEntry(temp: seq<byte>, w: nat, h: nat, x: int, y: int, i: int) returns (v: byte)
    requires w > 0 && |temp| == w * h && InGrid(w, h, x, y)
    requires i == Idx(w, x, y) && 0 <= i < w * h
    ensures v == ErodeAt(temp, w, h, i)
  {
    v := NeighbourhoodMin(temp, w, h, x, y, i);
    LocalMinUnique(temp, w, h, i, v);
  }

  /** One pass, as script.js runs it: a snapshot of the buffer, then a
      row-by-row scan that skips zero entries and writes the neighbourhood
      minimum into the buffer. */
  method ErodeOnePass(buffer: seq<byte>, w: nat, h: nat) returns (out: seq<byte>)
    requires w > 0 && |buffer| == w * h
    ensures out == ErodePass(buffer, w, h)
  {
    var temp := buffer;
    out := buffer;
    var y := 0;
    assert y * w == 0;
    while y < h
      invariant 0 <= y <= h && |out| == w * h && 0 <= y * w <= w * h
      invariant forall k :: 0 <= k < y * w ==> out[k] == ErodeAt(temp, w, h, k)
      invariant forall k :: y * w <= k < w * h ==> out[k] == temp[k]
    {
      var x := 0;
      while x < w
        invariant 0 <= x <= w && |out| == w * h && y * w + x <= w * h
        invariant forall k :: 0 <= k < y * w + x ==> out[k] == ErodeAt(temp, w, h, k)
        invariant forall k :: y * w + x <= k < w * h ==> out[k] == temp[k]
      {
        var i := y * w + x;
        IdxCoords(w, h, x, y);
        if temp[i] != 0 {
          var minVal := ErodeEntry(temp, w, h, x, y, i);
          out := out[i := minVal];
        }
        x := x + 1;
      }
      assert y * w + w == (y + 1) * w;
      y := y + 1;
    }
    assert y * w == w * h;
    assert forall k :: 0 <= k < w * h ==> out[k] == ErodePass(buffer, w, h)[k];
  }

  /** The erosion of script.js: radius passes. The result is the minimum of the
      input over the Manhattan ball of that radius around each pixel. */
  method ApplyErode(buffer: seq<byte>, w: nat, h: nat, radius: nat) returns (out: seq<byte>)
    requires w > 0 && |buffer| == w * h
    ensures out == ErodeN(buffer, w, h, radius)
    ensures forall i :: 0 <= i < |out| ==> BallMin(buffer, w, h, radius, i, out[i])
  {
    out := buffer;
    var iter := 0;
    while iter < radius
      invariant 0 <= iter <= radius
      invariant out == ErodeN(buffer, w, h, iter)
    {
      out := ErodeOnePass(out, w, h);
      iter := iter + 1;
    }
    forall i | 0 <= i < |out|
      ensures BallMin(buffer, w, h, radius, i, out[i])
    {
      ErodeBall(buffer, w, h, radius, i);
    }
  }
}
