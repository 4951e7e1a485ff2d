/**
 Region-select ("magic wand") mode. Each seed carries the colour captured when
 it was clicked; a stack-based 4-connected flood fill from the seed clears every
 pixel reachable through pixels whose distance to that colour is at most the
 tolerance. Seeds are applied one after another to the same mask.
 */
module MagicWand {
  import opened Image
  import opened Distance

  /** A clicked point and the colour sampled there at click time. */
  datatype Seed = Seed(x: int, y: int, color: Color)

  /** Region growing's (inclusive) match test, on squared distances. */
  predicate Matches(src: Raster, c: Color, tol: nat, i: int)
    requires src.Valid() && 0 <= i < src.width * src.height
  {
    SqDist(PixelColor(src, i), c) <= tol * tol
  }

  /** A 4-connected walk through pixels that all match colour c. */
  ghost predicate IsPath(src: Raster, c: Color, tol: nat, path: seq<int>)
    requires src.Valid()
  {
    && |path| >= 1
    && (forall k :: 0 <= k < |path| ==>
          0 <= path[k] < src.width * src.height && Matches(src, c, tol, path[k]))
    && (forall k :: 0 <= k < |path| - 1 ==>
          Adjacent(src.width, src.height, path[k], path[k + 1]))
  }

  /** Pixel i belongs to the region of seed s: the seed lies on the raster and
      a matching walk leads from it to i. */
  ghost predicate InRegion(src: Raster, s: Seed, tol: nat, i: int)
    requires src.Valid()
  {
    && InGrid(src.width, src.height, s.x, s.y)
    && exists path :: IsPath(src, s.color, tol, path)
                      && path[0] == Idx(src.width, s.x, s.y)
                      && path[|path| - 1] == i
  }

  /** The mask after one seed: its region cleared, everything else as before. */
  ghost function Fill(src: Raster, mask: seq<byte>, s: Seed, tol: nat): seq<byte>
    requires src.Valid() && |mask| == src.width * src.height
  {
    seq(|mask|, i requires 0 <= i < |mask| =>
      if InRegion(src, s, tol, i) then 0 else mask[i])
  }

  // ---------------------------------------------------------------------
  // The region as a least closed set
  // ---------------------------------------------------------------------

  /** An in-grid seed whose own pixel matches its captured colour starts its
      region. */
  lemma SeedInRegion(src: Raster, s: Seed, tol: nat)
    requires src.Valid() && InGrid(src.width, src.height, s.x, s.y)
    ensures 0 <= Idx(src.width, s.x, s.y) < src.width * src.height
    ensures Matches(src, s.color, tol, Idx(src.width, s.x, s.y)) ==>
              InRegion(src, s, tol, Idx(src.width, s.x, s.y))
  {
    IdxCoords(src.width, src.height, s.x, s.y);
    var i := Idx(src.width, s.x, s.y);
    if Matches(src, s.color, tol, i) {
      assert IsPath(src, s.color, tol, [i]);
    }
  }

  /** The region is closed under stepping to a matching 4-neighbour. */
  lemma ExtendRegion(src: Raster, s: Seed, tol: nat, i: int, j: int)
    requires src.Valid() && InRegion(src, s, tol, i)
    requires Adjacent(src.width, src.height, i, j)
    ensures 0 <= j < src.width * src.height
    ensures Matches(src, s.color, tol, j) ==> InRegion(src, s, tol, j)
  {
    AdjacentInRange(src.width, src.height, i, j);
    if Matches(src, s.color, tol, j) {
      var path :| IsPath(src, s.color, tol, path)
                  && path[0] == Idx(src.width, s.x, s.y) && path[|path| - 1] == i;
      var path' := path + [j];
      assert IsPath(src, s.color, tol, path');
    }
  }

  /** Every pixel of a region matches the seed's captured colour. */
  lemma RegionMatches(src: Raster, s: Seed, tol: nat, i: int)
    requires src.Valid() && InRegion(src, s, tol, i)
    ensures 0 <= i < src.width * src.height && Matches(src, s.color, tol, i)
  {
    var path :| IsPath(src, s.color, tol, path)
                && path[0] == Idx(src.width, s.x, s.y) && path[|path| - 1] == i;
    assert 0 <= path[|path| - 1] < src.width * src.height;
  }

  lemma {:induction false} PathConfined(src: Raster, c: Color, tol: nat, path: seq<int>, S: set<int>)
    requires src.Valid() && IsPath(src, c, tol, path) && path[0] in S
    requires forall i, j ::
               (i in S && Adjacent(src.width, src.height, i, j)
                && 0 <= j < src.width * src.height && Matches(src, c, tol, j)) ==> j in S
    ensures path[|path| - 1] in S
    decreases |path|
  {
    if |path| > 1 {
      var prefix := path[..|path| - 1];
      assert IsPath(src, c, tol, prefix);
      PathConfined(src, c, tol, prefix, S);
      assert Adjacent(src.width, src.height, path[|path| - 2], path[|path| - 1]);
    }
  }

  /** A region never crosses a barrier: any set that holds the (matching) seed
      pixel and is closed under stepping to matching 4-neighbours contains the
      whole region. With ExtendRegion this makes the region the least such set. */
  lemma RegionConfined(src: Raster, s: Seed, tol: nat, S: set<int>)
    requires src.Valid() && InGrid(src.width, src.height, s.x, s.y)
    requires 0 <= Idx(src.width, s.x, s.y) < src.width * src.height
    requires Matches(src, s.color, tol, Idx(src.width, s.x, s.y)) ==>
               Idx(src.width, s.x, s.y) in S
    requires forall i, j ::
               (i in S && Adjacent(src.width, src.height, i, j)
                && 0 <= j < src.width * src.height && Matches(src, s.color, tol, j)) ==> j in S
    ensures forall i :: InRegion(src, s, tol, i) ==> i in S
  {
    forall i | InRegion(src, s, tol, i)
      ensures i in S
    {
      var path :| IsPath(src, s.color, tol, path)
                  && path[0] == Idx(src.width, s.x, s.y) && path[|path| - 1] == i;
      PathConfined(src, s.color, tol, path, S);
    }
  }

  // ---------------------------------------------------------------------
  // The stack-based fill
  // ---------------------------------------------------------------------

  /** Number of pixels not yet visited. */
  function CountFalse(v: seq<bool>): nat
  {
    if |v| == 0 then 0 else CountFalse(v[..|v| - 1]) + (if v[|v| - 1] then 0 else 1)
  }

  /** Marking an unvisited pixel visited leaves one fewer to visit. */
  lemma {:induction false} CountFalseMark(v: seq<bool>, i: int)
    requires 0 <= i < |v| && !v[i]
    ensures CountFalse(v[i := true]) + 1 == CountFalse(v)
    decreases |v|
  {
    var n := |v|;
    if i < n - 1 {
      assert v[i := true][..n - 1] == v[..n - 1][i := true];
      CountFalseMark(v[..n - 1], i);
    } else {
      assert v[i := true][..n - 1] == v[..n - 1];
    }
  }

  /** Every stack entry is an in-grid pixel that, if it matches, belongs to the
      region. */
  ghost predicate StackSound(src: Raster, s: Seed, tol: nat, stack: seq<(int, int)>)
    requires src.Valid()
  {
    forall e :: e in stack ==>
      (&& InGrid(src.width, src.height, e.0, e.1)
       && 0 <= Idx(src.width, e.0, e.1) < src.width * src.height
       && (Matches(src, s.color, tol, Idx(src.width, e.0, e.1)) ==>
             InRegion(src, s, tol, Idx(src.width, e.0, e.1))))
  }

  /** Every in-grid neighbour of a visited matching pixel is visited or still
      waiting on the stack. */
  ghost predicate Closed(src: Raster, c: Color, tol: nat, visited: seq<bool>, stack: seq<(int, int)>)
    requires src.Valid()
  {
    && |visited| == src.width * src.height
    && forall i, j ::
         (&& 0 <= i < src.width * src.height && visited[i] && Matches(src, c, tol, i)
          && Adjacent(src.width, src.height, i, j)) ==>
           (&& 0 <= j < src.width * src.height
            && (visited[j] || (Col(src.width, j), Row(src.width, j)) in stack))
  }

  lemma StackPop(src: Raster, s: Seed, tol: nat, stack: seq<(int, int)>, e: (int, int))
    requires src.Valid() && StackSound(src, s, tol, stack + [e])
    ensures StackSound(src, s, tol, stack)
    ensures InGrid(src.width, src.height, e.0, e.1)
    ensures 0 <= Idx(src.width, e.0, e.1) < src.width * src.height
    ensures Matches(src, s.color, tol, Idx(src.width, e.0, e.1)) ==>
              InRegion(src, s, tol, Idx(src.width, e.0, e.1))
  {
    assert e in stack + [e];
    forall e' | e' in stack ensures e' in stack + [e] { }
  }

  /** One iteration keeps the closure invariant: the popped pixel is now
      visited, every other entry is still on the stack, and a matching popped
      pixel has all its neighbours visited or pushed. */
  lemma ClosedStep(src: Raster, c: Color, tol: nat,
                   visited: seq<bool>, stack: seq<(int, int)>,
                   visited': seq<bool>, stack': seq<(int, int)>, idx: int)
    requires src.Valid() && Closed(src, c, tol, visited, stack)
    requires 0 <= idx < src.width * src.height
    requires |visited'| == |visited| && visited'[idx]
    requires forall k :: 0 <= k < |visited| && k != idx ==> visited'[k] == visited[k]
    requires forall e :: e in stack ==>
               e in stack' || e == (Col(src.width, idx), Row(src.width, idx))
    requires Matches(src, c, tol, idx) && !visited[idx] ==>
               forall j :: Adjacent(src.width, src.height, idx, j) ==>
                 0 <= j < |visited'| && (visited'[j] || (Col(src.width, j), Row(src.width, j)) in stack')
    ensures Closed(src, c, tol, visited', stack')
  {
    var w, h := src.width, src.height;
    forall i, j | && 0 <= i < w * h && visited'[i] && Matches(src, c, tol, i)
                  && Adjacent(w, h, i, j)
      ensures 0 <= j < w * h && (visited'[j] || (Col(w, j), Row(w, j)) in stack')
    {
      if visited[i] {
        if !visited'[j] && (Col(w, j), Row(w, j)) !in stack' {
          assert (Col(w, j), Row(w, j)) == (Col(w, idx), Row(w, idx));
          CoordsIdx(w, h, j);
          CoordsIdx(w, h, idx);
        }
      }
    }
  }

  /** The work stack empty, the visited matching pixels are exactly the region. */
  lemma ClosedIsRegion(src: Raster, s: Seed, tol: nat, visited: seq<bool>, i: int)
    requires src.Valid() && InGrid(src.width, src.height, s.x, s.y)
    requires 0 <= Idx(src.width, s.x, s.y) < src.width * src.height
    requires Closed(src, s.color, tol, visited, [])
    requires visited[Idx(src.width, s.x, s.y)]
    requires forall k :: 0 <= k < src.width * src.height && visited[k] && Matches(src, s.color, tol, k) ==>
               InRegion(src, s, tol, k)
    requires 0 <= i < src.width * src.height
    ensures InRegion(src, s, tol, i) <==> visited[i] && Matches(src, s.color, tol, i)
  {
    var S := set k | 0 <= k < src.width * src.height && visited[k] && Matches(src, s.color, tol, k);
    RegionConfined(src, s, tol, S);
  }

  /** e is an in-grid pixel one step from (x, y). */
  predicate GridStep(w: nat, h: nat, x: int, y: int, e: (int, int))
  {
    InGrid(w, h, e.0, e.1) && Abs(e.0 - x) + Abs(e.1 - y) == 1
  }

  /** Appending neighbours of a region pixel keeps the stack sound. */
  lemma StackSoundAppend(src: Raster, s: Seed, tol: nat, stack: seq<(int, int)>,
                         pushed: seq<(int, int)>, x: int, y: int)
    requires src.Valid() && StackSound(src, s, tol, stack)
    requires InGrid(src.width, src.height, x, y)
    requires InRegion(src, s, tol, Idx(src.width, x, y))
    requires forall e :: e in pushed ==> GridStep(src.width, src.height, x, y, e)
    ensures StackSound(src, s, tol, stack + pushed)
  {
    forall e | e in stack + pushed
      ensures && InGrid(src.width, src.height, e.0, e.1)
              && 0 <= Idx(src.width, e.0, e.1) < src.width * src.height
              && (Matches(src, s.color, tol, Idx(src.width, e.0, e.1)) ==>
                    InRegion(src, s, tol, Idx(src.width, e.0, e.1)))
    {
      if e !in stack {
        Neighbours(src.width, src.height, x, y);
        IdxCoords(src.width, src.height, e.0, e.1);
        ExtendRegion(src, s, tol, Idx(src.width, x, y), Idx(src.width, e.0, e.1));
      }
    }
  }

  /** The in-grid neighbours of (x, y) not yet visited, in the order
      script.js pushes them: left, right, up, down. */
  function Pending(w: nat, h: nat, visited: seq<bool>, x: int, y: int): seq<(int, int)>
    requires w > 0 && |visited| == w * h && InGrid(w, h, x, y)
  {
    Neighbours(w, h, x, y);
    var idx := Idx(w, x, y);
    (if x > 0 && !visited[idx - 1] then [(x - 1, y)] else [])
    + (if x < w - 1 && !visited[idx + 1] then [(x + 1, y)] else [])
    + (if y > 0 && !visited[idx - w] then [(x, y - 1)] else [])
    + (if y < h - 1 && !visited[idx + w] then [(x, y + 1)] else [])
  }

  /** e is a grid step away from (x, y) and not yet visited. */
  predicate UnvisitedStep(w: nat, h: nat, visited: seq<bool>, x: int, y: int, e: (int, int))
  {
    && GridStep(w, h, x, y, e)
    && 0 <= Idx(w, e.0, e.1) < |visited|
    && !visited[Idx(w, e.0, e.1)]
  }

  /** Every pending entry is an unvisited grid step away from (x, y). */
  lemma PendingSteps(w: nat, h: nat, visited: seq<bool>, x: int, y: int)
    requires w > 0 && |visited| == w * h && InGrid(w, h, x, y)
    ensures forall e :: e in Pending(w, h, visited, x, y) ==> UnvisitedStep(w, h, visited, x, y, e)
  {
    forall e | e in Pending(w, h, visited, x, y)
      ensures UnvisitedStep(w, h, visited, x, y, e)
    {
      PendingStep(w, h, visited, x, y, e);
    }
  }

  lemma PendingStep(w: nat, h: nat, visited: seq<bool>, x: int, y: int, e: (int, int))
    requires w > 0 && |visited| == w * h && InGrid(w, h, x, y)
    requires e in Pending(w, h, visited, x, y)
    ensures UnvisitedStep(w, h, visited, x, y, e)
  {
    NeighbourIdx(w, h, x, y);
    var idx := Idx(w, x, y);
    PendingCases(w, h, visited, x, y, e);
    if e == (x - 1, y) {
      assert Idx(w, e.0, e.1) == idx - 1;
    } else if e == (x + 1, y) {
      assert Idx(w, e.0, e.1) == idx + 1;
    } else if e == (x, y - 1) {
      assert Idx(w, e.0, e.1) == idx - w;
    } else {
      assert Idx(w, e.0, e.1) == idx + w;
    }
  }

  /** A pending entry is one of the four neighbours, taken only when it is
      in the grid and unvisited. */
  lemma PendingCases(w: nat, h: nat, visited: seq<bool>, x: int, y: int, e: (int, int))
    requires w > 0 && |visited| == w * h && InGrid(w, h, x, y)
    requires e in Pending(w, h, visited, x, y)
    ensures 0 <= Idx(w, x, y) < w * h
    ensures || (x > 0 && Idx(w, x, y) - 1 >= 0 && !visited[Idx(w, x, y) - 1] && e == (x - 1, y))
            || (x < w - 1 && Idx(w, x, y) + 1 < w * h && !visited[Idx(w, x, y) + 1] && e == (x + 1, y))
            || (y > 0 && Idx(w, x, y) - w >= 0 && !visited[Idx(w, x, y) - w] && e == (x, y - 1))
            || (y < h - 1 && Idx(w, x, y) + w < w * h && !visited[Idx(w, x, y) + w] && e == (x, y + 1))
  {
    NeighbourIdx(w, h, x, y);
  }

  lemma PendingCovers(w: nat, h: nat, visited: seq<bool>, x: int, y: int)
    requires w > 0 && |visited| == w * h && InGrid(w, h, x, y)
    ensures forall j :: Adjacent(w, h, Idx(w, x, y), j) ==>
      (&& 0 <= j < |visited|
       && (visited[j] || (Col(w, j), Row(w, j)) in Pending(w, h, visited, x, y)))
  {
    forall j | Adjacent(w, h, Idx(w, x, y), j)
      ensures 0 <= j < |visited| && (visited[j] || (Col(w, j), Row(w, j)) in Pending(w, h, visited, x, y))
    {
      PendingCoversOne(w, h, visited, x, y, j);
    }
  }

  lemma PendingCoversOne(w: nat, h: nat, visited: seq<bool>, x: int, y: int, j: int)
    requires w > 0 && |visited| == w * h && InGrid(w, h, x, y)
    requires Adjacent(w, h, Idx(w, x, y), j)
    ensures 0 <= j < |visited|
    ensures visited[j] || (Col(w, j), Row(w, j)) in Pending(w, h, visited, x, y)
  {
    AdjacentCases(w, h, x, y, j);
    Neighbours(w, h, x, y);
    var idx := Idx(w, x, y);
    var l := if x > 0 && !visited[idx - 1] then [(x - 1, y)] else [];
    var r := if x < w - 1 && !visited[idx + 1] then [(x + 1, y)] else [];
    var u := if y > 0 && !visited[idx - w] then [(x, y - 1)] else [];
    var d := if y < h - 1 && !visited[idx + w] then [(x, y + 1)] else [];
    assert Pending(w, h, visited, x, y) == l + r + u + d;
  }

  /** The four conditional pushes after a pixel matched: the old stack stays
      below, every pushed entry is an unvisited neighbour of (x, y), and every
      unvisited neighbour is pushed. The pushes are exactly Pending. */
  method PushNeighbours(w: nat, h: nat, visited: seq<bool>, stack: seq<(int, int)>, x: int, y: int)
    returns (stack': seq<(int, int)>)
    requires w > 0 && |visited| == w * h && InGrid(w, h, x, y)
    ensures |stack| <= |stack'| && stack'[..|stack|] == stack
    ensures forall e :: e in stack'[|stack|..] ==> UnvisitedStep(w, h, visited, x, y, e)
    ensures forall j :: Adjacent(w, h, Idx(w, x, y), j) ==>
      (&& 0 <= j < |visited|
       && (visited[j] || (Col(w, j), Row(w, j)) in stack'[|stack|..]))
    ensures stack' == stack + Pending(w, h, visited, x, y)
  {
    var idx := y * w + x;
    Neighbours(w, h, x, y);
    ghost var l := if x > 0 && !visited[idx - 1] then [(x - 1, y)] else [];
    ghost var r := if x < w - 1 && !visited[idx + 1] then [(x + 1, y)] else [];
    ghost var u := if y > 0 && !visited[idx - w] then [(x, y - 1)] else [];
    ghost var d := if y < h - 1 && !visited[idx + w] then [(x, y + 1)] else [];
    stack' := stack;
    if x > 0 && !visited[idx - 1] { stack' := stack' + [(x - 1, y)]; }
    assert stack' == stack + l;
    if x < w - 1 && !visited[idx + 1] { stack' := stack' + [(x + 1, y)]; }
    assert stack' == stack + l + r;
    if y > 0 && !visited[idx - w] { stack' := stack' + [(x, y - 1)]; }
    assert stack' == stack + l + r + u;
    if y < h - 1 && !visited[idx + w] { stack' := stack' + [(x, y + 1)]; }
    assert stack' == stack + l + r + u + d;
    assert Pending(w, h, visited, x, y) == l + r + u + d;
    AppendFour(stack, l, r, u, d);
    PushedMeaning(w, h, visited, stack, stack', x, y);
  }

  /** Appending Pending keeps the old stack underneath, pushes only unvisited
      neighbours, and pushes every unvisited neighbour. */
  lemma PushedMeaning(w: nat, h: nat, visited: seq<bool>, stack: seq<(int, int)>,
                      stack': seq<(int, int)>, x: int, y: int)
    requires w > 0 && |visited| == w * h && InGrid(w, h, x, y)
    requires stack' == stack + Pending(w, h, visited, x, y)
    ensures |stack| <= |stack'| && stack'[..|stack|] == stack
    ensures forall e :: e in stack'[|stack|..] ==> UnvisitedStep(w, h, visited, x, y, e)
    ensures forall j :: Adjacent(w, h, Idx(w, x, y), j) ==>
      (&& 0 <= j < |visited|
       && (visited[j] || (Col(w, j), Row(w, j)) in stack'[|stack|..]))
  {
    assert stack'[|stack|..] == Pending(w, h, visited, x, y);
    PendingSteps(w, h, visited, x, y);
    PendingCovers(w, h, visited, x, y);
  }


  lemma AppendFour<T>(s: seq<T>, a: seq<T>, b: seq<T>, c: seq<T>, d: seq<T>)
    ensures s + a + b + c + d == s + (a + b + c + d)
  {
  }

  /** The loop invariant of the flood fill: the output clears exactly the
      visited matching pixels, those all lie in the region, the stack is
      sound, the seed is visited or pending, and the visited set is closed. */
  ghost predicate FillInv(src: Raster, s: Seed, tol: nat, mask: seq<byte>, out: seq<byte>,
                          visited: seq<bool>, stack: seq<(int, int)>)
    requires src.Valid() && |mask| == src.width * src.height
    requires InGrid(src.width, src.height, s.x, s.y)
  {
    var w, h := src.width, src.height;
    && |visited| == w * h && |out| == w * h
    && 0 <= Idx(w, s.x, s.y) < w * h
    && (forall i :: 0 <= i < w * h ==>
          out[i] == (if visited[i] && Matches(src, s.color, tol, i) then 0 else mask[i]))
    && (forall i :: 0 <= i < w * h && visited[i] && Matches(src, s.color, tol, i) ==>
          InRegion(src, s, tol, i))
    && StackSound(src, s, tol, stack)
    && (visited[Idx(w, s.x, s.y)] || (s.x, s.y) in stack)
    && Closed(src, s.color, tol, visited, stack)
  }

  /** Popping an already visited pixel keeps the invariant. */
  lemma SkipStep(src: Raster, s: Seed, tol: nat, mask: seq<byte>, out: seq<byte>,
                 visited: seq<bool>, stack: seq<(int, int)>, x: int, y: int)
    requires src.Valid() && |mask| == src.width * src.height
    requires InGrid(src.width, src.height, s.x, s.y)
    requires FillInv(src, s, tol, mask, out, visited, stack + [(x, y)])
    requires InGrid(src.width, src.height, x, y) && visited[Idx(src.width, x, y)]
    ensures FillInv(src, s, tol, mask, out, visited, stack)
  {
    StackPop(src, s, tol, stack, (x, y));
    IdxCoords(src.width, src.height, x, y);
    forall e | e in stack + [(x, y)] ensures e in stack || e == (Col(src.width, Idx(src.width, x, y)), Row(src.width, Idx(src.width, x, y))) { }
    ClosedStep(src, s.color, tol, visited, stack + [(x, y)], visited, stack, Idx(src.width, x, y));
  }

  /** Visiting a popped pixel (clearing it and pushing its pending neighbours
      when it matches) keeps the invariant. */
  lemma VisitStep(src: Raster, s: Seed, tol: nat, mask: seq<byte>, out: seq<byte>,
                  visited: seq<bool>, stack: seq<(int, int)>, x: int, y: int)
    requires src.Valid() && |mask| == src.width * src.height
    requires InGrid(src.width, src.height, s.x, s.y)
    requires FillInv(src, s, tol, mask, out, visited, stack + [(x, y)])
    requires InGrid(src.width, src.height, x, y) && !visited[Idx(src.width, x, y)]
    ensures var idx := Idx(src.width, x, y);
            var visited' := visited[idx := true];
            var m := Matches(src, s.color, tol, idx);
            FillInv(src, s, tol, mask, if m then out[idx := 0] else out, visited',
                    if m then stack + Pending(src.width, src.height, visited', x, y) else stack)
  {
    var w, h := src.width, src.height;
    StackPop(src, s, tol, stack, (x, y));
    IdxCoords(w, h, x, y);
    var idx := Idx(w, x, y);
    var visited' := visited[idx := true];
    var m := Matches(src, s.color, tol, idx);
    var out' := if m then out[idx := 0] else out;
    var stack' := if m then stack + Pending(w, h, visited', x, y) else stack;
    if m {
      PendingSteps(w, h, visited', x, y);
      PendingCovers(w, h, visited', x, y);
      StackSoundAppend(src, s, tol, stack, Pending(w, h, visited', x, y), x, y);
    }
    forall e | e in stack + [(x, y)] ensures e in stack' || e == (Col(w, idx), Row(w, idx)) { }
    ClosedStep(src, s.color, tol, visited, stack + [(x, y)], visited', stack', idx);
    assert (s.x, s.y) in stack + [(x, y)] ==> (s.x, s.y) in stack' || Idx(w, s.x, s.y) == idx;
  }

  /** One flood fill. An out-of-grid seed leaves the mask alone; otherwise the
      entries cleared are exactly the seed's region, whatever the mask held
      before, and no other entry changes. The visited bitmap makes every pixel
      be processed at most once: each iteration either drops a stack entry or
      marks a fresh pixel visited. */
  method MagicWandFill(src: Raster, mask: seq<byte>, s: Seed, tol: nat)
    returns (out: seq<byte>)
    requires src.Valid() && |mask| == src.width * src.height
    ensures |out| == |mask|
    ensures forall i :: 0 <= i < |out| ==>
      out[i] == (if InRegion(src, s, tol, i) then 0 else mask[i])
    ensures !InGrid(src.width, src.height, s.x, s.y) ==> out == mask
  {
    var w, h := src.width, src.height;
    out := mask;
    var stack: seq<(int, int)> := [(s.x, s.y)];
    var visited := seq(w * h, _ => false);
    if s.x < 0 || s.x >= w || s.y < 0 || s.y >= h {
      return;
    }
    SeedInRegion(src, s, tol);
    IdxCoords(w, h, s.x, s.y);

    while |stack| > 0
      invariant FillInv(src, s, tol, mask, out, visited, stack)
      decreases CountFalse(visited), |stack|
    {
      var x, y := stack[|stack| - 1].0, stack[|stack| - 1].1;
      assert stack == stack[..|stack| - 1] + [(x, y)];
      stack := stack[..|stack| - 1];
      StackPop(src, s, tol, stack, (x, y));
      IdxCoords(w, h, x, y);
      var idx := y * w + x;

      if visited[idx] {
        SkipStep(src, s, tol, mask, out, visited, stack, x, y);
        continue;
      }
      CountFalseMark(visited, idx);
      VisitStep(src, s, tol, mask, out, visited, stack, x, y);
      visited := visited[idx := true];
      if Matches(src, s.color, tol, idx) {
        out := out[idx := 0];
        stack := PushNeighbours(w, h, visited, stack, x, y);
      }
    }

    forall i | 0 <= i < w * h
      ensures InRegion(src, s, tol, i) <==> visited[i] && Matches(src, s.color, tol, i)
    {
      ClosedIsRegion(src, s, tol, visited, i);
    }
  }

  // ---------------------------------------------------------------------
  // Several seeds
  // ---------------------------------------------------------------------

  /** The mask after applying the seeds in insertion order. */
  ghost function FillAll(src: Raster, mask: seq<byte>, seeds: seq<Seed>, tol: nat): (m: seq<byte>)
    requires src.Valid() && |mask| == src.width * src.height
    ensures |m| == |mask|
    decreases |seeds|
  {
    if |seeds| == 0 then mask
    else Fill(src, FillAll(src, mask, seeds[..|seeds| - 1], tol), seeds[|seeds| - 1], tol)
  }

  /** Pixel i is claimed by at least one of the seeds. */
  ghost predicate ClaimedBySome(src: Raster, seeds: seq<Seed>, tol: nat, i: int)
    requires src.Valid()
  {
    exists s :: s in seeds && InRegion(src, s, tol, i)
  }

  /** The forEach of script.js: each seed in order runs its own fill against
      the same, accumulating mask. */
  method ApplySeeds(src: Raster, mask: seq<byte>, seeds: seq<Seed>, tol: nat)
    returns (out: seq<byte>)
    requires src.Valid() && |mask| == src.width * src.height
    ensures out == FillAll(src, mask, seeds, tol)
  {
    out := mask;
    var k := 0;
    while k < |seeds|
      invariant 0 <= k <= |seeds|
      invariant out == FillAll(src, mask, seeds[..k], tol)
    {
      out := MagicWandFill(src, out, seeds[k], tol);
      assert seeds[..k + 1][..k] == seeds[..k];
      k := k + 1;
    }
    assert seeds[..|seeds|] == seeds;
  }

  /** Seeds combine by union: after all seeds, a pixel is cleared exactly when
      some seed's region claims it, and otherwise keeps its earlier value. */
  lemma {:induction false} FillAllUnion(src: Raster, mask: seq<byte>, seeds: seq<Seed>, tol: nat)
    requires src.Valid() && |mask| == src.width * src.height
    ensures forall i :: 0 <= i < |mask| ==>
      FillAll(src, mask, seeds, tol)[i] ==
        (if ClaimedBySome(src, seeds, tol, i) then 0 else mask[i])
    decreases |seeds|
  {
    if |seeds| > 0 {
      var init := seeds[..|seeds| - 1];
      var last := seeds[|seeds| - 1];
      FillAllUnion(src, mask, init, tol);
      forall i | 0 <= i < |mask|
        ensures FillAll(src, mask, seeds, tol)[i] ==
          (if ClaimedBySome(src, seeds, tol, i) then 0 else mask[i])
      {
        assert seeds == init + [last];
        if InRegion(src, last, tol, i) {
          assert last in seeds;
        } else if ClaimedBySome(src, init, tol, i) {
          var s :| s in init && InRegion(src, s, tol, i);
          assert s in seeds;
        }
      }
    }
  }

  /** Order and repetition of seeds do not matter: two seed lists holding the
      same seeds yield the same mask. In particular seeds A then B give the
      same mask as B then A, and repeating a seed changes nothing. */
  lemma SeedOrderIrrelevant(src: Raster, mask: seq<byte>, seeds1: seq<Seed>, seeds2: seq<Seed>, tol: nat)
    requires src.Valid() && |mask| == src.width * src.height
    requires forall s :: s in seeds1 <==> s in seeds2
    ensures FillAll(src, mask, seeds1, tol) == FillAll(src, mask, seeds2, tol)
  {
    FillAllUnion(src, mask, seeds1, tol);
    FillAllUnion(src, mask, seeds2, tol);
    forall i | 0 <= i < |mask|
      ensures ClaimedBySome(src, seeds1, tol, i) == ClaimedBySome(src, seeds2, tol, i)
    {
    }
  }

  /** The regions do not depend on the mask: applying the same seeds to two
      masks clears the same pixels of both. */
  lemma ClearedIndependentOfMask(src: Raster, m1: seq<byte>, m2: seq<byte>, seeds: seq<Seed>, tol: nat, i: int)
    requires src.Valid() && |m1| == |m2| == src.width * src.height && 0 <= i < |m1|
    requires m1[i] != 0 && m2[i] != 0
    ensures FillAll(src, m1, seeds, tol)[i] == 0 <==> FillAll(src, m2, seeds, tol)[i] == 0
  {
    FillAllUnion(src, m1, seeds, tol);
    FillAllUnion(src, m2, seeds, tol);
  }
}
