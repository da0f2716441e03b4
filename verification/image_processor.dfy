/**
 * Field-region selection (`ImageProcessor.ExtractContours` in
 * ImageProcessor.cs). Thresholding and contour finding are pixel work done
 * by OpenCV; here they are an input: the bounding rectangle of every
 * contour found on the page. What the method itself decides is modelled:
 * the reading-order sort, the inclusive size filter, the naming of each
 * crop by its position in the sorted list, and the fallback to the whole
 * page when no rectangle qualifies.
 */
module ImageProcessor {

  /** An axis-aligned rectangle in pixel coordinates, origin top-left. */
  datatype Rect = Rect(x: int, y: int, width: int, height: int)

  datatype Size = Size(width: int, height: int)

  // ---------------------------------------------------------------------
  // Sorting into reading order
  // ---------------------------------------------------------------------

  /** The comparator handed to `List.Sort`: by `Y`, then by `X`. It is a
      total preorder; rectangles with equal `(Y, X)` compare equal and
      `List.Sort` (an unstable sort) may leave them in either order. */
  predicate InReadingOrder(a: Rect, b: Rect) {
    a.y < b.y || (a.y == b.y && a.x <= b.x)
  }

  predicate Sorted(rs: seq<Rect>) {
    forall i, j :: 0 <= i < j < |rs| ==> InReadingOrder(rs[i], rs[j])
  }

  /** Any outcome `List.Sort` may produce for `rs`: the same rectangles,
      in reading order. */
  predicate IsSortedPermutation(sorted: seq<Rect>, rs: seq<Rect>) {
    Sorted(sorted) && multiset(sorted) == multiset(rs)
  }

  function Insert(r: Rect, rs: seq<Rect>): (out: seq<Rect>)
    requires Sorted(rs)
    ensures multiset(out) == multiset(rs) + multiset{r}
    ensures Sorted(out)
  {
    if |rs| == 0 then [r]
    else if InReadingOrder(r, rs[0]) then [r] + rs
    else
      var tail := Insert(r, rs[1..]);
      InsertBehindHead(r, rs, tail);
      [rs[0]] + tail
  }

  /** The step of `Insert` that passes the head: the head stays in front
      of the tail with `r` inserted. */
  lemma InsertBehindHead(r: Rect, rs: seq<Rect>, tail: seq<Rect>)
    requires Sorted(rs) && |rs| > 0 && !InReadingOrder(r, rs[0])
    requires Sorted(tail) && multiset(tail) == multiset(rs[1..]) + multiset{r}
    ensures multiset([rs[0]] + tail) == multiset(rs) + multiset{r}
    ensures Sorted([rs[0]] + tail)
  {
    assert rs == [rs[0]] + rs[1..];
    var out := [rs[0]] + tail;
    forall j | 0 < j < |out|
      ensures InReadingOrder(rs[0], out[j])
    {
      var y := out[j];
      assert y == tail[j - 1];
      assert y in multiset(tail);
      if y != r {
        assert y in multiset(rs[1..]);
        var i :| 0 <= i < |rs[1..]| && rs[1..][i] == y;
        assert rs[i + 1] == y;
      }
    }
    forall i, j | 0 <= i < j < |out|
      ensures InReadingOrder(out[i], out[j])
    {
      if i > 0 {
        assert out[i] == tail[i - 1] && out[j] == tail[j - 1];
      }
    }
  }

  /** One sorted permutation of `rs` (insertion sort); the model's stand-in
      for `List.Sort`. */
  function SortRects(rs: seq<Rect>): (sorted: seq<Rect>)
    ensures IsSortedPermutation(sorted, rs)
  {
    if |rs| == 0 then []
    else
      assert rs == rs[..|rs| - 1] + [rs[|rs| - 1]];
      Insert(rs[|rs| - 1], SortRects(rs[..|rs| - 1]))
  }

  // ---------------------------------------------------------------------
  // Size bounds
  // ---------------------------------------------------------------------

  /** The smallest field size: a page-width eleventh by a page-height
      thirty-fifth, in whole pixels (C# integer division). */
  function MinDimension(imageWidth: nat, imageHeight: nat): (d: Size)
    ensures 11 * d.width <= imageWidth < 11 * (d.width + 1)
    ensures 35 * d.height <= imageHeight < 35 * (d.height + 1)
  {
    Size(imageWidth / 11, imageHeight / 35)
  }

  /** A rectangle qualifies as a field when both its sides lie within the
      bounds, all four comparisons inclusive. */
  predicate Fits(r: Rect, minDim: Size, maxDim: Size) {
    && minDim.width <= r.width <= maxDim.width
    && minDim.height <= r.height <= maxDim.height
  }

  /** The qualifying rectangles of `rs`, in order. */
  function FitOnly(rs: seq<Rect>, minDim: Size, maxDim: Size): (out: seq<Rect>)
    ensures |out| <= |rs|
  {
    if |rs| == 0 then []
    else (if Fits(rs[0], minDim, maxDim) then [rs[0]] else []) + FitOnly(rs[1..], minDim, maxDim)
  }

  /** Filtering keeps every copy of a qualifying rectangle and no copy of
      any other: it depends on the multiset of `rs` only. */
  lemma {:induction false} FitOnlyCount(rs: seq<Rect>, minDim: Size, maxDim: Size, x: Rect)
    ensures multiset(FitOnly(rs, minDim, maxDim))[x]
         == if Fits(x, minDim, maxDim) then multiset(rs)[x] else 0
  {
    if |rs| > 0 {
      FitOnlyCount(rs[1..], minDim, maxDim, x);
      assert rs == [rs[0]] + rs[1..];
    }
  }

  // ---------------------------------------------------------------------
  // Selection
  // ---------------------------------------------------------------------

  /** A field crop: the rectangle and its position in the sorted list,
      which is the number in the crop's file name. */
  datatype Crop = Crop(rect: Rect, index: nat)

  /** The positions `crops` takes from the sorted list. */
  function Indices(crops: seq<Crop>): set<nat> {
    set k | 0 <= k < |crops| :: crops[k].index
  }

  /** The loop over the sorted rectangles, from position `start` on. */
  function SelectFrom(sorted: seq<Rect>, minDim: Size, maxDim: Size, start: nat): seq<Crop>
    requires start <= |sorted|
    decreases |sorted| - start
  {
    if start == |sorted| then []
    else
      var rest := SelectFrom(sorted, minDim, maxDim, start + 1);
      if Fits(sorted[start], minDim, maxDim) then [Crop(sorted[start], start)] + rest else rest
  }

  lemma IndicesCons(c: Crop, rest: seq<Crop>)
    ensures Indices([c] + rest) == {c.index} + Indices(rest)
  {
    var crops := [c] + rest;
    forall n | n in Indices(crops)
      ensures n in {c.index} + Indices(rest)
    {
      var k :| 0 <= k < |crops| && crops[k].index == n;
      if k > 0 {
        assert rest[k - 1] == crops[k];
      }
    }
    forall n | n in Indices(rest)
      ensures n in Indices(crops)
    {
      var k :| 0 <= k < |rest| && rest[k].index == n;
      assert crops[k + 1] == rest[k];
    }
    assert crops[0] == c;
  }

  /** Each crop lies at or after position `start` of `sorted` and carries
      the rectangle at its position. */
  predicate TakenFrom(sorted: seq<Rect>, crops: seq<Crop>, start: nat) {
    forall k :: 0 <= k < |crops| ==>
      start <= crops[k].index < |sorted| && sorted[crops[k].index] == crops[k].rect
  }

  /** The crops' positions strictly increase. */
  predicate Increasing(crops: seq<Crop>) {
    forall k, l :: 0 <= k < l < |crops| ==> crops[k].index < crops[l].index
  }

  lemma {:induction false} SelectFromPositions(sorted: seq<Rect>, minDim: Size, maxDim: Size, start: nat)
    requires start <= |sorted|
    ensures TakenFrom(sorted, SelectFrom(sorted, minDim, maxDim, start), start)
    decreases |sorted| - start
  {
    if start < |sorted| {
      SelectFromPositions(sorted, minDim, maxDim, start + 1);
      var rest := SelectFrom(sorted, minDim, maxDim, start + 1);
      if Fits(sorted[start], minDim, maxDim) {
        var crops := [Crop(sorted[start], start)] + rest;
        assert forall k :: 0 < k < |crops| ==> crops[k] == rest[k - 1];
      }
    }
  }

  lemma {:induction false} SelectFromIncreasing(sorted: seq<Rect>, minDim: Size, maxDim: Size, start: nat)
    requires start <= |sorted|
    ensures Increasing(SelectFrom(sorted, minDim, maxDim, start))
    decreases |sorted| - start
  {
    if start < |sorted| {
      SelectFromIncreasing(sorted, minDim, maxDim, start + 1);
      SelectFromPositions(sorted, minDim, maxDim, start + 1);
      var rest := SelectFrom(sorted, minDim, maxDim, start + 1);
      if Fits(sorted[start], minDim, maxDim) {
        var crops := [Crop(sorted[start], start)] + rest;
        forall k, l | 0 <= k < l < |crops|
          ensures crops[k].index < crops[l].index
        {
          assert crops[l] == rest[l - 1];
          if k > 0 {
            assert crops[k] == rest[k - 1];
          }
        }
      }
    }
  }

  /** The positions taken are exactly the qualifying positions from
      `start` on. */
  lemma {:induction false} SelectFromIndices(sorted: seq<Rect>, minDim: Size, maxDim: Size, start: nat)
    requires start <= |sorted|
    ensures Indices(SelectFrom(sorted, minDim, maxDim, start))
         == set i | start <= i < |sorted| && Fits(sorted[i], minDim, maxDim)
    decreases |sorted| - start
  {
    if start < |sorted| {
      SelectFromIndices(sorted, minDim, maxDim, start + 1);
      var rest := SelectFrom(sorted, minDim, maxDim, start + 1);
      var wanted := set i | start <= i < |sorted| && Fits(sorted[i], minDim, maxDim);
      var wantedRest := set i | start + 1 <= i < |sorted| && Fits(sorted[i], minDim, maxDim);
      if Fits(sorted[start], minDim, maxDim) {
        IndicesCons(Crop(sorted[start], start), rest);
        assert wanted == {start} + wantedRest;
      } else {
        assert wanted == wantedRest;
      }
    } else {
      assert Indices([]) == {};
    }
  }

  /** The positions taken are exactly the qualifying positions from
      `start` on, each taken once, in increasing order, and each crop
      carries the rectangle at its position. */
  lemma SelectFromSpec(sorted: seq<Rect>, minDim: Size, maxDim: Size, start: nat)
    requires start <= |sorted|
    ensures var crops := SelectFrom(sorted, minDim, maxDim, start);
      && (forall k :: 0 <= k < |crops| ==>
            start <= crops[k].index < |sorted| && sorted[crops[k].index] == crops[k].rect)
      && (forall k, l :: 0 <= k < l < |crops| ==> crops[k].index < crops[l].index)
      && Indices(crops) == set i | start <= i < |sorted| && Fits(sorted[i], minDim, maxDim)
  {
    SelectFromPositions(sorted, minDim, maxDim, start);
    SelectFromIncreasing(sorted, minDim, maxDim, start);
    SelectFromIndices(sorted, minDim, maxDim, start);
  }

  /** The crops taken from the sorted rectangles: exactly the qualifying
      positions, each once, in increasing order. */
  function SelectCrops(sorted: seq<Rect>, minDim: Size, maxDim: Size): seq<Crop> {
    SelectFrom(sorted, minDim, maxDim, 0)
  }

  function CropRects(crops: seq<Crop>): (rs: seq<Rect>)
    ensures |rs| == |crops|
    ensures forall k :: 0 <= k < |crops| ==> rs[k] == crops[k].rect
  {
    if |crops| == 0 then [] else [crops[0].rect] + CropRects(crops[1..])
  }

  lemma {:induction false} SelectFromRects(sorted: seq<Rect>, minDim: Size, maxDim: Size, start: nat)
    requires start <= |sorted|
    ensures CropRects(SelectFrom(sorted, minDim, maxDim, start)) == FitOnly(sorted[start..], minDim, maxDim)
    decreases |sorted| - start
  {
    if start < |sorted| {
      SelectFromRects(sorted, minDim, maxDim, start + 1);
      assert sorted[start..][1..] == sorted[start + 1..];
      var rest := SelectFrom(sorted, minDim, maxDim, start + 1);
      if Fits(sorted[start], minDim, maxDim) {
        assert ([Crop(sorted[start], start)] + rest)[1..] == rest;
      }
    }
  }

  /** The crop rectangles are the qualifying rectangles of the sorted list,
      in that list's order. */
  lemma SelectCropsRects(sorted: seq<Rect>, minDim: Size, maxDim: Size)
    ensures CropRects(SelectCrops(sorted, minDim, maxDim)) == FitOnly(sorted, minDim, maxDim)
  {
    SelectFromRects(sorted, minDim, maxDim, 0);
    assert sorted[0..] == sorted;
  }

  /** Whatever order an unstable sort leaves equal rectangles in, each
      qualifying rectangle yields exactly one crop and no other rectangle
      yields one, and the crops come out in reading order. */
  lemma SelectCropsOfAnySortedOrder(sorted: seq<Rect>, rs: seq<Rect>, minDim: Size, maxDim: Size)
    requires IsSortedPermutation(sorted, rs)
    ensures forall x :: multiset(CropRects(SelectCrops(sorted, minDim, maxDim)))[x]
                     == if Fits(x, minDim, maxDim) then multiset(rs)[x] else 0
    ensures Sorted(CropRects(SelectCrops(sorted, minDim, maxDim)))
  {
    SelectCropsRects(sorted, minDim, maxDim);
    forall x {
      FitOnlyCount(sorted, minDim, maxDim, x);
    }
    var crops := SelectCrops(sorted, minDim, maxDim);
    SelectFromSpec(sorted, minDim, maxDim, 0);
    var cr := CropRects(crops);
    forall k, l | 0 <= k < l < |cr|
      ensures InReadingOrder(cr[k], cr[l])
    {
      assert crops[k].index < crops[l].index;
      assert sorted[crops[k].index] == cr[k] && sorted[crops[l].index] == cr[l];
    }
  }

  /** Two sorted orders of the same rectangles give the same number of
      crops and the same multiset of crop rectangles; crop numbers of
      rectangles with equal (Y, X) may differ between them. */
  lemma SortedOrdersAgree(o1: seq<Rect>, o2: seq<Rect>, rs: seq<Rect>, minDim: Size, maxDim: Size)
    requires IsSortedPermutation(o1, rs) && IsSortedPermutation(o2, rs)
    ensures multiset(CropRects(SelectCrops(o1, minDim, maxDim)))
         == multiset(CropRects(SelectCrops(o2, minDim, maxDim)))
    ensures |SelectCrops(o1, minDim, maxDim)| == |SelectCrops(o2, minDim, maxDim)|
  {
    SelectCropsOfAnySortedOrder(o1, rs, minDim, maxDim);
    SelectCropsOfAnySortedOrder(o2, rs, minDim, maxDim);
    var m1 := multiset(CropRects(SelectCrops(o1, minDim, maxDim)));
    var m2 := multiset(CropRects(SelectCrops(o2, minDim, maxDim)));
    assert forall x :: m1[x] == m2[x];
    assert m1 == m2;
    assert |m1| == |m2|;
  }

  // ---------------------------------------------------------------------
  // Crop file names
  // ---------------------------------------------------------------------

  function Digit(d: nat): char
    requires d < 10
  {
    (48 + d) as char
  }

  /** Decimal digits of `n`, as C# string interpolation writes it. */
  function NatToString(n: nat): (s: string)
    ensures 1 <= |s|
    ensures n >= 10 ==> |s| >= 2
    decreases n
  {
    if n < 10 then [Digit(n)] else NatToString(n / 10) + [Digit(n % 10)]
  }

  function IntToString(i: int): string {
    if i < 0 then "-" + NatToString(-i) else NatToString(i)
  }

  /** Different numbers are written differently. */
  lemma {:induction false} NatToStringInjective(a: nat, b: nat)
    requires NatToString(a) == NatToString(b)
    ensures a == b
    decreases a
  {
    var sa, sb := NatToString(a), NatToString(b);
    if a < 10 && b < 10 {
      assert Digit(a) == sa[0] == sb[0] == Digit(b);
    } else if a >= 10 && b >= 10 {
      assert Digit(a % 10) == sa[|sa| - 1] == sb[|sb| - 1] == Digit(b % 10);
      assert NatToString(a / 10) == sa[..|sa| - 1] == sb[..|sb| - 1] == NatToString(b / 10);
      NatToStringInjective(a / 10, b / 10);
    }
  }

  /** `contour_{pageNumber}_{i}.png`. */
  function CropFileName(pageNumber: int, index: nat): string {
    "contour_" + IntToString(pageNumber) + "_" + NatToString(index) + ".png"
  }

  /** `Path.Combine(dir, name)` for a relative `name`, with `/` as the
      directory separator. */
  function JoinPath(dir: string, name: string): string {
    if |dir| == 0 then name
    else if dir[|dir| - 1] == '/' then dir + name
    else dir + "/" + name
  }

  function CropPath(cropDir: string, pageNumber: int, index: nat): string {
    JoinPath(cropDir, CropFileName(pageNumber, index))
  }

  /** Joining one directory with two names gives one path only when the
      names agree. */
  lemma JoinPathInjective(dir: string, n1: string, n2: string)
    requires JoinPath(dir, n1) == JoinPath(dir, n2)
    ensures n1 == n2
  {
    var sep := if |dir| == 0 || dir[|dir| - 1] == '/' then "" else "/";
    var d := dir + sep;
    assert JoinPath(dir, n1) == d + n1 && JoinPath(dir, n2) == d + n2;
    assert n1 == (d + n1)[|d|..];
    assert n2 == (d + n2)[|d|..];
  }

  /** One page's crop file names differ for different positions. */
  lemma CropFileNameInjective(pageNumber: int, i: nat, j: nat)
    requires CropFileName(pageNumber, i) == CropFileName(pageNumber, j)
    ensures i == j
  {
    var prefix := "contour_" + IntToString(pageNumber) + "_";
    var a, b := NatToString(i), NatToString(j);
    var n1, n2 := prefix + a + ".png", prefix + b + ".png";
    assert n1 == CropFileName(pageNumber, i) && n2 == CropFileName(pageNumber, j);
    assert |a| == |b|;
    assert a == n1[|prefix|..|prefix| + |a|];
    assert b == n2[|prefix|..|prefix| + |b|];
    NatToStringInjective(i, j);
  }

  /** Crops at different positions of the same page get different files. */
  lemma CropPathInjective(cropDir: string, pageNumber: int, i: nat, j: nat)
    requires CropPath(cropDir, pageNumber, i) == CropPath(cropDir, pageNumber, j)
    ensures i == j
  {
    JoinPathInjective(cropDir, CropFileName(pageNumber, i), CropFileName(pageNumber, j));
    CropFileNameInjective(pageNumber, i, j);
  }

  // ---------------------------------------------------------------------
  // ExtractContours
  // ---------------------------------------------------------------------

  /** Sort, then select with the page-derived minimum and the given
      maximum. */
  function ExtractCrops(imageWidth: nat, imageHeight: nat, maxDim: Size, rects: seq<Rect>): seq<Crop> {
    SelectCrops(SortRects(rects), MinDimension(imageWidth, imageHeight), maxDim)
  }

  function CropPaths(cropDir: string, pageNumber: int, crops: seq<Crop>): (paths: seq<string>)
    ensures |paths| == |crops|
    ensures forall k :: 0 <= k < |crops| ==> paths[k] == CropPath(cropDir, pageNumber, crops[k].index)
  {
    if |crops| == 0 then []
    else [CropPath(cropDir, pageNumber, crops[0].index)] + CropPaths(cropDir, pageNumber, crops[1..])
  }

  /** `ImageProcessor.ExtractContours(imagePath, pageNumber)` with the
      bounding rectangles of the contours found on the page, one per
      contour, as `rects`; `maxDim` is the float-derived maximum size and
      `cropDir` the crop directory. Returns the crop file paths, or the page
      itself when nothing qualifies. */
  function ExtractContours(imagePath: string, pageNumber: int, cropDir: string,
                           imageWidth: nat, imageHeight: nat, maxDim: Size,
                           rects: seq<Rect>): seq<string>
  {
    var crops := ExtractCrops(imageWidth, imageHeight, maxDim, rects);
    if |crops| == 0 then [imagePath] else CropPaths(cropDir, pageNumber, crops)
  }

  predicate NoneFits(rects: seq<Rect>, minDim: Size, maxDim: Size) {
    forall i :: 0 <= i < |rects| ==> !Fits(rects[i], minDim, maxDim)
  }

  lemma {:induction false} NoneFitsIffNoneKept(rects: seq<Rect>, minDim: Size, maxDim: Size)
    ensures NoneFits(rects, minDim, maxDim) <==> |FitOnly(rects, minDim, maxDim)| == 0
  {
    if |rects| > 0 {
      NoneFitsIffNoneKept(rects[1..], minDim, maxDim);
      assert NoneFits(rects, minDim, maxDim) <==>
        !Fits(rects[0], minDim, maxDim) && NoneFits(rects[1..], minDim, maxDim) by {
        if !Fits(rects[0], minDim, maxDim) && NoneFits(rects[1..], minDim, maxDim) {
          forall i | 0 <= i < |rects|
            ensures !Fits(rects[i], minDim, maxDim)
          {
            if i > 0 {
              assert rects[i] == rects[1..][i - 1];
            }
          }
        }
      }
    }
  }

  /** Every sorted order yields as many crops as there are qualifying
      rectangles. */
  lemma CropCount(sorted: seq<Rect>, rects: seq<Rect>, minDim: Size, maxDim: Size)
    requires IsSortedPermutation(sorted, rects)
    ensures |SelectCrops(sorted, minDim, maxDim)| == |FitOnly(rects, minDim, maxDim)|
  {
    SelectCropsRects(sorted, minDim, maxDim);
    var m1 := multiset(FitOnly(sorted, minDim, maxDim));
    var m2 := multiset(FitOnly(rects, minDim, maxDim));
    forall x
      ensures m1[x] == m2[x]
    {
      FitOnlyCount(sorted, minDim, maxDim, x);
      FitOnlyCount(rects, minDim, maxDim, x);
    }
    assert m1 == m2;
    assert |CropRects(SelectCrops(sorted, minDim, maxDim))| == |m1| == |m2|;
  }

  /** The result is never empty, and it is exactly the page itself when,
      and only when, no rectangle qualifies; otherwise there is one path
      per qualifying rectangle. */
  lemma ExtractContoursFallback(imagePath: string, pageNumber: int, cropDir: string,
                                imageWidth: nat, imageHeight: nat, maxDim: Size, rects: seq<Rect>)
    ensures var paths := ExtractContours(imagePath, pageNumber, cropDir, imageWidth, imageHeight, maxDim, rects);
      var minDim := MinDimension(imageWidth, imageHeight);
      && |paths| >= 1
      && (NoneFits(rects, minDim, maxDim) <==> |ExtractCrops(imageWidth, imageHeight, maxDim, rects)| == 0)
      && (NoneFits(rects, minDim, maxDim) ==> paths == [imagePath])
      && (!NoneFits(rects, minDim, maxDim) ==> |paths| == |FitOnly(rects, minDim, maxDim)|)
  {
    var minDim := MinDimension(imageWidth, imageHeight);
    CropCount(SortRects(rects), rects, minDim, maxDim);
    NoneFitsIffNoneKept(rects, minDim, maxDim);
  }

  /** Each qualifying rectangle yields exactly one crop and no other
      rectangle yields one; the crops follow reading order; a crop's number
      is its position in the whole sorted list, so the numbers strictly
      increase and may skip. */
  lemma ExtractCropsSpec(imageWidth: nat, imageHeight: nat, maxDim: Size, rects: seq<Rect>)
    ensures var crops := ExtractCrops(imageWidth, imageHeight, maxDim, rects);
      var minDim := MinDimension(imageWidth, imageHeight);
      && (forall x :: multiset(CropRects(crops))[x] == if Fits(x, minDim, maxDim) then multiset(rects)[x] else 0)
      && Sorted(CropRects(crops))
      && (forall k :: 0 <= k < |crops| ==>
            crops[k].index < |rects| && SortRects(rects)[crops[k].index] == crops[k].rect)
      && (forall k, l :: 0 <= k < l < |crops| ==> crops[k].index < crops[l].index)
  {
    var minDim := MinDimension(imageWidth, imageHeight);
    var sorted := SortRects(rects);
    SelectCropsOfAnySortedOrder(sorted, rects, minDim, maxDim);
    SelectFromSpec(sorted, minDim, maxDim, 0);
    assert |sorted| == |multiset(sorted)| == |multiset(rects)| == |rects|;
  }

  /** Each crop is saved under its own number, so no two crops of a page
      share a file. */
  lemma ExtractContoursPaths(imagePath: string, pageNumber: int, cropDir: string,
                             imageWidth: nat, imageHeight: nat, maxDim: Size, rects: seq<Rect>)
    requires !NoneFits(rects, MinDimension(imageWidth, imageHeight), maxDim)
    ensures var paths := ExtractContours(imagePath, pageNumber, cropDir, imageWidth, imageHeight, maxDim, rects);
      var crops := ExtractCrops(imageWidth, imageHeight, maxDim, rects);
      && |paths| == |crops|
      && (forall k :: 0 <= k < |crops| ==> paths[k] == CropPath(cropDir, pageNumber, crops[k].index))
      && (forall k, l :: 0 <= k < l < |paths| ==> paths[k] != paths[l])
  {
    ExtractContoursFallback(imagePath, pageNumber, cropDir, imageWidth, imageHeight, maxDim, rects);
    ExtractCropsSpec(imageWidth, imageHeight, maxDim, rects);
    var crops := ExtractCrops(imageWidth, imageHeight, maxDim, rects);
    var paths := ExtractContours(imagePath, pageNumber, cropDir, imageWidth, imageHeight, maxDim, rects);
    assert paths == CropPaths(cropDir, pageNumber, crops);
    forall k, l | 0 <= k < l < |paths|
      ensures paths[k] != paths[l]
    {
      if paths[k] == paths[l] {
        CropPathInjective(cropDir, pageNumber, crops[k].index, crops[l].index);
      }
    }
  }

  /** A crop is numbered by its position among all rectangles, not among
      the qualifying ones: on a 110 x 350 page (smallest field 10 x 10) the
      first rectangle in reading order is too small, so the only crop is
      number 1. */
  lemma CropNumberSkipsUnqualified()
    ensures ExtractContours("page.png", 3, "crops", 110, 350, Size(100, 100),
                            [Rect(0, 10, 20, 20), Rect(0, 0, 5, 5)])
         == ["crops/contour_3_1.png"]
  {
    var rects := [Rect(0, 10, 20, 20), Rect(0, 0, 5, 5)];
    var crops := [Crop(Rect(0, 10, 20, 20), 1)];
    ExampleCrops();
    assert ExtractCrops(110, 350, Size(100, 100), rects) == crops;
    ExamplePath();
    assert CropPaths("crops", 3, crops) == ["crops/contour_3_1.png"];
  }

  lemma ExampleCrops()
    ensures SelectCrops(SortRects([Rect(0, 10, 20, 20), Rect(0, 0, 5, 5)]), MinDimension(110, 350), Size(100, 100))
         == [Crop(Rect(0, 10, 20, 20), 1)]
  {
    ExampleSorted();
    assert MinDimension(110, 350) == Size(10, 10);
    ExampleSelect();
  }

  lemma ExampleSorted()
    ensures SortRects([Rect(0, 10, 20, 20), Rect(0, 0, 5, 5)]) == [Rect(0, 0, 5, 5), Rect(0, 10, 20, 20)]
  {
    var rects := [Rect(0, 10, 20, 20), Rect(0, 0, 5, 5)];
    assert rects[..1] == [Rect(0, 10, 20, 20)];
    assert rects[..1][..0] == [];
  }

  lemma ExampleSelect()
    ensures SelectCrops([Rect(0, 0, 5, 5), Rect(0, 10, 20, 20)], Size(10, 10), Size(100, 100))
         == [Crop(Rect(0, 10, 20, 20), 1)]
  {
    var sorted := [Rect(0, 0, 5, 5), Rect(0, 10, 20, 20)];
    assert SelectFrom(sorted, Size(10, 10), Size(100, 100), 2) == [];
    assert SelectFrom(sorted, Size(10, 10), Size(100, 100), 1) == [Crop(Rect(0, 10, 20, 20), 1)];
  }

  lemma ExamplePath()
    ensures CropPath("crops", 3, 1) == "crops/contour_3_1.png"
  {
    ExampleFileName();
    assert "crops"[|"crops"| - 1] == 's';
    assert JoinPath("crops", "contour_3_1.png") == "crops" + "/" + "contour_3_1.png";
  }

  lemma ExampleFileName()
    ensures CropFileName(3, 1) == "contour_3_1.png"
  {
    assert NatToString(3) == "3" && NatToString(1) == "1";
    assert IntToString(3) == "3";
  }
}
