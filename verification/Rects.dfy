/**
  Consolidation of overlapping rectangles (libraries/NeilOS/Core/NSTypes.cpp), on integer
  coordinates, where lroundf changes nothing.  A rectangle stands for the set of integer
  points (pixels) it covers, its right and bottom edges excluded.
*/
module Rects {
  type Point = (int, int)

  // Origin and size; `Rect` is a rectangle that covers something.
  datatype NSRect = NSRect(x: int, y: int, w: int, h: int)
  type Rect = r: NSRect | r.w > 0 && r.h > 0 witness NSRect(0, 0, 1, 1)

  function Area(r: NSRect): int { r.w * r.h }

  predicate Contains(r: NSRect, p: Point) {
    r.x <= p.0 < r.x + r.w && r.y <= p.1 < r.y + r.h
  }

  ghost predicate Covers(rects: seq<NSRect>, p: Point) {
    exists r :: r in rects && Contains(r, p)
  }

  ghost predicate Disjoint(a: NSRect, b: NSRect) {
    forall p: Point :: !(Contains(a, p) && Contains(b, p))
  }

  ghost predicate PairwiseDisjoint(rects: seq<NSRect>) {
    forall i, j :: 0 <= i < j < |rects| ==> Disjoint(rects[i], rects[j])
  }

  // OverlapsRectNonInclusive
  predicate Overlaps(s: NSRect, r: NSRect) {
    s.x < r.x + r.w && s.x + s.w > r.x && s.y < r.y + r.h && s.y + s.h > r.y
  }

  // ----- splitting -----

  function FindIndependentOverlap(from: NSRect, value: NSRect, top: bool, bottom: bool, left: bool, right: bool): seq<NSRect>
  {
    (if top then [NSRect(value.x, value.y, value.w, from.y - value.y)] else [])
    + (if bottom then [NSRect(value.x, from.y + from.h, value.w, value.y + value.h - (from.y + from.h))] else [])
    + (if left then [NSRect(value.x, value.y, from.x - value.x, value.h)] else [])
    + (if right then [NSRect(from.x + from.w, value.y, value.x + value.w - (from.x + from.w), value.h)] else [])
  }

  function FindDependentOverlap(from: NSRect, value: NSRect, top: bool, bottom: bool, left: bool, right: bool): seq<NSRect>
  {
    if top && right then
      [NSRect(value.x, value.y, value.w, from.y - value.y),
       NSRect(from.x + from.w, from.y, value.x + value.w - (from.x + from.w), value.y + value.h - from.y)]
    else if top && left then
      [NSRect(value.x, value.y, value.w, from.y - value.y),
       NSRect(value.x, from.y, from.x - value.x, value.y + value.h - from.y)]
    else if bottom && right then
      [NSRect(value.x, from.y + from.h, value.w, value.y + value.h - (from.y + from.h)),
       NSRect(from.x + from.w, value.y, value.x + value.w - (from.x + from.w), from.y + from.h - value.y)]
    else if bottom && left then
      [NSRect(value.x, from.y + from.h, value.w, value.y + value.h - (from.y + from.h)),
       NSRect(value.x, value.y, from.x - value.x, from.y + from.h - value.y)]
    else
      // ret.resize(2): two default rectangles
      [NSRect(0, 0, 0, 0), NSRect(0, 0, 0, 0)]
  }

  // Which sides of `from` the value sticks out of.
  predicate Top(from: NSRect, value: NSRect) { value.y < from.y && value.y + value.h > from.y }
  predicate Bottom(from: NSRect, value: NSRect) { value.y < from.y + from.h && value.y + value.h > from.y + from.h }
  predicate Left(from: NSRect, value: NSRect) { value.x < from.x && value.x + value.w > from.x }
  predicate Right(from: NSRect, value: NSRect) { value.x < from.x + from.w && value.x + value.w > from.x + from.w }

  function Sides(from: NSRect, value: NSRect): nat {
    (if Top(from, value) then 1 else 0) + (if Bottom(from, value) then 1 else 0)
    + (if Left(from, value) then 1 else 0) + (if Right(from, value) then 1 else 0)
  }

  // The pieces to add for `value`, and whether `from` must be dropped first.
  function RectSubtract(from: Rect, value: Rect): (r: (seq<NSRect>, bool))
    requires Overlaps(value, from)
    decreases Sides(from, value)
  {
    var top, bottom, left, right := Top(from, value), Bottom(from, value), Left(from, value), Right(from, value);
    match Sides(from, value)
    case 1 => (FindIndependentOverlap(from, value, top, bottom, left, right), false)
    case 2 =>
      if (top && bottom) || (left && right) then
        (FindIndependentOverlap(from, value, top, bottom, left, right), false)
      else
        (FindDependentOverlap(from, value, top, bottom, left, right), false)
    case 3 => (RectSubtract(value, from).0 + [value], true)
    case 4 => ([value], true)
    case _ => ([], false)
  }

  // The pieces cover something, share no point, and make up exactly the wanted points.
  ghost predicate Partition(pieces: seq<NSRect>, want: Point -> bool) {
    && (forall r :: r in pieces ==> r.w > 0 && r.h > 0)
    && PairwiseDisjoint(pieces)
    && (forall p: Point :: want(p) <==> Covers(pieces, p))
  }

  lemma FewCover(pieces: seq<NSRect>, p: Point)
    requires |pieces| <= 2
    ensures Covers(pieces, p) <==>
      (|pieces| > 0 && Contains(pieces[0], p)) || (|pieces| > 1 && Contains(pieces[1], p))
  {
    assert |pieces| > 0 ==> pieces[0] in pieces;
    assert |pieces| > 1 ==> pieces[1] in pieces;
  }

  // Case 3 turned round: at most one piece, and no further turn.
  lemma SwappedCallIsFlat(from: Rect, value: Rect)
    requires Overlaps(value, from) && Sides(from, value) == 3
    ensures Sides(value, from) <= 1
    ensures |RectSubtract(value, from).0| == Sides(value, from) && !RectSubtract(value, from).1
  {
  }

  ghost function Wanted(from: Rect, value: Rect, remove: bool): Point -> bool {
    p => if remove then Contains(value, p) || Contains(from, p) else Contains(value, p) && !Contains(from, p)
  }

  lemma FlatPartitions(from: Rect, value: Rect)
    requires Overlaps(value, from) && Sides(from, value) != 3
    ensures var (pieces, remove) := RectSubtract(from, value);
      |pieces| <= 2 && (remove <==> Sides(from, value) >= 3) && Partition(pieces, Wanted(from, value, remove))
  {
    var (pieces, remove) := RectSubtract(from, value);
    forall p: Point ensures Covers(pieces, p) <==>
      (|pieces| > 0 && Contains(pieces[0], p)) || (|pieces| > 1 && Contains(pieces[1], p))
    {
      FewCover(pieces, p);
    }
  }

  /** RectSubtract is an exact partition: of the value without the old rectangle, or, when
      the old rectangle is to be dropped, of the two together. */
  lemma SubtractPartitions(from: Rect, value: Rect)
    requires Overlaps(value, from)
    ensures var (pieces, remove) := RectSubtract(from, value);
      |pieces| <= 2 && (remove <==> Sides(from, value) >= 3) && Partition(pieces, Wanted(from, value, remove))
  {
    if Sides(from, value) == 3 {
      SwappedCallIsFlat(from, value);
      FlatPartitions(value, from);
      var other := RectSubtract(value, from).0;
      forall p: Point ensures Covers(other + [value], p) <==> Contains(value, p) || Contains(from, p) {
        assert Wanted(value, from, false)(p) <==> Covers(other, p);
        assert value in other + [value];
      }
      assert forall p: Point :: Wanted(value, from, false)(p) ==> !Contains(value, p);
    } else {
      FlatPartitions(from, value);
    }
  }

  // ----- adding to a disjoint list -----

  ghost function Points(r: Rect): (s: set<Point>)
    ensures forall p: Point :: p in s <==> Contains(r, p)
  {
    set i, j | r.x <= i < r.x + r.w && r.y <= j < r.y + r.h :: (i, j)
  }

  // The points of r that the list already covers.
  ghost function Covered(rects: seq<Rect>, r: Rect): set<Point> {
    set p | p in Points(r) && Covers(rects, p)
  }

  // A point that two overlapping rectangles share.
  function Common(a: Rect, b: Rect): (p: Point)
    requires Overlaps(a, b)
    ensures Contains(a, p) && Contains(b, p)
  {
    (if a.x < b.x then b.x else a.x, if a.y < b.y then b.y else a.y)
  }

  lemma OverlapsMeansShared(a: Rect, b: Rect)
    ensures Overlaps(a, b) <==> !Disjoint(a, b)
  {
    if Overlaps(a, b) { assert Contains(a, Common(a, b)) && Contains(b, Common(a, b)); }
  }

  lemma Appended(rects: seq<NSRect>, r: NSRect, p: Point)
    ensures Covers(rects + [r], p) <==> Covers(rects, p) || Contains(r, p)
  {
    assert r in rects + [r];
    if Covers(rects, p) {
      var q :| q in rects && Contains(q, p);
      assert q in rects + [r];
    }
  }

  lemma ErasedAt(rects: seq<Rect>, z: nat, p: Point)
    requires z < |rects| && PairwiseDisjoint(rects)
    ensures Covers(rects[..z] + rects[z + 1..], p) <==> Covers(rects, p) && !Contains(rects[z], p)
  {
    var rest := rects[..z] + rects[z + 1..];
    if Covers(rest, p) {
      var i :| 0 <= i < |rest| && Contains(rest[i], p);
      if i < z {
        assert rest[i] == rects[i] && Disjoint(rects[i], rects[z]);
      } else {
        assert rest[i] == rects[i + 1] && Disjoint(rects[z], rects[i + 1]);
      }
    }
    if Covers(rects, p) && !Contains(rects[z], p) {
      var j :| 0 <= j < |rects| && Contains(rects[j], p);
      if j < z { assert rest[j] == rects[j]; } else { assert rest[j - 1] == rects[j]; }
    }
  }

  lemma Erased(rects: seq<Rect>, z: nat)
    requires z < |rects| && PairwiseDisjoint(rects)
    ensures PairwiseDisjoint(rects[..z] + rects[z + 1..])
    ensures forall p :: Covers(rects[..z] + rects[z + 1..], p) <==> Covers(rects, p) && !Contains(rects[z], p)
  {
    forall p { ErasedAt(rects, z, p); }
  }

  // std::vector<NSRect>, passed by reference
  class RectVector {
    var rects: seq<Rect>

    constructor ()
      ensures rects == []
    {
      rects := [];
    }

    // The recursion ends: each call meets strictly fewer points that are already covered.
    method AddRectangle(rect: Rect)
      requires PairwiseDisjoint(rects)
      modifies this
      ensures PairwiseDisjoint(rects)
      ensures forall p :: Covers(rects, p) <==> Covers(old(rects), p) || Contains(rect, p)
      ensures old(forall r :: r in rects ==> !Overlaps(rect, r)) ==> rects == old(rects) + [rect]
      decreases Covered(rects, rect)
    {
      ghost var was := rects;
      for z := 0 to |rects|
        invariant rects == was
        invariant forall i :: 0 <= i < z ==> !Overlaps(rect, rects[i])
      {
        var original := rects[z];
        if Overlaps(rect, original) {
          var (pieces, remove) := RectSubtract(original, rect);
          SubtractPartitions(original, rect);
          Erased(rects, z);
          if remove {
            rects := rects[..z] + rects[z + 1..];
          }
          ghost var base := rects;
          for k := 0 to |pieces|
            invariant PairwiseDisjoint(rects)
            invariant forall p :: Covers(rects, p) <==> Covers(base, p) || Covers(pieces[..k], p)
          {
            assert pieces[k] in pieces;
            PieceIsCloser(was, original, rect, remove, base, pieces, k, rects);
            AddRectangle(pieces[k]);
            assert pieces[..k + 1] == pieces[..k] + [pieces[k]];
            forall p { Appended(pieces[..k], pieces[k], p); }
          }
          assert pieces[..|pieces|] == pieces;
          return;
        }
      }
      forall i | 0 <= i < |rects| ensures Disjoint(rects[i], rect) { OverlapsMeansShared(rect, rects[i]); }
      forall p { Appended(rects, rect, p); }
      rects := rects + [rect];
    }
  }

  lemma PieceIsCloser(was: seq<Rect>, original: Rect, rect: Rect, remove: bool,
                      base: seq<Rect>, pieces: seq<NSRect>, k: nat, now: seq<Rect>)
    requires original in was && Overlaps(rect, original)
    requires forall p :: Covers(base, p) <==> Covers(was, p) && (remove ==> !Contains(original, p))
    requires k < |pieces| && Partition(pieces, Wanted(original, rect, remove))
    requires forall p :: Covers(now, p) <==> Covers(base, p) || Covers(pieces[..k], p)
    ensures pieces[k].w > 0 && pieces[k].h > 0
    ensures Covered(now, pieces[k]) < Covered(was, rect)
  {
    assert pieces[k] in pieces;
    forall p | p in Covered(now, pieces[k])
      ensures p in Covered(was, rect) && p != Common(rect, original)
    {
      assert Covers(pieces, p);
      assert Wanted(original, rect, remove)(p);
    }
    assert Covers(was, Common(rect, original));
    assert Common(rect, original) in Covered(was, rect);
  }

  // ----- areas -----

  ghost function AllPoints(rects: seq<Rect>): (s: set<Point>)
    ensures forall p: Point :: p in s <==> Covers(rects, p)
  {
    if rects == [] then {}
    else
      var n := |rects| - 1;
      assert rects == rects[..n] + [rects[n]];
      assert forall p: Point :: Covers(rects, p) <==> Covers(rects[..n], p) || Contains(rects[n], p) by {
        forall p: Point { Appended(rects[..n], rects[n], p); }
      }
      AllPoints(rects[..n]) + Points(rects[n])
  }

  ghost function TotalArea(rects: seq<Rect>): int {
    if rects == [] then 0 else TotalArea(rects[..|rects| - 1]) + Area(rects[|rects| - 1])
  }

  // w points from (x, y) to the right, and h such rows.
  ghost function Row(x: int, y: int, w: nat): (s: set<Point>)
    ensures forall p: Point :: p in s <==> p.1 == y && x <= p.0 < x + w
    ensures |s| == w
  {
    if w == 0 then {} else Row(x, y, w - 1) + {(x + w - 1, y)}
  }

  ghost function Grid(x: int, y: int, w: nat, h: nat): (s: set<Point>)
    ensures forall p: Point :: p in s <==> x <= p.0 < x + w && y <= p.1 < y + h
    ensures |s| == w * h
  {
    if h == 0 then {}
    else
      assert Grid(x, y, w, h - 1) !! Row(x, y + h - 1, w);
      Grid(x, y, w, h - 1) + Row(x, y + h - 1, w)
  }

  lemma PointsCount(r: Rect)
    ensures |Points(r)| == Area(r)
  {
    assert Points(r) == Grid(r.x, r.y, r.w, r.h);
  }

  /** In a disjoint list no point is counted twice. */
  lemma {:induction false} AreasAddUp(rects: seq<Rect>)
    requires PairwiseDisjoint(rects)
    ensures TotalArea(rects) == |AllPoints(rects)|
  {
    if rects != [] {
      var n := |rects| - 1;
      AreasAddUp(rects[..n]);
      PointsCount(rects[n]);
      forall p | Covers(rects[..n], p) ensures !Contains(rects[n], p) {
        var i :| 0 <= i < n && Contains(rects[i], p);
        assert Disjoint(rects[i], rects[n]);
      }
      assert AllPoints(rects[..n]) !! Points(rects[n]);
    }
  }

  /** The areas of a disjoint cover sum to the number of distinct points of what it covers. */
  lemma ConsolidatedArea(rects: seq<Rect>, output: seq<Rect>)
    requires PairwiseDisjoint(output)
    requires forall p :: Covers(output, p) <==> Covers(rects, p)
    ensures TotalArea(output) == |AllPoints(rects)|
  {
    AreasAddUp(output);
    assert AllPoints(output) == AllPoints(rects);
  }

  // ----- consolidating -----

  ghost predicate Descending(rects: seq<Rect>) {
    rects != [] ==> (forall r :: r in rects[1..] ==> Area(r) <= Area(rects[0])) && Descending(rects[1..])
  }

  lemma LargestFirst(r: Rect, rest: seq<Rect>)
    requires Descending(rest) && forall q :: q in multiset(rest) ==> Area(q) <= Area(r)
    ensures Descending([r] + rest)
  {
    assert ([r] + rest)[1..] == rest && forall q :: q in rest ==> q in multiset(rest);
  }

  lemma FirstIsLargest(sorted: seq<Rect>)
    requires Descending(sorted) && sorted != []
    ensures forall q :: q in multiset(sorted) ==> Area(q) <= Area(sorted[0])
    ensures multiset(sorted) == multiset{sorted[0]} + multiset(sorted[1..])
  {
    assert sorted == [sorted[0]] + sorted[1..];
  }

  // std::sort by decreasing area: insertion, which is one of the orders it may return.
  function Insert(r: Rect, sorted: seq<Rect>): (s: seq<Rect>)
    requires Descending(sorted)
    ensures Descending(s) && multiset(s) == multiset(sorted) + multiset{r}
  {
    if sorted == [] then [r]
    else
      FirstIsLargest(sorted);
      if Area(sorted[0]) < Area(r) then
        LargestFirst(r, sorted);
        [r] + sorted
      else
        var rest := Insert(r, sorted[1..]);
        LargestFirst(sorted[0], rest);
        [sorted[0]] + rest
  }

  function SortByArea(rects: seq<Rect>): (s: seq<Rect>)
    ensures Descending(s) && multiset(s) == multiset(rects)
  {
    if rects == [] then []
    else
      assert rects == [rects[0]] + rects[1..];
      Insert(rects[0], SortByArea(rects[1..]))
  }

  lemma SameCover(a: seq<Rect>, b: seq<Rect>, p: Point)
    requires multiset(a) == multiset(b)
    ensures Covers(a, p) <==> Covers(b, p)
  {
    assert forall r :: (r in a <==> r in multiset(a)) && (r in b <==> r in multiset(b));
  }

  lemma OneMoreCovers(sorted: seq<Rect>, z: nat)
    requires z < |sorted|
    ensures forall p :: Covers(sorted[..z + 1], p) <==> Covers(sorted[..z], p) || Contains(sorted[z], p)
  {
    assert sorted[..z + 1] == sorted[..z] + [sorted[z]];
    forall p { Appended(sorted[..z], sorted[z], p); }
  }

  // NSRectConsolidate
  method NSRectConsolidate(rects: seq<Rect>) returns (output: seq<Rect>)
    ensures PairwiseDisjoint(output)
    ensures forall p :: Covers(output, p) <==> Covers(rects, p)
    ensures TotalArea(output) == |AllPoints(rects)|
  {
    var sorted := SortByArea(rects);
    var out := new RectVector();
    for z := 0 to |sorted|
      invariant PairwiseDisjoint(out.rects)
      invariant forall p :: Covers(out.rects, p) <==> Covers(sorted[..z], p)
    {
      out.AddRectangle(sorted[z]);
      OneMoreCovers(sorted, z);
    }
    assert sorted[..|sorted|] == sorted;
    forall p ensures Covers(sorted, p) <==> Covers(rects, p) { SameCover(sorted, rects, p); }
    output := out.rects;
    ConsolidatedArea(rects, output);
  }
}
