/**
  Lists of mapped regions, as values (NeilOS/kernel/memory/mmap_list.c): what unmapping an
  address range must leave of each region, and what that means address by address.
*/
module MmapRegions {
  import opened Wrappers

  // mmap_list_t: the addresses [start, end), and what they map
  datatype Region = Region(start: nat, end: nat, attr: Attributes)

  datatype Attributes = Attributes(permissions: nat, shared: bool, file: Option<nat>, offset: nat)

  predicate Holds(r: Region, a: nat) { r.start <= a < r.end }

  function Max(a: nat, b: nat): nat { if a < b then b else a }
  function Min(a: nat, b: nat): nat { if a < b then a else b }

  // The test of mmap_list_region_exists.
  predicate Touches(r: Region, start: nat, end: nat) {
    Max(start, r.start) < Min(end, r.end)
  }

  // ----- one region -----

  // What is left of a region.
  function Pieces(r: Region, start: nat, end: nat): seq<Region> {
    if !Touches(r, start, end) then [r]
    else if start <= r.start && end >= r.end then []
    else if r.start < start && r.end > end then [r.(end := start), r.(start := end)]
    else if start <= r.start then [r.(start := end)]
    else [r.(end := start)]
  }

  function PiecesAll(v: seq<Region>, start: nat, end: nat): seq<Region> {
    if v == [] then [] else Pieces(v[0], start, end) + PiecesAll(v[1..], start, end)
  }

  // Bytes of the range that a region maps.
  function Overlap(r: Region, start: nat, end: nat): nat {
    if Touches(r, start, end) then Min(end, r.end) - Max(start, r.start) else 0
  }

  function OverlapAll(v: seq<Region>, start: nat, end: nat): nat {
    if v == [] then 0 else Overlap(v[0], start, end) + OverlapAll(v[1..], start, end)
  }

  lemma {:induction false} Concat(a: seq<Region>, b: seq<Region>, start: nat, end: nat)
    ensures PiecesAll(a + b, start, end) == PiecesAll(a, start, end) + PiecesAll(b, start, end)
    ensures OverlapAll(a + b, start, end) == OverlapAll(a, start, end) + OverlapAll(b, start, end)
  {
    if a == [] {
      assert a + b == b;
    } else {
      assert (a + b)[1..] == a[1..] + b;
      Concat(a[1..], b, start, end);
    }
  }

  lemma Single(r: Region, start: nat, end: nat)
    ensures PiecesAll([r], start, end) == Pieces(r, start, end)
    ensures OverlapAll([r], start, end) == Overlap(r, start, end)
  {
    assert [r][1..] == [];
  }

  // Pieces are not cut again, and no byte of the range is left in them.
  lemma PiecesAreDone(r: Region, start: nat, end: nat)
    ensures PiecesAll(Pieces(r, start, end), start, end) == Pieces(r, start, end)
    ensures OverlapAll(Pieces(r, start, end), start, end) == 0
    ensures Touches(r, start, end) ==> Overlap(r, start, end) > 0
  {
    var p := Pieces(r, start, end);
    if |p| > 0 { Single(p[0], start, end); }
    if |p| > 1 { Single(p[1], start, end); Concat([p[0]], [p[1]], start, end); assert p == [p[0]] + [p[1]]; }
  }

  lemma {:induction false} Untouched(v: seq<Region>, start: nat, end: nat)
    requires forall k :: 0 <= k < |v| ==> !Touches(v[k], start, end)
    ensures PiecesAll(v, start, end) == v
  {
    if v != [] {
      Untouched(v[1..], start, end);
    }
  }

  // Removing the range from either list leaves the same regions.
  ghost predicate SameLeft(v: seq<Region>, w: seq<Region>, start: nat, end: nat) {
    multiset(PiecesAll(v, start, end)) == multiset(PiecesAll(w, start, end))
  }

  // Putting the pieces of one region where it was, or at the front, settles that region.
  lemma CutOne(a: seq<Region>, r: Region, b: seq<Region>, front: seq<Region>, rest: seq<Region>, start: nat, end: nat)
    requires Touches(r, start, end) && front + rest == Pieces(r, start, end)
    ensures var after := front + a + rest + b;
      && SameLeft(after, a + [r] + b, start, end)
      && OverlapAll(after, start, end) < OverlapAll(a + [r] + b, start, end)
  {
    PiecesAreDone(r, start, end);
    Single(r, start, end);
    Concat(a + [r], b, start, end);
    Concat(a, [r], start, end);
    Concat(front + a + rest, b, start, end);
    Concat(front + a, rest, start, end);
    Concat(front, a, start, end);
    Concat(front, rest, start, end);
  }

  // The list after one pass on region i: pieces stay in its place, a new one goes to the head.
  function AfterCut(v: seq<Region>, i: nat, start: nat, end: nat): seq<Region>
    requires i < |v|
  {
    var p := Pieces(v[i], start, end);
    if |p| == 0 then v[..i] + v[i + 1..]
    else if |p| == 2 then [p[0]] + v[i := p[1]]
    else v[i := p[0]]
  }

  lemma InPlaceOf(v: seq<Region>, i: nat, r: Region)
    requires i < |v|
    ensures v[i := r] == v[..i] + [r] + v[i + 1..]
  {
  }

  lemma Regroup(front: seq<Region>, a: seq<Region>, rest: seq<Region>, b: seq<Region>)
    ensures front + (a + rest + b) == front + a + rest + b
    ensures [] + a + rest + b == a + rest + b && a + [] + b == a + b
  {
  }

  lemma CutIsOnePass(v: seq<Region>, i: nat, start: nat, end: nat)
    requires i < |v|
    ensures var p := Pieces(v[i], start, end);
      AfterCut(v, i, start, end) ==
        if |p| == 2 then [p[0]] + v[..i] + [p[1]] + v[i + 1..] else [] + v[..i] + p + v[i + 1..]
  {
    var p := Pieces(v[i], start, end);
    if |p| == 2 {
      InPlaceOf(v, i, p[1]);
      Regroup([p[0]], v[..i], [p[1]], v[i + 1..]);
    } else {
      Regroup([], v[..i], p, v[i + 1..]);
      if |p| == 1 { InPlaceOf(v, i, p[0]); }
    }
  }

  lemma CutSettles(v: seq<Region>, i: nat, start: nat, end: nat)
    requires i < |v| && Touches(v[i], start, end)
    ensures SameLeft(AfterCut(v, i, start, end), v, start, end)
    ensures OverlapAll(AfterCut(v, i, start, end), start, end) < OverlapAll(v, start, end)
  {
    var p := Pieces(v[i], start, end);
    var front, rest := if |p| == 2 then [p[0]] else [], if |p| == 2 then [p[1]] else p;
    CutIsOnePass(v, i, start, end);
    var whole := v[..i] + [v[i]] + v[i + 1..];
    assert v == whole;
    CutOne(v[..i], v[i], v[i + 1..], front, rest, start, end);
  }

  // ----- address by address -----

  predicate Maps(r: Region, a: nat, attr: Option<Attributes>) {
    Holds(r, a) && (attr.Some? ==> r.attr == attr.value)
  }

  // How many regions map address a, with the given attributes or with any.
  function CountAt(v: seq<Region>, a: nat, attr: Option<Attributes>): nat {
    if v == [] then 0 else (if Maps(v[0], a, attr) then 1 else 0) + CountAt(v[1..], a, attr)
  }

  lemma {:induction false} CountConcat(v: seq<Region>, w: seq<Region>, a: nat, attr: Option<Attributes>)
    ensures CountAt(v + w, a, attr) == CountAt(v, a, attr) + CountAt(w, a, attr)
  {
    if v == [] {
      assert v + w == w;
    } else {
      assert (v + w)[1..] == v[1..] + w;
      CountConcat(v[1..], w, a, attr);
    }
  }

  lemma TakeOut(w: seq<Region>, i: nat)
    requires i < |w|
    ensures multiset(w) == multiset{w[i]} + multiset(w[..i] + w[i + 1..])
  {
    assert w == w[..i] + [w[i]] + w[i + 1..];
  }

  lemma CountTakeOut(w: seq<Region>, i: nat, a: nat, attr: Option<Attributes>)
    requires i < |w|
    ensures CountAt(w, a, attr) == (if Maps(w[i], a, attr) then 1 else 0) + CountAt(w[..i] + w[i + 1..], a, attr)
  {
    CountConcat(w[..i], w[i + 1..], a, attr);
    CountConcat(w[..i], [w[i]] + w[i + 1..], a, attr);
    assert w == w[..i] + ([w[i]] + w[i + 1..]);
  }

  lemma {:induction false} CountPermuted(v: seq<Region>, w: seq<Region>, a: nat, attr: Option<Attributes>)
    requires multiset(v) == multiset(w)
    ensures CountAt(v, a, attr) == CountAt(w, a, attr)
  {
    if v == [] {
      assert |multiset(w)| == 0;
    } else {
      assert v[0] in multiset(w);
      var i :| 0 <= i < |w| && w[i] == v[0];
      TakeOut(v, 0);
      TakeOut(w, i);
      assert v[..0] + v[1..] == v[1..];
      assert multiset(v) - multiset{v[0]} == multiset(v[1..]);
      assert multiset(w) - multiset{v[0]} == multiset(w[..i] + w[i + 1..]);
      CountPermuted(v[1..], w[..i] + w[i + 1..], a, attr);
      CountTakeOut(w, i, a, attr);
    }
  }

  lemma {:induction false} CountPieces(v: seq<Region>, start: nat, end: nat, a: nat, attr: Option<Attributes>)
    ensures CountAt(PiecesAll(v, start, end), a, attr) == if start <= a < end then 0 else CountAt(v, a, attr)
  {
    if v != [] {
      CountPieces(v[1..], start, end, a, attr);
      CountConcat(Pieces(v[0], start, end), PiecesAll(v[1..], start, end), a, attr);
    }
  }

  /** Unmapping [start, end) leaves every other address as it was, mapped as often and with the same
      permissions, sharing, file and offset; in the range nothing is left. */
  lemma RemovedExactly(v: seq<Region>, w: seq<Region>, start: nat, end: nat, a: nat, attr: Option<Attributes>)
    requires multiset(w) == multiset(PiecesAll(v, start, end))
    ensures CountAt(w, a, attr) == if start <= a < end then 0 else CountAt(v, a, attr)
  {
    CountPermuted(w, PiecesAll(v, start, end), a, attr);
    CountPieces(v, start, end, a, attr);
  }

  ghost predicate Disjoint(v: seq<Region>) {
    forall i, j, a :: 0 <= i < j < |v| ==> !(Holds(v[i], a) && Holds(v[j], a))
  }

  lemma {:induction false} CountedWhenHeld(v: seq<Region>, a: nat, i: nat)
    requires i < |v| && Holds(v[i], a)
    ensures CountAt(v, a, None) >= 1
  {
    if i > 0 { CountedWhenHeld(v[1..], a, i - 1); }
  }

  lemma {:induction false} DisjointCountsOnce(v: seq<Region>, a: nat)
    requires Disjoint(v)
    ensures CountAt(v, a, None) <= 1
  {
    if v != [] {
      DisjointCountsOnce(v[1..], a);
      if Holds(v[0], a) && CountAt(v[1..], a, None) > 0 {
        var i := HeldWhenCounted(v[1..], a);
      }
    }
  }

  lemma {:induction false} HeldWhenCounted(v: seq<Region>, a: nat) returns (i: nat)
    requires CountAt(v, a, None) > 0
    ensures i < |v| && Holds(v[i], a)
  {
    if Holds(v[0], a) { i := 0; } else { i := HeldWhenCounted(v[1..], a); i := i + 1; }
  }

  lemma {:induction false} TwiceHeld(v: seq<Region>, a: nat, i: nat, j: nat)
    requires i < j < |v| && Holds(v[i], a) && Holds(v[j], a)
    ensures CountAt(v, a, None) >= 2
  {
    if i == 0 { CountedWhenHeld(v[1..], a, j - 1); } else { TwiceHeld(v[1..], a, i - 1, j - 1); }
  }

  /** Regions that were disjoint still are. */
  lemma DisjointKept(v: seq<Region>, w: seq<Region>, start: nat, end: nat)
    requires Disjoint(v) && multiset(w) == multiset(PiecesAll(v, start, end))
    ensures Disjoint(w)
  {
    forall i, j, a: nat | 0 <= i < j < |w| ensures !(Holds(w[i], a) && Holds(w[j], a)) {
      RemovedExactly(v, w, start, end, a, None);
      DisjointCountsOnce(v, a);
      if Holds(w[i], a) && Holds(w[j], a) { TwiceHeld(w, a, i, j); }
    }
  }

  // ----- what the code does not keep: the place in the file -----

  // The byte of the file that address a of a region shows (mmap_list_process).
  function FilePosition(r: Region, a: nat): int { r.attr.offset + a - r.start }

  /** The offset is not moved along with the start, so the survivors of a file mapping show the bytes
      they showed before exactly when the region does not go on past the end of the range. */
  lemma FilePositionsKeptIff(r: Region, start: nat, end: nat)
    ensures (forall p, a: nat :: p in Pieces(r, start, end) && Holds(p, a) ==> FilePosition(p, a) == FilePosition(r, a))
      <==> !(Touches(r, start, end) && r.end > end)
  {
    if Touches(r, start, end) && r.end > end {
      var p := r.(start := end);
      assert p in Pieces(r, start, end) && Holds(p, end);
    }
  }

  /** The inputs on which it fails: any range that takes the front of a region and leaves a
      rest, which then shows the bytes from the start of the mapping. */
  lemma FrontRemovedShiftsFile(r: Region, start: nat, end: nat)
    requires start <= r.start < end < r.end
    ensures Pieces(r, start, end) == [r.(start := end)]
    ensures FilePosition(r.(start := end), end) == FilePosition(r, r.start) == FilePosition(r, end) - (end - r.start)
  {
  }
}
