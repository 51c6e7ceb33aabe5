/**
  Unmapping, on the list itself (NeilOS/kernel/memory/mmap_list.c): regions are cut,
  linked and unlinked in place until nothing in the range is left.
*/
module MmapList {
  import opened Wrappers
  import opened MmapRegions

  class MmapRegion {
    var start: nat
    var end: nat
    const attr: Attributes

    constructor (start: nat, end: nat, attr: Attributes)
      ensures this.start == start && this.end == end && this.attr == attr
    {
      this.start, this.end, this.attr := start, end, attr;
    }

    ghost function Value(): Region
      reads this
    {
      Region(start, end, attr)
    }
  }

  class MmapList {
    var list: seq<MmapRegion>
    ghost var Repr: set<MmapRegion>

    ghost predicate Valid()
      reads this
    {
      && (forall i :: 0 <= i < |list| ==> list[i] in Repr)
      && forall i, j :: 0 <= i < j < |list| ==> list[i] != list[j]
    }

    ghost function Values(): (v: seq<Region>)
      reads this, list
      ensures |v| == |list| && forall i :: 0 <= i < |v| ==> v[i] == list[i].Value()
    {
      seq(|list|, i requires 0 <= i < |list| reads this, list => list[i].Value())
    }

    constructor ()
      ensures Valid() && list == []
    {
      list, Repr := [], {};
    }

    // mmap_list_link: at the head
    method Link(t: MmapRegion)
      requires Valid() && t !in list
      modifies this
      ensures Valid() && Repr == old(Repr) + {t} && list == [t] + old(list) && Values() == [t.Value()] + old(Values())
    {
      list, Repr := [t] + list, Repr + {t};
    }

    // mmap_list_dealloc: the i-th node is unlinked
    method Unlink(i: nat)
      requires Valid() && i < |list|
      modifies this`list
      ensures Valid() && list == old(list)[..i] + old(list)[i + 1..]
      ensures Values() == old(Values())[..i] + old(Values())[i + 1..]
    {
      list := list[..i] + list[i + 1..];
    }

    // mmap_list_region_exists: the first region with a byte in the range
    method RegionExists(start: nat, end: nat) returns (r: Option<nat>)
      ensures r.Some? ==> r.value < |list| && Touches(Values()[r.value], start, end)
      ensures r.Some? ==> forall k :: 0 <= k < r.value ==> !Touches(Values()[k], start, end)
      ensures r.None? ==> forall k :: 0 <= k < |list| ==> !Touches(Values()[k], start, end)
    {
      for i := 0 to |list|
        invariant forall k :: 0 <= k < i ==> !Touches(Values()[k], start, end)
      {
        var s := if start < list[i].start then list[i].start else start;
        var e := if end < list[i].end then end else list[i].end;
        if s < e {
          return Some(i);
        }
      }
      return None;
    }

    // t->start and t->end of the i-th region
    method SetBounds(i: nat, start: nat, end: nat)
      requires Valid() && i < |list|
      modifies list[i]
      ensures Valid() && Values() == old(Values())[i := Region(start, end, old(Values())[i].attr)]
    {
      list[i].start, list[i].end := start, end;
    }

    // One pass of the loop: the i-th region gives up its bytes in the range.
    method Cut(i: nat, start: nat, end: nat)
      requires Valid() && i < |list| && Touches(Values()[i], start, end)
      modifies this, Repr
      ensures Valid() && fresh(Repr - old(Repr))
      ensures Values() == AfterCut(old(Values()), i, start, end)
    {
      var t := list[i];
      if start <= t.start && end >= t.end {
        // all encompassing
        Unlink(i);
      } else if t.start < start && t.end > end {
        // split in the middle
        var copy := new MmapRegion(t.start, start, t.attr);
        SetBounds(i, end, t.end);
        Link(copy);
      } else if start <= t.start {
        SetBounds(i, end, t.end);
      } else {
        SetBounds(i, t.start, start);
      }
    }

    // mmap_list_region_remove
    method RegionRemove(start: nat, end: nat)
      requires Valid()
      modifies this, Repr
      ensures Valid() && fresh(Repr - old(Repr))
      ensures multiset(Values()) == multiset(PiecesAll(old(Values()), start, end))
    {
      ghost var was := Values();
      ghost var v := was;
      var t: Option<nat> := RegionExists(start, end);
      while t.Some?
        invariant Valid() && fresh(Repr - old(Repr))
        invariant Values() == v && SameLeft(v, was, start, end)
        invariant t.Some? ==> t.value < |v| && Touches(v[t.value], start, end)
        invariant t.None? ==> forall k :: 0 <= k < |v| ==> !Touches(v[k], start, end)
        decreases OverlapAll(v, start, end), t.Some?
      {
        CutSettles(v, t.value, start, end);
        Cut(t.value, start, end);
        v := Values();
        t := RegionExists(start, end);
      }
      Untouched(v, start, end);
    }
  }
}
