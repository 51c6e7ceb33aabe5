/**
  What copy-on-write promises, over every run: no task can tell it from a fork that
  copies every byte, and every frame taken for a copy keeps exactly one owner.
*/
module CowProofs {
  import opened Wrappers
  import opened CowSpec

  ghost predicate At(s: State, e: nat, p: nat) {
    e < |s.entries| && p < PAGES
  }

  ghost function F(s: State, e: nat, p: nat): Frame
    requires At(s, e, p)
  {
    s.entries[e].FrameOf(p)
  }

  // ----- the invariant -----

  // Page tables, sharing lists and the copy-on-write flag come together, on writable entries.
  ghost predicate Flags(x: Entry) {
    && (x.copyOnWrite <==> x.table.Some?)
    && (x.linked.Some? <==> x.table.Some?)
    && (x.table.Some? ==> x.perms.write && x.table.value.cow == AllBits())
  }

  // An entry is on its sharing list, and a list holds only its own entries.
  ghost predicate Listed(s: State)
    requires Shaped(s)
  {
    && (forall e :: 0 <= e < |s.entries| ==> Flags(s.entries[e]))
    && (forall e :: 0 <= e < |s.entries| && s.entries[e].linked.Some? ==> e in Members(s, e))
    && (forall k, m :: 0 <= k < |s.lists| && m in s.lists[k] ==>
          m < |s.entries| && s.entries[m].linked == Some(k))
  }

  // Entries that map the same frame do so at the same page, on the same list, and none may store.
  ghost predicate Isolated(s: State) {
    forall e: nat, p: nat, d: nat, q: nat :: At(s, e, p) && At(s, d, q) && F(s, e, p) == F(s, d, q) ==>
      && p == q
      && s.entries[e].linked == s.entries[d].linked
      && (e != d ==> !s.entries[e].Writable(p))
  }

  // Frame f lies in the 4 MB block that entry o owns.
  ghost predicate HasBlock(s: State, o: nat, f: Frame) {
    o < |s.entries| && s.entries[o].owner && s.entries[o].base <= f < s.entries[o].base + PAGES
  }

  ghost predicate InBlock(s: State, f: Frame) {
    exists o :: HasBlock(s, o, f)
  }

  // Entry e owns frame f, and maps it at page p.
  ghost predicate OwnsFrame(s: State, e: nat, p: nat, f: Frame) {
    At(s, e, p) && s.entries[e].Owns(p) && F(s, e, p) == f
  }

  ghost predicate Conserved(s: State) {
    && (forall o, f :: HasBlock(s, o, f) ==> f in s.mem)
    && (forall o, o', f :: HasBlock(s, o, f) && HasBlock(s, o', f) ==> o == o')
    && (forall e, p, f :: OwnsFrame(s, e, p, f) ==> !InBlock(s, f))
    && (forall e, p, d, q, f :: OwnsFrame(s, e, p, f) && OwnsFrame(s, d, q, f) ==> e == d)
  }

  // Every allocated frame has an owner that will give it back.
  ghost predicate NoLeak(s: State) {
    forall f :: f in s.mem ==> InBlock(s, f) || exists e, p :: OwnsFrame(s, e, p, f)
  }

  ghost predicate Inv(s: State) {
    Shaped(s) && Listed(s) && Isolated(s) && Conserved(s)
  }

  // ----- what a task reads, and eager copying -----

  type View = seq<seq<Bytes>>

  ghost function View1(s: State, e: nat): (v: seq<Bytes>)
    requires Shaped(s) && e < |s.entries|
    ensures |v| == PAGES && forall p: nat :: p < PAGES ==> v[p] == s.mem[F(s, e, p)]
  {
    seq(PAGES, (p: nat) requires p < PAGES => s.mem[F(s, e, p)])
  }

  ghost function Views(s: State): (v: View)
    requires Shaped(s)
    ensures |v| == |s.entries| && forall e: nat :: e < |v| ==> v[e] == View1(s, e)
  {
    seq(|s.entries|, (e: nat) requires e < |s.entries| => View1(s, e))
  }

  ghost predicate Fresh(s: State, base: Frame) {
    forall f :: base <= f < base + PAGES ==> f !in s.mem
  }

  // ----- a new entry -----

  // The old entries keep their frames; the new one has the block to itself.
  ghost predicate Added(s: State, base: Frame, contents: seq<Bytes>, t: State)
    requires |contents| == PAGES
  {
    var n := |s.entries|;
    && |t.entries| == n + 1 && t.lists == s.lists
    && (forall e: nat :: e < n ==> t.entries[e] == s.entries[e])
    && (t.entries[n].table.None? && t.entries[n].linked.None? && !t.entries[n].copyOnWrite)
    && (forall e: nat, p: nat :: At(t, e, p) ==>
      && F(t, e, p) == (if e < n then F(s, e, p) else base + p)
      && F(t, e, p) in t.mem)
  }

  lemma AddIsolated(s: State, base: Frame, contents: seq<Bytes>, t: State)
    requires Shaped(s) && Isolated(s) && |contents| == PAGES && Fresh(s, base) && Added(s, base, contents, t)
    ensures Isolated(t)
  {
    forall e: nat, p: nat, d: nat, q: nat | At(t, e, p) && At(t, d, q) && F(t, e, p) == F(t, d, q)
      ensures p == q && t.entries[e].linked == t.entries[d].linked && (e != d ==> !t.entries[e].Writable(p))
    {
      var n := |s.entries|;
      if e < n { assert F(s, e, p) in s.mem; }
      if d < n { assert F(s, d, q) in s.mem; }
    }
  }

  lemma AddListed(s: State, base: Frame, contents: seq<Bytes>, t: State)
    requires Shaped(s) && Listed(s) && |contents| == PAGES && Added(s, base, contents, t)
    ensures Shaped(t) && Listed(t)
  {
    forall e, p | 0 <= e < |t.entries| && 0 <= p < PAGES ensures t.entries[e].FrameOf(p) in t.mem {
      assert At(t, e, p) && F(t, e, p) in t.mem;
    }
    forall k | 0 <= k < |t.lists| ensures Linkable(t.entries, t.lists[k]) {
      assert Linkable(s.entries, s.lists[k]);
    }
    assert Shaped(t);
    forall e | 0 <= e < |t.entries| && t.entries[e].linked.Some? ensures e in Members(t, e) {
      assert e in Members(s, e);
    }
  }

  lemma AddKeeps(s: State, perms: Permissions, base: Frame, contents: seq<Bytes>)
    requires Inv(s) && |contents| == PAGES && Fresh(s, base)
    ensures Inv(Add(s, perms, base, contents)) && (NoLeak(s) ==> NoLeak(Add(s, perms, base, contents)))
    ensures Views(Add(s, perms, base, contents)) == Views(s) + [contents]
  {
    var t := Add(s, perms, base, contents);
    AddListed(s, base, contents, t);
    AddIsolated(s, base, contents, t);
    AddConserves(s, perms, base, contents);
    forall e: nat | e < |t.entries| ensures View1(t, e) == (Views(s) + [contents])[e] {
      forall p: nat | p < PAGES ensures View1(t, e)[p] == (Views(s) + [contents])[e][p] {
        assert F(t, e, p) in t.mem;
      }
    }
  }

  lemma AddConserves(s: State, perms: Permissions, base: Frame, contents: seq<Bytes>)
    requires Inv(s) && |contents| == PAGES && Fresh(s, base)
    ensures Conserved(Add(s, perms, base, contents))
    ensures NoLeak(s) ==> NoLeak(Add(s, perms, base, contents))
  {
    var t := Add(s, perms, base, contents);
    var n := |s.entries|;
    forall o: nat, f: Frame ensures HasBlock(t, o, f) <==> HasBlock(s, o, f) || (o == n && base <= f < base + PAGES) {}
    forall e: nat, p: nat, f: Frame ensures OwnsFrame(t, e, p, f) <==> OwnsFrame(s, e, p, f) {}
    forall f | NoLeak(s) && f in t.mem ensures InBlock(t, f) || exists e, p :: OwnsFrame(t, e, p, f) {
      if base <= f < base + PAGES { assert HasBlock(t, n, f); }
    }
  }

  // ----- a fork -----

  // Neither side of a fork sees a different frame, and neither may store to it any more.
  ghost predicate Forked(s: State, e: nat, t: State)
    requires e < |s.entries|
  {
    var n := |s.entries|;
    && |t.entries| == n + 1 && t.mem == s.mem
    && (forall i: nat, p: nat :: At(t, i, p) ==>
      && F(t, i, p) == F(s, if i < n then i else e, p)
      && (t.entries[i].Owns(p) <==> i < n && s.entries[i].Owns(p))
      && (t.entries[i].Writable(p) ==> i < n && i != e && s.entries[i].Writable(p)))
    && (forall i: nat :: i < n && i != e ==> t.entries[i].linked == s.entries[i].linked)
    && t.entries[e].linked == t.entries[n].linked
    && (t.entries[e].linked == s.entries[e].linked || forall p: nat :: p < PAGES ==> s.entries[e].Writable(p))
  }

  lemma ForkIsForked(s: State, e: nat)
    requires Inv(s) && e < |s.entries|
    ensures Forked(s, e, Fork(s, e))
  {
    var p := s.entries[e];
    assert Flags(p);
  }

  lemma ForkIsolatedPair(s: State, e: nat, t: State, i: nat, p: nat, d: nat, q: nat)
    requires e < |s.entries| && Isolated(s) && Forked(s, e, t)
    requires At(t, i, p) && At(t, d, q) && F(t, i, p) == F(t, d, q)
    ensures p == q && t.entries[i].linked == t.entries[d].linked && (i != d ==> !t.entries[i].Writable(p))
  {
    var n := |s.entries|;
    var i0 := if i < n then i else e;
    var d0 := if d < n then d else e;
    assert At(s, i0, p) && At(s, d0, q);
    assert F(s, i0, p) == F(s, d0, q);
  }

  lemma ForkIsolated(s: State, e: nat, t: State)
    requires e < |s.entries| && Isolated(s) && Forked(s, e, t)
    ensures Isolated(t)
  {
    forall i: nat, p: nat, d: nat, q: nat | At(t, i, p) && At(t, d, q) && F(t, i, p) == F(t, d, q)
      ensures p == q && t.entries[i].linked == t.entries[d].linked && (i != d ==> !t.entries[i].Writable(p))
    {
      ForkIsolatedPair(s, e, t, i, p, d, q);
    }
  }

  // A fork's list holds its two sides and those that were on it.
  lemma ForkMember(s: State, e: nat, j: nat, m: nat)
    requires Inv(s) && e < |s.entries| && s.entries[e].perms.write
    requires j < |Fork(s, e).lists| && m in Fork(s, e).lists[j]
    ensures var t := Fork(s, e);
      m < |t.entries| && t.entries[m].table.Some? && t.entries[m].linked == Some(j)
  {
    var n, k, p := |s.entries|, ForkList(s, e), s.entries[e];
    assert Flags(p);
    assert Fork(s, e).lists[k] == if p.linked.Some? then s.lists[k] + [n] else [e, n];
    assert j != k || (p.linked.Some? && m != n) ==> m in s.lists[j];
  }

  lemma ForkListed(s: State, e: nat)
    requires Inv(s) && e < |s.entries|
    ensures Shaped(Fork(s, e)) && Listed(Fork(s, e))
  {
    var t := Fork(s, e);
    var n := |s.entries|;
    var p := s.entries[e];
    assert Flags(p);
    forall i, q | 0 <= i < |t.entries| && 0 <= q < PAGES ensures t.entries[i].FrameOf(q) in t.mem {
      ForkIsForked(s, e);
      assert At(t, i, q);
      assert F(t, i, q) == F(s, if i < n then i else e, q);
    }
    if p.perms.write {
      forall j: nat, m | j < |t.lists| && m in t.lists[j]
        ensures m < |t.entries| && t.entries[m].table.Some? && t.entries[m].linked == Some(j)
      {
        ForkMember(s, e, j, m);
      }
      forall j | 0 <= j < |t.lists| ensures Linkable(t.entries, t.lists[j]) {}
      assert Shaped(t);
      forall i | 0 <= i < |t.entries| && t.entries[i].linked.Some? ensures i in Members(t, i) {
        assert i < n && s.entries[i].linked.Some? ==> i in Members(s, i);
      }
    } else {
      forall i | 0 <= i < |t.entries| && t.entries[i].linked.Some? ensures i in Members(t, i) {
        assert i in Members(s, i);
      }
    }
  }

  lemma ForkConserves(s: State, e: nat, t: State)
    requires e < |s.entries| && Conserved(s) && Forked(s, e, t)
    requires forall o: nat, f: Frame :: HasBlock(t, o, f) <==> HasBlock(s, o, f)
    ensures Conserved(t) && (NoLeak(s) ==> NoLeak(t))
  {
    forall i: nat, p: nat, f: Frame ensures OwnsFrame(t, i, p, f) <==> OwnsFrame(s, i, p, f) {
      if At(t, i, p) { assert F(t, i, p) == F(s, if i < |s.entries| then i else e, p); }
    }
    forall f: Frame ensures InBlock(t, f) <==> InBlock(s, f) {}
  }

  lemma ForkKeeps(s: State, e: nat)
    requires Inv(s) && e < |s.entries|
    ensures Inv(Fork(s, e)) && (NoLeak(s) ==> NoLeak(Fork(s, e)))
    ensures Views(Fork(s, e)) == Views(s) + [Views(s)[e]]
  {
    var t := Fork(s, e);
    ForkListed(s, e);
    ForkIsForked(s, e);
    ForkIsolated(s, e, t);
    ForkConserves(s, e, t);
    forall i: nat | i < |t.entries| ensures Views(t)[i] == (Views(s) + [Views(s)[e]])[i] {
      var i0 := if i < |s.entries| then i else e;
      assert forall p: nat :: p < PAGES ==> F(t, i, p) == F(s, i0, p);
      assert View1(t, i) == View1(s, i0);
    }
  }

  // ----- a store to a mapped frame -----

  lemma StoreShaped(s: State, t: State)
    requires Shaped(s) && Listed(s) && t.entries == s.entries && t.lists == s.lists && t.mem.Keys == s.mem.Keys
    ensures Shaped(t) && Listed(t)
  {
    forall e | 0 <= e < |t.entries| && t.entries[e].linked.Some? ensures e in Members(t, e) {
      assert e in Members(s, e);
    }
  }

  lemma StoreKeeps(s: State, e: nat, p: nat, off: nat, b: bv8)
    requires Inv(s) && At(s, e, p) && off < FRAME_SIZE && s.entries[e].Writable(p)
    ensures Inv(Store(s, e, p, off, b)) && (NoLeak(s) ==> NoLeak(Store(s, e, p, off, b)))
    ensures Views(Store(s, e, p, off, b)) == Poke(Views(s), e, p, off, b)
  {
    var t := Store(s, e, p, off, b);
    StoreShaped(s, t);
    assert Isolated(t) by {
      assert forall i: nat, q: nat :: At(t, i, q) ==> F(t, i, q) == F(s, i, q);
    }
    StoreConserves(s, e, p, off, b);
    forall i: nat | i < |t.entries| ensures View1(t, i) == Poke(Views(s), e, p, off, b)[i] {
      forall q: nat | q < PAGES ensures View1(t, i)[q] == Poke(Views(s), e, p, off, b)[i][q] {
        if F(s, i, q) == F(s, e, p) { assert i == e && q == p; }
      }
    }
  }

  lemma StoreConserves(s: State, e: nat, p: nat, off: nat, b: bv8)
    requires Inv(s) && At(s, e, p) && off < FRAME_SIZE
    ensures Conserved(Store(s, e, p, off, b)) && (NoLeak(s) ==> NoLeak(Store(s, e, p, off, b)))
  {
    var t := Store(s, e, p, off, b);
    assert t.mem.Keys == s.mem.Keys;
    forall o: nat, f: Frame ensures HasBlock(t, o, f) <==> HasBlock(s, o, f) {}
    forall f: Frame ensures InBlock(t, f) <==> InBlock(s, f) {}
    forall i: nat, q: nat, f: Frame ensures OwnsFrame(t, i, q, f) <==> OwnsFrame(s, i, q, f) {}
  }

  // Storing one byte in the private copy of one entry.
  function Poke(v: View, e: nat, p: nat, off: nat, b: bv8): View
    requires e < |v| && p < |v[e]| && off < FRAME_SIZE
  {
    v[e := v[e][p := v[e][p][off := b]]]
  }

  // ----- a write copy -----

  ghost predicate Copyable(s: State, e: nat, p: nat, copy: Frame) {
    && Inv(s) && At(s, e, p) && s.entries[e].table.Some? && !s.entries[e].Writable(p)
    && copy !in s.mem
  }

  ghost function Heir(s: State, e: nat, p: nat): Option<nat>
    requires Inv(s) && At(s, e, p)
  {
    if s.entries[e].Owns(p) then FirstSharer(s.entries, Members(s, e), e, p, F(s, e, p)) else None
  }

  // The frame was mapped by this entry alone: the sharing list holds every other mapper.
  lemma NoSharerLeft(s: State, e: nat, p: nat, i: nat, q: nat)
    requires Shaped(s) && Listed(s) && Isolated(s) && At(s, e, p) && At(s, i, q) && s.entries[e].table.Some?
    requires FirstSharer(s.entries, Members(s, e), e, p, F(s, e, p)).None?
    requires F(s, i, q) == F(s, e, p)
    ensures i == e && q == p
  {
    assert q == p && s.entries[i].linked == s.entries[e].linked;
    assert Flags(s.entries[e]);
    assert i in Members(s, i) && Members(s, i) == Members(s, e);
  }

  // What a write copy does to frames, rights, owners and memory.
  ghost predicate CopiedEntries(s: State, e: nat, p: nat, copy: Frame, heir: Option<nat>, t: State)
    requires At(s, e, p)
  {
    && |t.entries| == |s.entries| && t.lists == s.lists
    && (forall i: nat :: i < |s.entries| ==>
      && t.entries[i].linked == s.entries[i].linked
      && t.entries[i].base == s.entries[i].base && t.entries[i].owner == s.entries[i].owner
      && t.entries[i].perms == s.entries[i].perms
      && t.entries[i].table.Some? == s.entries[i].table.Some?
      && (Flags(s.entries[i]) ==> Flags(t.entries[i])))
    && (forall i: nat, q: nat :: At(t, i, q) ==>
      && F(t, i, q) == (if i == e && q == p then copy else F(s, i, q))
      && (t.entries[i].Writable(q) <==> (i == e && q == p) || s.entries[i].Writable(q))
      && (t.entries[i].Owns(q) <==> (i == e && q == p) || s.entries[i].Owns(q) || (heir == Some(i) && q == p)))
  }

  ghost predicate CopiedMem(s: State, e: nat, p: nat, copy: Frame, heir: Option<nat>, t: State)
    requires At(s, e, p) && F(s, e, p) in s.mem
  {
    var before := F(s, e, p);
    && (forall f: Frame :: f in t.mem <==>
          f == copy || (f in s.mem && (f == before && s.entries[e].Owns(p) ==> heir.Some?)))
    && (forall f: Frame :: f in t.mem ==>
          if f == copy then t.mem[f] == s.mem[before] else f in s.mem && t.mem[f] == s.mem[f])
  }

  ghost predicate Copied(s: State, e: nat, p: nat, copy: Frame, heir: Option<nat>, t: State)
    requires At(s, e, p) && F(s, e, p) in s.mem
  {
    CopiedEntries(s, e, p, copy, heir, t) && CopiedMem(s, e, p, copy, heir, t)
  }

  lemma WriterCopied(x: Entry, p: nat, copy: Frame, q: nat)
    requires p < PAGES && q < PAGES && x.table.Some? && x.perms.write
    ensures var y := x.WithPage(p, copy).WithOwner(p);
      && y.FrameOf(q) == (if q == p then copy else x.FrameOf(q))
      && (y.Writable(q) <==> q == p || x.Writable(q))
      && (y.Owns(q) <==> q == p || x.Owns(q))
  {
  }

  lemma MovedIsCopied(s: State, e: nat, p: nat, copy: Frame, heir: Option<nat>, t: State)
    requires At(s, e, p) && s.entries[e].table.Some? && s.entries[e].perms.write
    requires heir.Some? ==> heir.value < |s.entries| && heir.value != e && s.entries[heir.value].table.Some?
    requires |t.entries| == |s.entries| && t.lists == s.lists
    requires t.entries[e] == s.entries[e].WithPage(p, copy).WithOwner(p)
    requires forall i: nat :: i < |s.entries| && i != e ==>
      t.entries[i] == if heir == Some(i) then s.entries[i].WithOwner(p) else s.entries[i]
    ensures CopiedEntries(s, e, p, copy, heir, t)
  {
    forall i: nat, q: nat | At(t, i, q)
      ensures F(t, i, q) == (if i == e && q == p then copy else F(s, i, q))
      ensures t.entries[i].Writable(q) <==> (i == e && q == p) || s.entries[i].Writable(q)
      ensures t.entries[i].Owns(q) <==> (i == e && q == p) || s.entries[i].Owns(q) || (heir == Some(i) && q == p)
    {
      if i == e { WriterCopied(s.entries[e], p, copy, q); }
    }
  }

  lemma CopyIsCopied(s: State, e: nat, p: nat, copy: Frame)
    requires Copyable(s, e, p, copy)
    ensures Copied(s, e, p, copy, Heir(s, e, p), CopyOnWrite(s, e, p, copy))
  {
    assert Flags(s.entries[e]);
    var heir := Heir(s, e, p);
    assert heir.Some? ==> heir.value < |s.entries| && s.entries[heir.value].table.Some? by {
      assert Linkable(s.entries, Members(s, e));
    }
    MovedIsCopied(s, e, p, copy, heir, CopyOnWrite(s, e, p, copy));
  }

  lemma CopyIsolatedPair(s: State, e: nat, p: nat, copy: Frame, heir: Option<nat>, t: State,
                         i: nat, q: nat, d: nat, r: nat)
    requires Copyable(s, e, p, copy) && Copied(s, e, p, copy, heir, t)
    requires At(t, i, q) && At(t, d, r) && F(t, i, q) == F(t, d, r)
    ensures q == r && t.entries[i].linked == t.entries[d].linked && (i != d ==> !t.entries[i].Writable(q))
  {
    assert F(s, i, q) in s.mem && F(s, d, r) in s.mem;
  }

  lemma CopyIsolated(s: State, e: nat, p: nat, copy: Frame, heir: Option<nat>, t: State)
    requires Copyable(s, e, p, copy) && Copied(s, e, p, copy, heir, t)
    ensures Isolated(t)
  {
    forall i: nat, q: nat, d: nat, r: nat | At(t, i, q) && At(t, d, r) && F(t, i, q) == F(t, d, r)
      ensures q == r && t.entries[i].linked == t.entries[d].linked && (i != d ==> !t.entries[i].Writable(q))
    {
      CopyIsolatedPair(s, e, p, copy, heir, t, i, q, d, r);
    }
  }

  // Every frame still mapped is still allocated.
  lemma CopyMapped(s: State, e: nat, p: nat, copy: Frame, t: State, i: nat, q: nat)
    requires Copyable(s, e, p, copy) && Copied(s, e, p, copy, Heir(s, e, p), t) && At(t, i, q)
    ensures F(t, i, q) in t.mem
    ensures t.mem[F(t, i, q)] == s.mem[F(s, i, q)]
  {
    if F(s, i, q) == F(s, e, p) && s.entries[e].Owns(p) && Heir(s, e, p).None? {
      NoSharerLeft(s, e, p, i, q);
    }
  }

  lemma CopyListed(s: State, e: nat, p: nat, copy: Frame, t: State)
    requires Copyable(s, e, p, copy) && Copied(s, e, p, copy, Heir(s, e, p), t)
    ensures Shaped(t) && Listed(t)
  {
    forall i, q | 0 <= i < |t.entries| && 0 <= q < PAGES ensures t.entries[i].FrameOf(q) in t.mem {
      assert At(t, i, q);
      CopyMapped(s, e, p, copy, t, i, q);
    }
    forall k | 0 <= k < |t.lists| ensures Linkable(t.entries, t.lists[k]) {
      assert Linkable(s.entries, s.lists[k]);
    }
    assert Shaped(t);
    forall i | 0 <= i < |t.entries| && t.entries[i].linked.Some? ensures i in Members(t, i) {
      assert i in Members(s, i);
    }
  }

  lemma CopyOwners(s: State, e: nat, p: nat, copy: Frame, t: State, i: nat, q: nat, f: Frame)
    requires Copyable(s, e, p, copy) && Copied(s, e, p, copy, Heir(s, e, p), t)
    ensures OwnsFrame(t, i, q, f) <==>
      if f == copy then i == e && q == p
      else if f == F(s, e, p) && s.entries[e].Owns(p) then Heir(s, e, p) == Some(i) && q == p
      else OwnsFrame(s, i, q, f)
  {
    var heir := Heir(s, e, p);
    if At(s, i, q) {
      assert F(s, i, q) in s.mem;
      if s.entries[e].Owns(p) {
        assert OwnsFrame(s, e, p, F(s, e, p));
        assert OwnsFrame(s, i, q, F(s, e, p)) ==> i == e;
        if heir == Some(i) { assert F(s, i, p) == F(s, e, p); }
        if F(s, i, q) == F(s, e, p) { assert q == p; }
      }
    } else if heir == Some(i) {
      assert Linkable(s.entries, Members(s, e));
    }
  }

  lemma CopyConserves(s: State, e: nat, p: nat, copy: Frame, t: State)
    requires Copyable(s, e, p, copy) && Copied(s, e, p, copy, Heir(s, e, p), t)
    ensures Conserved(t) && (NoLeak(s) ==> NoLeak(t))
  {
    forall o: nat, f: Frame ensures HasBlock(t, o, f) <==> HasBlock(s, o, f) {}
    forall f: Frame ensures InBlock(t, f) <==> InBlock(s, f) {}
    forall i: nat, q: nat, f: Frame ensures OwnsFrame(t, i, q, f) <==>
      if f == copy then i == e && q == p
      else if f == F(s, e, p) && s.entries[e].Owns(p) then Heir(s, e, p) == Some(i) && q == p
      else OwnsFrame(s, i, q, f)
    {
      CopyOwners(s, e, p, copy, t, i, q, f);
    }
    if s.entries[e].Owns(p) { assert OwnsFrame(s, e, p, F(s, e, p)); }
    forall f | NoLeak(s) && f in t.mem ensures InBlock(t, f) || exists i, q :: OwnsFrame(t, i, q, f) {
      if f == copy { assert OwnsFrame(t, e, p, f); }
      else if f == F(s, e, p) && s.entries[e].Owns(p) { assert OwnsFrame(t, Heir(s, e, p).value, p, f); }
    }
    forall o, f | HasBlock(t, o, f) ensures f in t.mem {
      assert InBlock(s, f);
    }
  }

  lemma CopyKeeps(s: State, e: nat, p: nat, copy: Frame)
    requires Copyable(s, e, p, copy)
    ensures Inv(CopyOnWrite(s, e, p, copy)) && (NoLeak(s) ==> NoLeak(CopyOnWrite(s, e, p, copy)))
    ensures Views(CopyOnWrite(s, e, p, copy)) == Views(s)
    ensures CopyOnWrite(s, e, p, copy).entries[e].Writable(p)
  {
    var t := CopyOnWrite(s, e, p, copy);
    CopyIsCopied(s, e, p, copy);
    CopyListed(s, e, p, copy, t);
    CopyIsolated(s, e, p, copy, Heir(s, e, p), t);
    CopyConserves(s, e, p, copy, t);
    forall i: nat | i < |t.entries| ensures View1(t, i) == View1(s, i) {
      forall q: nat | q < PAGES ensures View1(t, i)[q] == View1(s, i)[q] {
        CopyMapped(s, e, p, copy, t, i, q);
      }
    }
    assert At(t, e, p);
  }

  // ----- runs -----

  /** A step of some task; `stored` is what the task sees of a write. */
  datatype Op =
    | AddOp(perms: Permissions, base: Frame, contents: seq<Bytes>)
    | ForkOp(e: nat)
    | WriteOp(e: nat, p: nat, off: nat, b: bv8, copy: Option<Frame>, stored: bool)

  // The operands exist, and the allocators hand out frames that are free.
  ghost predicate Enabled(s: State, op: Op) {
    match op
    case AddOp(_, base, contents) => |contents| == PAGES && Fresh(s, base)
    case ForkOp(e) => e < |s.entries|
    case WriteOp(e, p, off, _, copy, stored) =>
      Writing(s, e, p, off, copy) && stored == Allowed(s.entries[e], p, copy)
  }

  ghost function Step(s: State, op: Op): State
    requires Shaped(s) && Enabled(s, op)
  {
    match op
    case AddOp(perms, base, contents) => Add(s, perms, base, contents)
    case ForkOp(e) => Fork(s, e)
    case WriteOp(e, p, off, b, copy, _) => Write(s, e, p, off, b, copy)
  }

  // The reference: every entry has its own bytes, a fork copies them all at once.
  function EagerStep(v: View, op: Op): View {
    match op
    case AddOp(_, _, contents) => v + [contents]
    case ForkOp(e) => if e < |v| then v + [v[e]] else v
    case WriteOp(e, p, off, b, _, stored) =>
      if stored && e < |v| && p < |v[e]| && off < FRAME_SIZE then Poke(v, e, p, off, b) else v
  }

  lemma WriteKeeps(s: State, e: nat, p: nat, off: nat, b: bv8, copy: Option<Frame>)
    requires Inv(s) && Writing(s, e, p, off, copy)
    ensures Inv(Write(s, e, p, off, b, copy)) && (NoLeak(s) ==> NoLeak(Write(s, e, p, off, b, copy)))
    ensures Views(Write(s, e, p, off, b, copy)) ==
            if Allowed(s.entries[e], p, copy) then Poke(Views(s), e, p, off, b) else Views(s)
  {
    var x := s.entries[e];
    assert Flags(x);
    if x.Writable(p) {
      StoreKeeps(s, e, p, off, b);
    } else if TakesCopy(x, p, copy) {
      CopyKeeps(s, e, p, copy.value);
      StoreKeeps(CopyOnWrite(s, e, p, copy.value), e, p, off, b);
    }
  }

  // The byte entry e sees at `off` of its page p.
  ghost function Seen(s: State, e: nat, p: nat, off: nat): bv8
    requires Shaped(s) && At(s, e, p) && off < FRAME_SIZE
  {
    s.mem[F(s, e, p)][off]
  }

  // If `stored`, entry e sees b at the z-th byte of its 4 MB; all else is seen as before.
  ghost predicate OneByte(s: State, t: State, e: nat, z: nat, b: bv8, stored: bool)
    requires Shaped(s) && Shaped(t)
  {
    && |t.entries| == |s.entries|
    && (forall i: nat, p: nat, off: nat :: At(s, i, p) && off < FRAME_SIZE ==>
      Seen(t, i, p, off) == if stored && i == e && p * FRAME_SIZE + off == z then b else Seen(s, i, p, off))
  }

  lemma WriteSeen(s: State, e: nat, p: nat, off: nat, b: bv8, copy: Option<Frame>, i: nat, q: nat, o: nat)
    requires Inv(s) && Writing(s, e, p, off, copy) && At(s, i, q) && o < FRAME_SIZE
    ensures var t := Write(s, e, p, off, b, copy);
      && Shaped(t) && At(t, i, q)
      && Seen(t, i, q, o) ==
        if Allowed(s.entries[e], p, copy) && i == e && q == p && o == off then b else Seen(s, i, q, o)
  {
    WriteKeeps(s, e, p, off, b, copy);
    var t := Write(s, e, p, off, b, copy);
    assert |Views(t)| == |Views(s)|;
    assert Views(t)[i][q][o] == View1(t, i)[q][o] == Seen(t, i, q, o);
    assert Views(s)[i][q][o] == View1(s, i)[q][o] == Seen(s, i, q, o);
  }

  /** A store changes the byte at its address, as the entry stored through sees it, and no byte
      that any entry sees besides. */
  lemma WriteOneByte(s: State, e: nat, z: nat, b: bv8, copy: Option<Frame>)
    requires Inv(s) && e < |s.entries| && z < PAGES * FRAME_SIZE && (copy.Some? ==> copy.value !in s.mem)
    ensures var p := z / FRAME_SIZE;
      var t := Write(s, e, p, z % FRAME_SIZE, b, copy);
      Inv(t) && OneByte(s, t, e, z, b, Allowed(s.entries[e], p, copy))
  {
    var p, off := z / FRAME_SIZE, z % FRAME_SIZE;
    WriteKeeps(s, e, p, off, b, copy);
    forall i: nat, q: nat, o: nat | At(s, i, q) && o < FRAME_SIZE
      ensures var t := Write(s, e, p, off, b, copy);
        At(t, i, q) && Seen(t, i, q, o) ==
          if Allowed(s.entries[e], p, copy) && i == e && q * FRAME_SIZE + o == z then b else Seen(s, i, q, o)
    {
      WriteSeen(s, e, p, off, b, copy, i, q, o);
      SamePlace(z, q, o);
    }
  }

  lemma SamePlace(z: nat, q: nat, o: nat)
    requires o < FRAME_SIZE
    ensures q * FRAME_SIZE + o == z <==> q == z / FRAME_SIZE && o == z % FRAME_SIZE
  {
  }

  /** One step keeps the invariant, and reads like one step of eager copying. */
  lemma StepKeeps(s: State, op: Op)
    requires Inv(s) && Enabled(s, op)
    ensures Inv(Step(s, op)) && Views(Step(s, op)) == EagerStep(Views(s), op)
    ensures NoLeak(s) ==> NoLeak(Step(s, op))
  {
    match op
    case AddOp(perms, base, contents) => AddKeeps(s, perms, base, contents);
    case ForkOp(e) => ForkKeeps(s, e);
    case WriteOp(e, p, off, b, copy, _) => WriteKeeps(s, e, p, off, b, copy);
  }

  // Only what each step itself needs: valid pointers before it, and its operands.
  ghost predicate ValidRun(s: State, ops: seq<Op>)
    decreases |ops|
  {
    ops == [] || (Shaped(s) && Enabled(s, ops[0]) && ValidRun(Step(s, ops[0]), ops[1..]))
  }

  ghost function Run(s: State, ops: seq<Op>): State
    requires ValidRun(s, ops)
    decreases |ops|
  {
    if ops == [] then s else Run(Step(s, ops[0]), ops[1..])
  }

  function EagerRun(v: View, ops: seq<Op>): View
    decreases |ops|
  {
    if ops == [] then v else EagerRun(EagerStep(v, ops[0]), ops[1..])
  }

  lemma {:induction false} RunKeeps(s: State, ops: seq<Op>)
    requires Inv(s) && ValidRun(s, ops)
    ensures Inv(Run(s, ops)) && Views(Run(s, ops)) == EagerRun(Views(s), ops)
    ensures NoLeak(s) ==> NoLeak(Run(s, ops))
    decreases |ops|
  {
    if ops != [] {
      StepKeeps(s, ops[0]);
      RunKeeps(Step(s, ops[0]), ops[1..]);
    }
  }

  lemma EmptyInv()
    ensures Inv(EMPTY) && NoLeak(EMPTY) && Views(EMPTY) == []
  {
  }

  /** Copy-on-write is eager copying: after any run from boot every entry reads, page for
      page, the bytes it would hold had every fork copied its parent. */
  lemma CowRefinesEagerCopy(ops: seq<Op>)
    requires ValidRun(EMPTY, ops)
    ensures Inv(Run(EMPTY, ops)) && NoLeak(Run(EMPTY, ops))
    ensures Views(Run(EMPTY, ops)) == EagerRun([], ops)
  {
    EmptyInv();
    RunKeeps(EMPTY, ops);
  }

  /** A page mapped for storing is mapped by no other entry, in any reachable state. */
  lemma WritableIsPrivate(ops: seq<Op>, e: nat, p: nat, d: nat, q: nat)
    requires ValidRun(EMPTY, ops)
    requires At(Run(EMPTY, ops), e, p) && At(Run(EMPTY, ops), d, q)
    requires Run(EMPTY, ops).entries[e].Writable(p)
    requires F(Run(EMPTY, ops), e, p) == F(Run(EMPTY, ops), d, q)
    ensures e == d && p == q
  {
    CowRefinesEagerCopy(ops);
  }

  /** Frames are conserved over every run: an allocated frame is part of exactly one 4 MB
      block with an owner, or has exactly one owning entry, which maps it; and every
      mapping leads to an allocated frame. */
  lemma FramesConserved(ops: seq<Op>, f: Frame)
    requires ValidRun(EMPTY, ops)
    ensures var t := Run(EMPTY, ops);
      && (f in t.mem <==> InBlock(t, f) || exists e, p :: OwnsFrame(t, e, p, f))
      && (forall e, p :: OwnsFrame(t, e, p, f) ==> !InBlock(t, f))
      && (forall e, p, d, q :: OwnsFrame(t, e, p, f) && OwnsFrame(t, d, q, f) ==> e == d && p == q)
      && (forall o, o' :: HasBlock(t, o, f) && HasBlock(t, o', f) ==> o == o')
      && (forall e, p :: At(t, e, p) && F(t, e, p) == f ==> f in t.mem)
  {
    CowRefinesEagerCopy(ops);
    ConservedAt(Run(EMPTY, ops), f);
  }

  lemma ConservedAt(t: State, f: Frame)
    requires Inv(t) && NoLeak(t)
    ensures f in t.mem <==> InBlock(t, f) || exists e, p :: OwnsFrame(t, e, p, f)
    ensures forall e, p :: OwnsFrame(t, e, p, f) ==> !InBlock(t, f)
    ensures forall e, p, d, q :: OwnsFrame(t, e, p, f) && OwnsFrame(t, d, q, f) ==> e == d && p == q
    ensures forall o, o' :: HasBlock(t, o, f) && HasBlock(t, o', f) ==> o == o'
    ensures forall e, p :: At(t, e, p) && F(t, e, p) == f ==> f in t.mem
  {
    forall e, p, d, q | OwnsFrame(t, e, p, f) && OwnsFrame(t, d, q, f) ensures e == d && p == q {
      assert F(t, e, p) == F(t, d, q);
    }
  }

  /** A write copy frees the frame it leaves exactly when the writer owned that frame and
      no other entry of any task maps it; otherwise an owner that had it passes it on. */
  lemma FreedExactlyWhenUnshared(s: State, e: nat, p: nat, copy: Frame)
    requires Copyable(s, e, p, copy)
    ensures F(s, e, p) !in CopyOnWrite(s, e, p, copy).mem <==>
      s.entries[e].Owns(p) && !exists d, q :: At(s, d, q) && d != e && F(s, d, q) == F(s, e, p)
    ensures s.entries[e].Owns(p) && F(s, e, p) in CopyOnWrite(s, e, p, copy).mem ==>
      exists d, q :: d != e && OwnsFrame(CopyOnWrite(s, e, p, copy), d, q, F(s, e, p))
  {
    var t := CopyOnWrite(s, e, p, copy);
    var heir := Heir(s, e, p);
    CopyIsCopied(s, e, p, copy);
    if s.entries[e].Owns(p) {
      if heir.None? {
        forall d, q | At(s, d, q) && F(s, d, q) == F(s, e, p) ensures d == e { NoSharerLeft(s, e, p, d, q); }
      } else {
        assert Linkable(s.entries, Members(s, e));
        assert At(s, heir.value, p) && F(s, heir.value, p) == F(s, e, p);
        CopyOwners(s, e, p, copy, t, heir.value, p, F(s, e, p));
      }
    }
  }

  /** A store is refused only on a read-only entry, or when a copy is due and no frame is free. */
  lemma StoreRefusedOnlyWhen(s: State, e: nat, p: nat, copy: Option<Frame>)
    requires Inv(s) && At(s, e, p)
    ensures Allowed(s.entries[e], p, copy) <==> s.entries[e].perms.write && (s.entries[e].Writable(p) || copy.Some?)
  {
    assert Flags(s.entries[e]);
  }
}
