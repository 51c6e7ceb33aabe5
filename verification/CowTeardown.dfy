/**
  The end of a copy-on-write entry (page_cow_list_remove and page_list_dealloc_mem in
  NeilOS/kernel/memory/page_list.c): it leaves its sharing list, gives back the frames it owns
  and hands none of them over.  This module says exactly when that leaves the other entries
  with memory that is still theirs, and follows runs through such endings.
*/
module CowTeardown {
  import opened Wrappers
  import opened CowSpec
  import opened CowProofs

  // ----- entries of one block -----

  // Whoever maps a frame of a block does so at the frame's own page, is on the sharing list of
  // the block's owner, and has the same permissions.
  ghost predicate InPlace(s: State) {
    forall o: nat, d: nat, q: nat :: At(s, d, q) && HasBlock(s, o, F(s, d, q)) ==>
      && s.entries[d].linked == s.entries[o].linked
      && s.entries[d].perms == s.entries[o].perms
      && F(s, d, q) == s.entries[o].base + q
  }

  ghost predicate Tidy(s: State) {
    Inv(s) && InPlace(s)
  }

  lemma AddInPlace(s: State, perms: Permissions, base: Frame, contents: seq<Bytes>)
    requires Tidy(s) && |contents| == PAGES && Fresh(s, base)
    ensures InPlace(Add(s, perms, base, contents))
  {
    var t := Add(s, perms, base, contents);
    var n := |s.entries|;
    forall o: nat, d: nat, q: nat | At(t, d, q) && HasBlock(t, o, F(t, d, q))
      ensures t.entries[d].linked == t.entries[o].linked && t.entries[d].perms == t.entries[o].perms
      ensures F(t, d, q) == t.entries[o].base + q
    {
      if d < n { assert F(t, d, q) == F(s, d, q) && F(s, d, q) in s.mem; }
      if o < n { assert HasBlock(s, o, F(t, d, q)); }
    }
  }

  // A writable entry that was never forked has its block to itself.
  lemma UnforkedIsAlone(s: State, o: nat, d: nat, q: nat)
    requires Tidy(s) && At(s, d, q) && HasBlock(s, o, F(s, d, q))
    requires s.entries[o].perms.write && s.entries[o].linked.None?
    ensures d == o
  {
    assert Flags(s.entries[o]) && Flags(s.entries[d]);
    assert At(s, o, q) && F(s, o, q) == s.entries[o].base + q;
  }

  lemma ForkInPlace(s: State, e: nat)
    requires Tidy(s) && e < |s.entries|
    ensures InPlace(Fork(s, e))
  {
    var t, n := Fork(s, e), |s.entries|;
    ForkIsForked(s, e);
    assert Flags(s.entries[e]);
    forall o: nat, d: nat, q: nat | At(t, d, q) && HasBlock(t, o, F(t, d, q))
      ensures t.entries[d].linked == t.entries[o].linked && t.entries[d].perms == t.entries[o].perms
      ensures F(t, d, q) == t.entries[o].base + q
    {
      var d0 := if d < n then d else e;
      assert HasBlock(s, o, F(s, d0, q));
      if s.entries[e].perms.write && s.entries[e].linked.None? && (o == e || d0 == e) {
        UnforkedIsAlone(s, o, d0, q);
      }
    }
  }

  lemma CopyInPlace(s: State, e: nat, p: nat, copy: Frame)
    requires Tidy(s) && Copyable(s, e, p, copy)
    ensures InPlace(CopyOnWrite(s, e, p, copy))
  {
    var t := CopyOnWrite(s, e, p, copy);
    CopyIsCopied(s, e, p, copy);
    forall o: nat, d: nat, q: nat | At(t, d, q) && HasBlock(t, o, F(t, d, q))
      ensures t.entries[d].linked == t.entries[o].linked && t.entries[d].perms == t.entries[o].perms
      ensures F(t, d, q) == t.entries[o].base + q
    {
      assert HasBlock(s, o, F(t, d, q));
    }
  }

  lemma SameEntries(s: State, t: State)
    requires InPlace(s) && t.entries == s.entries
    ensures InPlace(t)
  {
    forall o: nat, d: nat, q: nat | At(t, d, q) && HasBlock(t, o, F(t, d, q))
      ensures t.entries[d].linked == t.entries[o].linked && t.entries[d].perms == t.entries[o].perms
      ensures F(t, d, q) == t.entries[o].base + q
    {
      assert HasBlock(s, o, F(s, d, q));
    }
  }

  lemma StepKeepsTidy(s: State, op: Op)
    requires Tidy(s) && Enabled(s, op)
    ensures Tidy(Step(s, op))
  {
    StepKeeps(s, op);
    match op
    case AddOp(perms, base, contents) => AddInPlace(s, perms, base, contents);
    case ForkOp(e) => ForkInPlace(s, e);
    case WriteOp(e, p, off, b, copy, _) =>
      assert Flags(s.entries[e]);
      if !s.entries[e].Writable(p) && TakesCopy(s.entries[e], p, copy) {
        CopyInPlace(s, e, p, copy.value);
        SameEntries(CopyOnWrite(s, e, p, copy.value), Step(s, op));
      } else {
        SameEntries(s, Step(s, op));
      }
  }

  // ----- giving frames back -----

  // Page p is owned and its frame is not of the entry's own block: it is freed by itself.
  ghost predicate Freed(x: Entry, p: nat) {
    p < PAGES && x.Owns(p) && !(x.base <= x.FrameOf(p) < x.base + PAGES)
  }

  // The frames page_list_dealloc_mem gives back for an entry: these, and the whole block if
  // that is its own.
  ghost predicate GivesBack(x: Entry, f: Frame) {
    || (exists p: nat :: Freed(x, p) && x.FrameOf(p) == f)
    || (x.owner && x.base <= f < x.base + PAGES)
  }

  // No mapping of another entry leads to a frame that goes with e.
  ghost predicate MappingsKept(s: State, e: nat)
    requires e < |s.entries|
  {
    forall d: nat, q: nat :: At(s, d, q) && d != e ==> !GivesBack(s.entries[e], F(s, d, q))
  }

  // No other entry of e's sharing list maps, at the same page, a frame that is freed with e.
  ghost predicate OwnedUnshared(s: State, e: nat)
    requires Shaped(s) && e < |s.entries|
  {
    forall m: nat, p: nat :: At(s, m, p) && m in Members(s, e) && m != e && Freed(s.entries[e], p) ==>
      F(s, m, p) != F(s, e, p)
  }

  // If the block is e's: no other entry of its sharing list has kept a page of it, or, when
  // nobody may write, no other entry maps this block as it is.
  ghost predicate BlockUnshared(s: State, e: nat)
    requires Shaped(s) && e < |s.entries|
  {
    s.entries[e].owner ==>
      if s.entries[e].perms.write then
        forall m: nat, p: nat :: At(s, m, p) && m in Members(s, e) && m != e ==> F(s, m, p) != s.entries[e].base + p
      else
        forall d: nat :: d < |s.entries| && d != e && s.entries[d].table.None? ==>
          s.entries[d].base != s.entries[e].base
  }

  // Another entry that maps a frame of e's block is on e's list, or maps the block as it is.
  lemma BlockSharerIsListed(s: State, e: nat, d: nat, q: nat)
    requires Tidy(s) && At(s, d, q) && e < |s.entries| && d != e && HasBlock(s, e, F(s, d, q))
    ensures F(s, d, q) == s.entries[e].base + q
    ensures if s.entries[e].perms.write then d in Members(s, e)
      else s.entries[d].table.None? && s.entries[d].base == s.entries[e].base
  {
    assert Flags(s.entries[e]) && Flags(s.entries[d]);
    if s.entries[e].perms.write {
      if s.entries[e].linked.None? { UnforkedIsAlone(s, e, d, q); }
      assert d in Members(s, d);
    }
  }

  lemma OwnedSharerIsListed(s: State, e: nat, p: nat, d: nat, q: nat)
    requires Inv(s) && At(s, e, p) && At(s, d, q) && s.entries[e].Owns(p) && F(s, d, q) == F(s, e, p)
    ensures q == p && d in Members(s, e)
  {
    assert Flags(s.entries[e]) && s.entries[d].linked == s.entries[e].linked;
    assert d in Members(s, d);
  }

  lemma KeptOnlyIfUnshared(s: State, e: nat)
    requires Tidy(s) && e < |s.entries| && MappingsKept(s, e)
    ensures OwnedUnshared(s, e) && BlockUnshared(s, e)
  {
    var x := s.entries[e];
    if x.owner && !x.perms.write {
      forall d: nat | d < |s.entries| && d != e && s.entries[d].table.None? ensures s.entries[d].base != x.base {
        assert At(s, d, 0) && F(s, d, 0) == s.entries[d].base;
      }
    }
  }

  lemma KeptIfUnshared(s: State, e: nat, d: nat, q: nat)
    requires Tidy(s) && e < |s.entries| && OwnedUnshared(s, e) && BlockUnshared(s, e)
    requires At(s, d, q) && d != e
    ensures !GivesBack(s.entries[e], F(s, d, q))
  {
    var x := s.entries[e];
    forall p: nat | Freed(x, p) ensures x.FrameOf(p) != F(s, d, q) {
      assert At(s, e, p);
      if F(s, e, p) == F(s, d, q) { OwnedSharerIsListed(s, e, p, d, q); }
    }
    if HasBlock(s, e, F(s, d, q)) { BlockSharerIsListed(s, e, d, q); }
  }

  lemma KeptIff(s: State, e: nat)
    requires Tidy(s) && e < |s.entries|
    ensures MappingsKept(s, e) <==> OwnedUnshared(s, e) && BlockUnshared(s, e)
  {
    if MappingsKept(s, e) { KeptOnlyIfUnshared(s, e); }
    if OwnedUnshared(s, e) && BlockUnshared(s, e) {
      forall d: nat, q: nat | At(s, d, q) && d != e ensures !GivesBack(s.entries[e], F(s, d, q)) {
        KeptIfUnshared(s, e, d, q);
      }
    }
  }

  // ----- an ending as a step -----

  // Entries after e move up by one in the state.
  function Before(e: nat, i: nat): nat { if i < e then i else i + 1 }

  // A sharing list without e.
  function Without(members: seq<nat>, e: nat): seq<nat> {
    if members == [] then []
    else (if members[0] == e then [] else [if members[0] < e then members[0] else members[0] - 1])
         + Without(members[1..], e)
  }

  lemma {:induction false} WithoutHolds(members: seq<nat>, e: nat, m: nat)
    ensures m in Without(members, e) <==> Before(e, m) in members
  {
    if members != [] {
      WithoutHolds(members[1..], e, m);
      assert members == [members[0]] + members[1..];
    }
  }

  ghost function End(s: State, e: nat): State
    requires e < |s.entries|
  {
    State(s.entries[..e] + s.entries[e + 1..],
          seq(|s.lists|, k requires 0 <= k < |s.lists| => Without(s.lists[k], e)),
          map f | f in s.mem && !GivesBack(s.entries[e], f) :: s.mem[f])
  }

  // All others keep what they had.
  lemma EndKeepsEntries(s: State, e: nat, i: nat)
    requires e < |s.entries| && i < |s.entries| - 1
    ensures |End(s, e).entries| == |s.entries| - 1
    ensures End(s, e).entries[i] == s.entries[Before(e, i)] && Before(e, i) < |s.entries| && Before(e, i) != e
  {
  }

  lemma EndMaps(s: State, e: nat, i: nat, p: nat)
    requires e < |s.entries| && At(End(s, e), i, p)
    ensures At(s, Before(e, i), p) && F(End(s, e), i, p) == F(s, Before(e, i), p)
  {
    EndKeepsEntries(s, e, i);
  }

  lemma EndMember(s: State, e: nat, k: nat, m: nat)
    requires Tidy(s) && e < |s.entries| && k < |End(s, e).lists| && m in End(s, e).lists[k]
    ensures var t := End(s, e);
      m < |t.entries| && t.entries[m].linked == Some(k) && t.entries[m].table.Some?
  {
    WithoutHolds(s.lists[k], e, m);
    assert Linkable(s.entries, s.lists[k]);
    EndKeepsEntries(s, e, m);
  }

  lemma EndListed(s: State, e: nat)
    requires Tidy(s) && e < |s.entries| && MappingsKept(s, e)
    ensures Shaped(End(s, e)) && Listed(End(s, e))
  {
    var t := End(s, e);
    forall i, p | 0 <= i < |t.entries| && 0 <= p < PAGES ensures t.entries[i].FrameOf(p) in t.mem {
      assert At(t, i, p);
      EndMaps(s, e, i, p);
    }
    forall k: nat, m: nat | k < |t.lists| && m in t.lists[k]
      ensures m < |t.entries| && t.entries[m].linked == Some(k) && t.entries[m].table.Some?
    {
      EndMember(s, e, k, m);
    }
    forall k: nat | k < |t.lists| ensures Linkable(t.entries, t.lists[k]) {
      forall m: nat | m in t.lists[k] ensures m < |t.entries| && t.entries[m].table.Some? { EndMember(s, e, k, m); }
    }
    forall i | 0 <= i < |t.entries| ensures Flags(t.entries[i]) && (t.entries[i].linked.Some? ==>
      t.entries[i].linked.value < |t.lists| && i in t.lists[t.entries[i].linked.value])
    {
      EndKeepsEntries(s, e, i);
      if t.entries[i].linked.Some? {
        assert Before(e, i) in Members(s, Before(e, i));
        WithoutHolds(s.lists[t.entries[i].linked.value], e, i);
      }
    }
    assert Shaped(t);
    forall i | 0 <= i < |t.entries| && t.entries[i].linked.Some? ensures i in Members(t, i) {}
  }

  lemma EndIsolated(s: State, e: nat)
    requires Tidy(s) && e < |s.entries|
    ensures Isolated(End(s, e))
  {
    var t := End(s, e);
    forall i: nat, p: nat, d: nat, q: nat | At(t, i, p) && At(t, d, q) && F(t, i, p) == F(t, d, q)
      ensures p == q && t.entries[i].linked == t.entries[d].linked && (i != d ==> !t.entries[i].Writable(p))
    {
      EndMaps(s, e, i, p);
      EndMaps(s, e, d, q);
      EndKeepsEntries(s, e, i);
      EndKeepsEntries(s, e, d);
    }
  }

  lemma EndOwners(s: State, e: nat, i: nat, p: nat, f: Frame)
    requires e < |s.entries|
    ensures HasBlock(End(s, e), i, f) <==> HasBlock(s, Before(e, i), f)
    ensures OwnsFrame(End(s, e), i, p, f) <==> OwnsFrame(s, Before(e, i), p, f)
  {
    if i < |s.entries| - 1 { EndKeepsEntries(s, e, i); }
  }

  // What goes with e belongs to nobody else.
  lemma OthersStay(s: State, e: nat, d: nat, p: nat, f: Frame)
    requires Tidy(s) && e < |s.entries| && d != e && (HasBlock(s, d, f) || OwnsFrame(s, d, p, f))
    ensures !GivesBack(s.entries[e], f)
  {
    if p0: nat :| Freed(s.entries[e], p0) && s.entries[e].FrameOf(p0) == f {
      assert OwnsFrame(s, e, p0, f);
      assert HasBlock(s, d, f) ==> InBlock(s, f);
    }
    assert HasBlock(s, e, f) ==> InBlock(s, f);
  }

  lemma EndConserves(s: State, e: nat)
    requires Tidy(s) && e < |s.entries|
    ensures Conserved(End(s, e))
  {
    var t := End(s, e);
    forall o, f | HasBlock(t, o, f) ensures f in t.mem {
      EndOwners(s, e, o, 0, f);
      OthersStay(s, e, Before(e, o), 0, f);
    }
    forall o, o', f | HasBlock(t, o, f) && HasBlock(t, o', f) ensures o == o' {
      EndOwners(s, e, o, 0, f);
      EndOwners(s, e, o', 0, f);
    }
    forall i, p, f | OwnsFrame(t, i, p, f) ensures !InBlock(t, f) {
      EndOwners(s, e, i, p, f);
      forall o ensures !HasBlock(t, o, f) { if HasBlock(t, o, f) { EndOwners(s, e, o, p, f); assert InBlock(s, f); } }
    }
    forall i, p, d, q, f | OwnsFrame(t, i, p, f) && OwnsFrame(t, d, q, f) ensures i == d {
      EndOwners(s, e, i, p, f);
      EndOwners(s, e, d, q, f);
    }
  }

  // An ending in the state as a whole: the others keep their memory and the invariant.
  lemma EndKeeps(s: State, e: nat)
    requires Tidy(s) && e < |s.entries| && OwnedUnshared(s, e) && BlockUnshared(s, e)
    ensures Tidy(End(s, e))
    ensures Views(End(s, e)) == Views(s)[..e] + Views(s)[e + 1..]
  {
    var t := End(s, e);
    KeptIff(s, e);
    EndListed(s, e);
    EndIsolated(s, e);
    EndConserves(s, e);
    forall o: nat, d: nat, q: nat | At(t, d, q) && HasBlock(t, o, F(t, d, q))
      ensures t.entries[d].linked == t.entries[o].linked && t.entries[d].perms == t.entries[o].perms
      ensures F(t, d, q) == t.entries[o].base + q
    {
      EndMaps(s, e, d, q);
      EndKeepsEntries(s, e, d);
      EndKeepsEntries(s, e, o);
      assert HasBlock(s, Before(e, o), F(s, Before(e, d), q));
    }
    forall i: nat | i < |t.entries| ensures View1(t, i) == View1(s, Before(e, i)) {
      EndKeepsEntries(s, e, i);
      forall p: nat | p < PAGES ensures View1(t, i)[p] == View1(s, Before(e, i))[p] { EndMaps(s, e, i, p); }
    }
  }

  // ----- runs with endings -----

  // Entries, forks, stores, and endings of entries.
  datatype LifeOp = Live(op: Op) | EndOp(e: nat)

  // An entry ends only when it shares nothing that goes with it.
  ghost predicate LifeEnabled(s: State, op: LifeOp)
    requires Shaped(s)
  {
    match op
    case Live(o) => Enabled(s, o)
    case EndOp(e) => e < |s.entries| && OwnedUnshared(s, e) && BlockUnshared(s, e)
  }

  ghost function LifeStep(s: State, op: LifeOp): State
    requires Shaped(s) && LifeEnabled(s, op)
  {
    match op case Live(o) => Step(s, o) case EndOp(e) => End(s, e)
  }

  ghost predicate ValidLife(s: State, ops: seq<LifeOp>)
    decreases |ops|
  {
    ops == [] || (Shaped(s) && LifeEnabled(s, ops[0]) && ValidLife(LifeStep(s, ops[0]), ops[1..]))
  }

  ghost function Life(s: State, ops: seq<LifeOp>): State
    requires ValidLife(s, ops)
    decreases |ops|
  {
    if ops == [] then s else Life(LifeStep(s, ops[0]), ops[1..])
  }

  // With a copy of its own, an entry that ends just takes its bytes away.
  function EagerLifeStep(v: View, op: LifeOp): View {
    match op
    case Live(o) => EagerStep(v, o)
    case EndOp(e) => if e < |v| then v[..e] + v[e + 1..] else v
  }

  function EagerLife(v: View, ops: seq<LifeOp>): View
    decreases |ops|
  {
    if ops == [] then v else EagerLife(EagerLifeStep(v, ops[0]), ops[1..])
  }

  lemma LifeStepKeeps(s: State, op: LifeOp)
    requires Tidy(s) && LifeEnabled(s, op)
    ensures Tidy(LifeStep(s, op)) && Views(LifeStep(s, op)) == EagerLifeStep(Views(s), op)
  {
    match op
    case Live(o) =>
      StepKeeps(s, o);
      StepKeepsTidy(s, o);
    case EndOp(e) => EndKeeps(s, e);
  }

  lemma {:induction false} LifeKeeps(s: State, ops: seq<LifeOp>)
    requires Tidy(s) && ValidLife(s, ops)
    ensures Tidy(Life(s, ops)) && Views(Life(s, ops)) == EagerLife(Views(s), ops)
    decreases |ops|
  {
    if ops != [] {
      LifeStepKeeps(s, ops[0]);
      LifeKeeps(LifeStep(s, ops[0]), ops[1..]);
    }
  }

  /** Through endings too copy-on-write is eager copying: after any run of entries, forks, stores
      and guarded endings the invariant holds, and every entry that is left reads the bytes it
      would hold had every fork copied its parent. */
  lemma LifeRefinesEagerCopy(ops: seq<LifeOp>)
    requires ValidLife(EMPTY, ops)
    ensures Tidy(Life(EMPTY, ops))
    ensures Views(Life(EMPTY, ops)) == EagerLife([], ops)
  {
    EmptyInv();
    LifeKeeps(EMPTY, ops);
  }

  /** In any state such a run reaches, ending entry e leaves every mapping of the others on frames
      that stay allocated exactly when no other entry of its sharing list still maps, at the same
      page, a frame that is freed with e or the frame of e's own block; and, of a block nobody may
      write, when no other entry maps it. */
  lemma DeallocKeepsMappingsIff(ops: seq<LifeOp>, e: nat)
    requires ValidLife(EMPTY, ops) && e < |Life(EMPTY, ops).entries|
    ensures var s := Life(EMPTY, ops);
      && Inv(s)
      && (MappingsKept(s, e) <==> OwnedUnshared(s, e) && BlockUnshared(s, e))
  {
    LifeRefinesEagerCopy(ops);
    KeptIff(Life(EMPTY, ops), e);
  }

  // ----- what an ending may leave behind -----

  // No frame the entry owns lies in the range of the block it began with.
  ghost predicate FreesAll(x: Entry) {
    forall p: nat :: p < PAGES && x.Owns(p) ==> x.FrameOf(p) < x.base || x.base + PAGES <= x.FrameOf(p)
  }

  /** After an ending every allocated frame still has an owner exactly when the entry owned no
      frame in the range of the block it began with.  (Once that block is gone, such a frame may
      be handed out again, and is then taken for a part of the block.) */
  lemma EndLeaksNothingIff(s: State, e: nat)
    requires Tidy(s) && NoLeak(s) && e < |s.entries|
    ensures NoLeak(End(s, e)) <==> FreesAll(s.entries[e])
  {
    var t := End(s, e);
    if FreesAll(s.entries[e]) {
      forall f | f in t.mem ensures InBlock(t, f) || exists i, p :: OwnsFrame(t, i, p, f) { StillOwned(s, e, f); }
    }
    if NoLeak(t) {
      forall p: nat | p < PAGES && s.entries[e].Owns(p) ensures Freed(s.entries[e], p) { OwnerFrees(s, e, p); }
    }
  }

  // The place of an entry that stays.
  function After(e: nat, o: nat): nat
    requires o != e
  {
    if o < e then o else o - 1
  }

  lemma BlockStays(s: State, e: nat, o: nat, f: Frame)
    requires e < |s.entries| && HasBlock(s, o, f) && !GivesBack(s.entries[e], f)
    ensures InBlock(End(s, e), f)
  {
    assert o != e;
    EndOwners(s, e, After(e, o), 0, f);
  }

  lemma OwnerStays(s: State, e: nat, o: nat, p: nat, f: Frame)
    requires e < |s.entries| && FreesAll(s.entries[e]) && OwnsFrame(s, o, p, f) && !GivesBack(s.entries[e], f)
    ensures o != e && OwnsFrame(End(s, e), After(e, o), p, f)
  {
    assert s.entries[o].Owns(p) && s.entries[o].FrameOf(p) == f;
    EndOwners(s, e, After(e, o), p, f);
  }

  lemma StillOwned(s: State, e: nat, f: Frame)
    requires NoLeak(s) && e < |s.entries| && FreesAll(s.entries[e]) && f in s.mem && !GivesBack(s.entries[e], f)
    ensures InBlock(End(s, e), f) || exists i, p :: OwnsFrame(End(s, e), i, p, f)
  {
    if InBlock(s, f) {
      var o :| HasBlock(s, o, f);
      BlockStays(s, e, o, f);
    } else {
      var o, p :| OwnsFrame(s, o, p, f);
      OwnerStays(s, e, o, p, f);
    }
  }

  lemma OwnerFrees(s: State, e: nat, p: nat)
    requires Tidy(s) && At(s, e, p) && NoLeak(End(s, e)) && s.entries[e].Owns(p)
    ensures Freed(s.entries[e], p)
  {
    var f := F(s, e, p);
    assert OwnsFrame(s, e, p, f);
    if f in End(s, e).mem {
      if o: nat :| HasBlock(End(s, e), o, f) {
        EndOwners(s, e, o, p, f);
        assert InBlock(s, f);
      } else {
        var i: nat, q: nat :| OwnsFrame(End(s, e), i, q, f);
        EndOwners(s, e, i, q, f);
      }
    } else {
      assert HasBlock(s, e, f) ==> InBlock(s, f);
      var q: nat :| Freed(s.entries[e], q) && s.entries[e].FrameOf(q) == f;
      assert At(s, e, q);
    }
  }

  /** One fork is enough to break it: a parent that ends first gives back the block its child
      still maps. */
  lemma ParentEndsFirst(perms: Permissions, base: Frame, contents: seq<Bytes>, q: nat)
    requires |contents| == PAGES && q < PAGES
    ensures var ops := [AddOp(perms, base, contents), ForkOp(0)];
      && ValidRun(EMPTY, ops)
      && At(Run(EMPTY, ops), 1, q)
      && GivesBack(Run(EMPTY, ops).entries[0], F(Run(EMPTY, ops), 1, q))
  {
    var s := Add(EMPTY, perms, base, contents);
    EmptyInv();
    AddKeeps(EMPTY, perms, base, contents);
    ForkIsForked(s, 0);
    var t := Fork(s, 0);
    assert At(t, 1, q) && F(t, 1, q) == F(s, 0, q) == base + q;
    var ops := [AddOp(perms, base, contents), ForkOp(0)];
    assert ops[1..] == [ForkOp(0)] && ops[1..][1..] == [];
    assert Step(EMPTY, ops[0]) == s && Step(s, ops[1]) == t;
    assert ValidRun(t, []);
    assert ValidRun(s, ops[1..]);
    assert Run(t, []) == t && Run(s, ops[1..]) == t;
  }
}
