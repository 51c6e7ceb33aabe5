/**
  A run after which the end of an entry leaves a frame behind: page_list_dealloc_mem
  (NeilOS/kernel/memory/page_list.c) takes a frame in the range of an entry's first block for a
  part of it, and by then the block may be gone and the frame the entry's own.
*/
module CowOrphan {
  import opened Wrappers
  import opened CowSpec
  import opened CowProofs
  import opened CowTeardown

  // ----- states that a run from boot reaches -----

  ghost predicate Reached(s: State) {
    exists ops :: ValidLife(EMPTY, ops) && Life(EMPTY, ops) == s
  }

  ghost predicate Ready(s: State) {
    Reached(s) && Tidy(s) && NoLeak(s)
  }

  lemma {:induction false} OneMore(s: State, ops: seq<LifeOp>, op: LifeOp)
    requires ValidLife(s, ops) && Shaped(Life(s, ops)) && LifeEnabled(Life(s, ops), op)
    ensures ValidLife(s, ops + [op]) && Life(s, ops + [op]) == LifeStep(Life(s, ops), op)
    decreases |ops|
  {
    if ops == [] {
      assert ops + [op] == [op] && [op][1..] == [];
      assert ValidLife(LifeStep(s, op), []);
      assert Life(LifeStep(s, op), []) == LifeStep(s, op);
    } else {
      OneMore(LifeStep(s, ops[0]), ops[1..], op);
      assert (ops + [op])[1..] == ops[1..] + [op];
    }
  }

  lemma ReachedOn(s: State, op: LifeOp)
    requires Reached(s) && Shaped(s) && LifeEnabled(s, op)
    ensures Reached(LifeStep(s, op))
  {
    var ops :| ValidLife(EMPTY, ops) && Life(EMPTY, ops) == s;
    OneMore(EMPTY, ops, op);
  }

  lemma ReadyOn(s: State, op: Op)
    requires Ready(s) && Enabled(s, op)
    ensures Ready(Step(s, op))
  {
    ReachedOn(s, Live(op));
    StepKeeps(s, op);
    StepKeepsTidy(s, op);
  }

  lemma ReadyAtBoot()
    ensures Ready(EMPTY)
  {
    assert ValidLife(EMPTY, []) && Life(EMPTY, []) == EMPTY;
    EmptyInv();
  }

  // ----- a child takes copies of all pages -----

  // Entry 0 has its block; entry 1, its child, has moved its first k pages to c.
  ghost predicate Moving(s: State, base: Frame, c: Frame, k: nat) {
    && |s.entries| == 2
    && s.entries[0].owner && s.entries[0].base == base
    && !s.entries[1].owner && s.entries[1].base == base && s.entries[1].perms.write && s.entries[1].table.Some?
    && (forall p: nat :: At(s, 0, p) ==> F(s, 0, p) == base + p && !s.entries[0].Owns(p))
    && (forall p: nat :: At(s, 1, p) ==>
      && F(s, 1, p) == (if p < k then c else base) + p
      && (s.entries[1].Owns(p) <==> p < k) && (s.entries[1].Writable(p) <==> p < k))
    && (forall f :: f in s.mem ==> base <= f < base + PAGES || c <= f < c + k)
  }

  lemma Begin(perms: Permissions, base: Frame, contents: seq<Bytes>, c: Frame) returns (s: State)
    requires perms.write && |contents| == PAGES
    ensures Ready(s) && Moving(s, base, c, 0)
  {
    ReadyAtBoot();
    ReadyOn(EMPTY, AddOp(perms, base, contents));
    var t := Add(EMPTY, perms, base, contents);
    ReadyOn(t, ForkOp(0));
    s := Fork(t, 0);
    ForkIsForked(t, 0);
    assert forall p: nat :: p < PAGES ==> F(t, 0, p) == base + p && !t.entries[0].Owns(p);
  }

  lemma CopyMoves(s: State, base: Frame, c: Frame, k: nat)
    requires Moving(s, base, c, k) && k < PAGES && Copyable(s, 1, k, c + k)
    ensures Moving(CopyOnWrite(s, 1, k, c + k), base, c, k + 1)
  {
    assert At(s, 1, k) && At(s, 0, k);
    CopyIsCopied(s, 1, k, c + k);
  }

  // The store that follows a copy changes bytes alone.
  lemma WriteCopies(s: State, e: nat, p: nat, copy: Frame)
    requires Copyable(s, e, p, copy)
    ensures var op := WriteOp(e, p, 0, 0, Some(copy), true);
      && Enabled(s, op) && Step(s, op).entries == CopyOnWrite(s, e, p, copy).entries
      && Step(s, op).mem.Keys == CopyOnWrite(s, e, p, copy).mem.Keys
  {
    assert Flags(s.entries[e]);
    CopyKeeps(s, e, p, copy);
    assert At(CopyOnWrite(s, e, p, copy), e, p);
  }

  lemma NextIsCopyable(s: State, base: Frame, c: Frame, k: nat)
    requires Inv(s) && Moving(s, base, c, k) && k < PAGES && c >= base + PAGES
    ensures Copyable(s, 1, k, c + k)
  {
    assert At(s, 1, k);
  }

  lemma WriteMoves(s: State, base: Frame, c: Frame, k: nat, op: Op)
    requires Moving(s, base, c, k) && k < PAGES && Copyable(s, 1, k, c + k)
    requires op == WriteOp(1, k, 0, 0, Some(c + k), true)
    ensures Enabled(s, op) && Moving(Step(s, op), base, c, k + 1)
  {
    CopyMoves(s, base, c, k);
    WriteCopies(s, 1, k, c + k);
    SameMoving(CopyOnWrite(s, 1, k, c + k), Step(s, op), base, c, k + 1);
  }

  lemma MoveOne(s: State, base: Frame, c: Frame, k: nat) returns (t: State)
    requires Ready(s) && Moving(s, base, c, k) && k < PAGES && c >= base + PAGES
    ensures Ready(t) && Moving(t, base, c, k + 1)
  {
    var op := WriteOp(1, k, 0, 0, Some(c + k), true);
    NextIsCopyable(s, base, c, k);
    WriteMoves(s, base, c, k, op);
    ReadyOn(s, op);
    t := Step(s, op);
  }

  lemma SameMoving(s: State, t: State, base: Frame, c: Frame, k: nat)
    requires Moving(s, base, c, k) && t.entries == s.entries && t.mem.Keys == s.mem.Keys
    ensures Moving(t, base, c, k)
  {
    forall p: nat | At(t, 0, p) ensures F(t, 0, p) == base + p && !t.entries[0].Owns(p) { assert At(s, 0, p); }
    forall p: nat | At(t, 1, p)
      ensures F(t, 1, p) == (if p < k then c else base) + p
      ensures (t.entries[1].Owns(p) <==> p < k) && (t.entries[1].Writable(p) <==> p < k)
    {
      assert At(s, 1, p);
    }
    assert forall f :: f in t.mem <==> f in s.mem;
  }

  lemma {:induction false} MoveAll(s: State, base: Frame, c: Frame, k: nat) returns (t: State)
    requires Ready(s) && Moving(s, base, c, k) && k <= PAGES && c >= base + PAGES
    ensures Ready(t) && Moving(t, base, c, PAGES)
    decreases PAGES - k
  {
    if k == PAGES {
      t := s;
    } else {
      t := MoveOne(s, base, c, k);
      t := MoveAll(t, base, c, k + 1);
    }
  }

  // ----- the parent ends, and its block with it -----

  // One entry, all of whose pages are its own, at c.
  ghost predicate Alone(s: State, base: Frame, c: Frame) {
    && |s.entries| == 1
    && !s.entries[0].owner && s.entries[0].base == base && s.entries[0].perms.write && s.entries[0].table.Some?
    && (forall p: nat :: At(s, 0, p) ==> F(s, 0, p) == c + p)
    && (forall f :: f in s.mem ==> c <= f < c + PAGES)
  }

  lemma ParentGuarded(s: State, base: Frame, c: Frame)
    requires Tidy(s) && Moving(s, base, c, PAGES) && c >= base + PAGES
    ensures OwnedUnshared(s, 0) && BlockUnshared(s, 0) && FreesAll(s.entries[0])
  {
    forall p: nat ensures p < PAGES ==> !s.entries[0].Owns(p) { assert p < PAGES ==> At(s, 0, p); }
  }

  lemma ChildStays(s: State, base: Frame, c: Frame)
    requires Tidy(s) && Moving(s, base, c, PAGES)
    ensures Alone(End(s, 0), base, c)
  {
    EndKeepsEntries(s, 0, 0);
    forall p: nat | At(End(s, 0), 0, p) ensures F(End(s, 0), 0, p) == c + p { assert At(s, 1, p); }
    assert forall f: Frame :: base <= f < base + PAGES ==> GivesBack(s.entries[0], f);
  }

  lemma ParentEnds(s: State, base: Frame, c: Frame) returns (t: State)
    requires Ready(s) && Moving(s, base, c, PAGES) && c >= base + PAGES
    ensures Ready(t) && Alone(t, base, c)
  {
    t := End(s, 0);
    ParentGuarded(s, base, c);
    ReachedOn(s, EndOp(0));
    EndKeeps(s, 0);
    EndLeaksNothingIff(s, 0);
    ChildStays(s, base, c);
  }

  // ----- a page comes to lie where the block was -----

  // Entry 1 has one page of its own, at the base of the block that is gone.
  ghost predicate Astray(s: State, base: Frame) {
    && |s.entries| == 2 && !s.entries[1].owner && s.entries[1].base == base
    && OwnsFrame(s, 1, 0, base)
    && (forall p: nat :: At(s, 1, p) && s.entries[1].Owns(p) ==> p == 0)
    && (forall p: nat :: At(s, 0, p) ==> F(s, 0, p) != base)
  }

  // Entry 1 owns nothing, and shares all its pages, at c, with entry 0.
  ghost predicate Forking(s: State, base: Frame, c: Frame) {
    && |s.entries| == 2 && !s.entries[1].owner && s.entries[1].base == base && s.entries[1].table.Some?
    && (forall p: nat :: At(s, 0, p) ==> F(s, 0, p) == c + p)
    && (forall p: nat :: At(s, 1, p) ==> !s.entries[1].Owns(p) && !s.entries[1].Writable(p))
    && (forall f :: f in s.mem ==> c <= f < c + PAGES)
  }

  lemma ChildForks(s: State, base: Frame, c: Frame) returns (t: State)
    requires Ready(s) && Alone(s, base, c)
    ensures Ready(t) && Forking(t, base, c)
  {
    ReadyOn(s, ForkOp(0));
    t := Fork(s, 0);
    ForkIsForked(s, 0);
  }

  lemma CopyStrays(s: State, base: Frame, c: Frame)
    requires Forking(s, base, c) && c >= base + PAGES && Copyable(s, 1, 0, base)
    ensures Astray(CopyOnWrite(s, 1, 0, base), base)
  {
    CopyIsCopied(s, 1, 0, base);
    assert At(CopyOnWrite(s, 1, 0, base), 1, 0);
  }

  lemma SameAstray(s: State, t: State, base: Frame)
    requires Astray(s, base) && t.entries == s.entries
    ensures Astray(t, base)
  {
    assert At(s, 1, 0) && F(t, 1, 0) == F(s, 1, 0);
    forall p: nat | At(t, 1, p) && t.entries[1].Owns(p) ensures p == 0 { assert At(s, 1, p); }
    forall p: nat | At(t, 0, p) ensures F(t, 0, p) != base { assert At(s, 0, p); }
  }

  lemma OnePageAstray(s: State, base: Frame, c: Frame) returns (t: State)
    requires Ready(s) && Alone(s, base, c) && c >= base + PAGES
    ensures Ready(t) && Astray(t, base)
  {
    var u := ChildForks(s, base, c);
    assert At(u, 1, 0);
    CopyStrays(u, base, c);
    WriteCopies(u, 1, 0, base);
    ReadyOn(u, WriteOp(1, 0, 0, 0, Some(base), true));
    t := Step(u, WriteOp(1, 0, 0, 0, Some(base), true));
    SameAstray(CopyOnWrite(u, 1, 0, base), t, base);
  }

  /** The input on which an ending leaks, for any block, contents and place of the copies: a child
      takes copies of all its pages, its parent ends, the child forks, and its own child takes one
      more copy, at the frame the block began with.  All endings are guarded; when that last entry
      ends, the frame stays allocated, with no owner and no mapping. */
  lemma OrphanLeaks(perms: Permissions, base: Frame, contents: seq<Bytes>, c: Frame) returns (s: State)
    requires perms.write && |contents| == PAGES && c >= base + PAGES
    ensures Reached(s) && Tidy(s) && NoLeak(s) && |s.entries| == 2
    ensures OwnedUnshared(s, 1) && BlockUnshared(s, 1)
    ensures var t := End(s, 1);
      && base in t.mem && !NoLeak(t) && !InBlock(t, base)
      && forall d: nat, q: nat :: At(t, d, q) ==> F(t, d, q) != base
  {
    s := Begin(perms, base, contents, c);
    s := MoveAll(s, base, c, 0);
    s := ParentEnds(s, base, c);
    s := OnePageAstray(s, base, c);
    Abandoned(s, base);
  }

  lemma Abandoned(s: State, base: Frame)
    requires Ready(s) && Astray(s, base)
    ensures OwnedUnshared(s, 1) && BlockUnshared(s, 1)
    ensures var t := End(s, 1);
      && base in t.mem && !NoLeak(t) && !InBlock(t, base)
      && forall d: nat, q: nat :: At(t, d, q) ==> F(t, d, q) != base
  {
    var t := End(s, 1);
    forall p: nat ensures !Freed(s.entries[1], p) { assert p < PAGES ==> At(s, 1, p); }
    assert F(s, 1, 0) == base && base in s.mem;
    forall o: nat ensures !HasBlock(t, o, base) {
      EndOwners(s, 1, o, 0, base);
      assert HasBlock(s, Before(1, o), base) ==> InBlock(s, base);
    }
    forall d: nat, q: nat | At(t, d, q) ensures F(t, d, q) != base { EndMaps(s, 1, d, q); }
  }
}
