/**
  What runs of the page list do besides memory: every mapping keeps the rights its first entry
  was given, page by page, and a frame that loses its owner goes to the oldest entry that still
  maps it (NeilOS/kernel/memory/page_list.c).
*/
module CowRights {
  import opened Wrappers
  import opened CowSpec
  import opened CowProofs

  function Rights(s: State): (r: seq<Permissions>)
    ensures |r| == |s.entries| && forall e :: 0 <= e < |r| ==> r[e] == s.entries[e].perms
  {
    seq(|s.entries|, e requires 0 <= e < |s.entries| => s.entries[e].perms)
  }

  // What a page may at most be used for is what its entry may be; only writing is ever withheld.
  ghost predicate AsGiven(x: Entry) {
    x.table.Some? ==> forall p :: 0 <= p < PAGES ==>
      var flags := x.table.value.pages[p].flags;
      flags == x.perms || flags == Permissions(x.perms.read, false, x.perms.kernel)
  }

  ghost predicate Ascending(members: seq<nat>) {
    forall i, j :: 0 <= i < j < |members| ==> members[i] < members[j]
  }

  // The table an entry gets before its first fork maps its block as it was, but not for writing.
  lemma OpenedAsGiven(x: Entry, p: nat)
    requires x.table.None? && p < PAGES
    ensures var y := x.(table := Some(SetUp(x.base, x.perms)));
      AsGiven(y) && y.FrameOf(p) == x.FrameOf(p) && !y.Writable(p) && !y.Owns(p)
  {
  }

  // Rights as given, and sharing lists in the order in which entries came.
  ghost predicate InOrder(s: State) {
    && (forall e :: 0 <= e < |s.entries| ==> AsGiven(s.entries[e]))
    && (forall k :: 0 <= k < |s.lists| ==> Ascending(s.lists[k]))
  }

  // An entry gets its rights when it is made, a fork its parent's.
  function EagerRights(r: seq<Permissions>, op: Op): seq<Permissions> {
    match op
    case AddOp(perms, _, _) => r + [perms]
    case ForkOp(e) => if e < |r| then r + [r[e]] else r
    case WriteOp(_, _, _, _, _, _) => r
  }

  function EagerRightsRun(r: seq<Permissions>, ops: seq<Op>): seq<Permissions>
    decreases |ops|
  {
    if ops == [] then r else EagerRightsRun(EagerRights(r, ops[0]), ops[1..])
  }

  lemma AddInOrder(s: State, perms: Permissions, base: Frame, contents: seq<Bytes>)
    requires Inv(s) && InOrder(s) && |contents| == PAGES
    ensures var t := Add(s, perms, base, contents);
      InOrder(t) && Rights(t) == Rights(s) + [perms]
  {
    var t := Add(s, perms, base, contents);
    assert Rights(t) == Rights(s) + [perms];
  }

  lemma ForkInOrder(s: State, e: nat)
    requires Inv(s) && InOrder(s) && e < |s.entries|
    ensures InOrder(Fork(s, e)) && Rights(Fork(s, e)) == Rights(s) + [Rights(s)[e]]
  {
    var t, x, n := Fork(s, e), s.entries[e], |s.entries|;
    assert Flags(x);
    if x.perms.write {
      assert AsGiven(ForkParent(x, ForkList(s, e))) && AsGiven(ForkChild(x, ForkList(s, e)));
    }
    forall i | 0 <= i < |t.entries| ensures AsGiven(t.entries[i]) {
      assert i < n && i != e ==> t.entries[i] == s.entries[i];
      assert i == e && !x.perms.write ==> t.entries[i] == x;
    }
    forall k | 0 <= k < |t.lists| ensures Ascending(t.lists[k]) {
      assert k < |s.lists| ==> t.lists[k] == s.lists[k] || t.lists[k] == s.lists[k] + [n];
      assert k < |s.lists| ==> forall j :: 0 <= j < |s.lists[k]| ==> s.lists[k][j] in s.lists[k];
    }
    assert Rights(t) == Rights(s) + [Rights(s)[e]];
  }

  lemma StaysAsGiven(x: Entry, p: nat, copy: Frame)
    requires AsGiven(x) && x.table.Some? && p < PAGES
    ensures AsGiven(x.WithOwner(p)) && AsGiven(x.WithPage(p, copy).WithOwner(p))
  {
  }

  lemma CopyInOrder(s: State, e: nat, p: nat, copy: Frame)
    requires InOrder(s) && Copyable(s, e, p, copy)
    ensures InOrder(CopyOnWrite(s, e, p, copy)) && Rights(CopyOnWrite(s, e, p, copy)) == Rights(s)
  {
    var t := CopyOnWrite(s, e, p, copy);
    CopyIsCopied(s, e, p, copy);
    forall i | 0 <= i < |t.entries| ensures AsGiven(t.entries[i]) {
      assert AsGiven(s.entries[i]);
      if s.entries[i].table.Some? { StaysAsGiven(s.entries[i], p, copy); }
    }
    assert Rights(t) == Rights(s);
  }

  lemma StepInOrder(s: State, op: Op)
    requires Inv(s) && InOrder(s) && Enabled(s, op)
    ensures InOrder(Step(s, op)) && Rights(Step(s, op)) == EagerRights(Rights(s), op)
  {
    match op
    case AddOp(perms, base, contents) => AddInOrder(s, perms, base, contents);
    case ForkOp(e) => ForkInOrder(s, e);
    case WriteOp(e, p, off, b, copy, _) =>
      assert Flags(s.entries[e]);
      if !s.entries[e].Writable(p) && TakesCopy(s.entries[e], p, copy) {
        CopyInOrder(s, e, p, copy.value);
        assert Step(s, op).entries == CopyOnWrite(s, e, p, copy.value).entries;
      }
      assert Rights(Step(s, op)) == Rights(s);
  }

  lemma {:induction false} RunInOrder(s: State, ops: seq<Op>)
    requires Inv(s) && InOrder(s) && ValidRun(s, ops)
    ensures InOrder(Run(s, ops)) && Rights(Run(s, ops)) == EagerRightsRun(Rights(s), ops)
    decreases |ops|
  {
    if ops != [] {
      StepKeeps(s, ops[0]);
      StepInOrder(s, ops[0]);
      RunInOrder(Step(s, ops[0]), ops[1..]);
    }
  }

  /** Over every run each entry has the rights its oldest ancestor was given, and each page of its
      table has these rights, but for writing, which a fork withholds. */
  lemma RightsAreKept(ops: seq<Op>)
    requires ValidRun(EMPTY, ops)
    ensures var t := Run(EMPTY, ops);
      && Rights(t) == EagerRightsRun([], ops)
      && forall e :: 0 <= e < |t.entries| ==> AsGiven(t.entries[e])
  {
    EmptyInv();
    RunInOrder(EMPTY, ops);
  }

  // ----- who inherits a frame -----

  lemma {:induction false} FirstIsLeast(entries: seq<Entry>, members: seq<nat>, e: nat, p: nat, frame: Frame, m: nat)
    requires p < PAGES && Linkable(entries, members) && Ascending(members)
    requires m in members && m != e && entries[m].FrameOf(p) == frame
    ensures FirstSharer(entries, members, e, p, frame).Some?
    ensures FirstSharer(entries, members, e, p, frame).value <= m
  {
    assert members[0] in members && forall k :: k in members[1..] ==> k in members;
    if m != members[0] {
      var i :| 0 <= i < |members| && members[i] == m;
      assert members[1..][i - 1] == m;
      if !(members[0] != e && entries[members[0]].FrameOf(p) == frame) {
        FirstIsLeast(entries, members[1..], e, p, frame, m);
      }
    }
  }

  /** In every reachable state a frame whose owner takes a copy goes to the oldest other entry, of
      any task, that maps it. */
  lemma HeirIsOldest(ops: seq<Op>, e: nat, p: nat, copy: Frame, d: nat)
    requires ValidRun(EMPTY, ops) && Copyable(Run(EMPTY, ops), e, p, copy)
    requires var s := Run(EMPTY, ops);
      && s.entries[e].Owns(p) && At(s, d, p) && d != e && F(s, d, p) == F(s, e, p)
      && forall i: nat :: At(s, i, p) && i != e && F(s, i, p) == F(s, e, p) ==> d <= i
    ensures var s := Run(EMPTY, ops);
      OwnsFrame(CopyOnWrite(s, e, p, copy), d, p, F(s, e, p))
  {
    var s := Run(EMPTY, ops);
    EmptyInv();
    RunInOrder(EMPTY, ops);
    assert Flags(s.entries[e]) && s.entries[d].linked == s.entries[e].linked;
    assert d in Members(s, d) && Members(s, d) == Members(s, e);
    FirstIsLeast(s.entries, Members(s, e), e, p, F(s, e, p), d);
    var heir := Heir(s, e, p).value;
    assert At(s, heir, p);
    CopyIsCopied(s, e, p, copy);
    CopyOwners(s, e, p, copy, CopyOnWrite(s, e, p, copy), d, p, F(s, e, p));
  }
}
