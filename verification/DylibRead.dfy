/**
  Bringing a library into memory (dylib_get and dylib_load in NeilOS/kernel/program/dylib.c,
  elf_load_dylib in NeilOS/kernel/program/loader/elf.c): its file is read, then every library
  it needs, and only then is it recorded as being in memory.  So files that need each other
  are read for ever.  This module says exactly when a read ends, and when it succeeds.
*/
module DylibRead {
  import opened Wrappers
  import opened DylibLoad

  // Whether the library is there, and all that is in memory afterwards.
  datatype Outcome = Outcome(ok: bool, mem: set<Name>)

  predicate Succeeded(r: Option<Outcome>) { r.Some? && r.value.ok }
  predicate Failed(r: Option<Outcome>) { r.Some? && !r.value.ok }

  // dylib_get with allocate, given `depth` nested reads; None if that is not enough.
  function ReadIn(g: Graph, mem: set<Name>, lib: Name, depth: nat): Option<Outcome>
    decreases depth, 0
  {
    if lib in mem then Some(Outcome(true, mem))
    else if lib !in g then Some(Outcome(false, mem))
    else if depth == 0 then None
    else
      var r := ReadAllIn(g, mem, g[lib], depth - 1);
      if Succeeded(r) then Some(Outcome(true, r.value.mem + {lib})) else r
  }

  // The libraries needed, in the file's order, up to the first that cannot be had.
  function ReadAllIn(g: Graph, mem: set<Name>, needed: seq<Name>, depth: nat): Option<Outcome>
    decreases depth, 1 + |needed|
  {
    if needed == [] then Some(Outcome(true, mem))
    else
      var r := ReadIn(g, mem, needed[0], depth);
      if Succeeded(r) then ReadAllIn(g, r.value.mem, needed[1..], depth) else r
  }

  ghost predicate Ends(g: Graph, mem: set<Name>, lib: Name) {
    exists n :: ReadIn(g, mem, lib, n).Some?
  }

  ghost predicate Succeeds(g: Graph, mem: set<Name>, lib: Name) {
    exists n :: Succeeded(ReadIn(g, mem, lib, n))
  }

  // Room for more nested reads changes no answer.
  lemma {:induction false} Deeper(g: Graph, mem: set<Name>, lib: Name, n: nat, m: nat)
    requires n <= m && ReadIn(g, mem, lib, n).Some?
    ensures ReadIn(g, mem, lib, m) == ReadIn(g, mem, lib, n)
    decreases n, 0
  {
    if lib !in mem && lib in g { DeeperAll(g, mem, g[lib], n - 1, m - 1); }
  }

  lemma {:induction false} DeeperAll(g: Graph, mem: set<Name>, needed: seq<Name>, n: nat, m: nat)
    requires n <= m && ReadAllIn(g, mem, needed, n).Some?
    ensures ReadAllIn(g, mem, needed, m) == ReadAllIn(g, mem, needed, n)
    decreases n, 1 + |needed|
  {
    if needed != [] {
      Deeper(g, mem, needed[0], n, m);
      var r := ReadIn(g, mem, needed[0], n);
      if r.value.ok { DeeperAll(g, r.value.mem, needed[1..], n, m); }
    }
  }

  // ----- what a read may come to -----

  // What the files of libraries not in memory need.
  function Unread(g: Graph, mem: set<Name>): Graph { map x | x in g && x !in mem :: g[x] }

  ghost predicate OnLoop(h: Graph, x: Name) {
    exists k: nat :: k > 0 && ReachesIn(h, x, x, k)
  }

  ghost predicate ToLoop(h: Graph, a: Name) {
    exists x :: Reaches(h, a, x) && OnLoop(h, x)
  }

  // A library leads to a loop of libraries not in memory.
  ghost predicate Looping(g: Graph, mem: set<Name>, a: Name) {
    ToLoop(Unread(g, mem), a)
  }

  // It leads to one that is neither in memory nor a file.
  ghost predicate Missing(g: Graph, mem: set<Name>, a: Name) {
    exists x :: Reaches(Unread(g, mem), a, x) && x !in mem && x !in g
  }

  ghost predicate Blocked(g: Graph, mem: set<Name>, a: Name) {
    Looping(g, mem, a) || Missing(g, mem, a)
  }

  lemma {:induction false} Onward(h: Graph, a: Name, b: Name, c: Name, m: nat, n: nat)
    requires ReachesIn(h, a, b, m) && ReachesIn(h, b, c, n)
    ensures ReachesIn(h, a, c, m + n)
    decreases m
  {
    if m > 0 {
      var d :| d in h[a] && ReachesIn(h, d, b, m - 1);
      Onward(h, d, b, c, m - 1, n);
    }
  }

  lemma ReachesOn(h: Graph, a: Name, b: Name, c: Name)
    requires Reaches(h, a, b) && Reaches(h, b, c)
    ensures Reaches(h, a, c)
  {
    var m: nat :| ReachesIn(h, a, b, m);
    var n: nat :| ReachesIn(h, b, c, n);
    Onward(h, a, b, c, m, n);
  }

  lemma ReachesSelf(h: Graph, a: Name)
    ensures Reaches(h, a, a)
  {
    assert ReachesIn(h, a, a, 0);
  }

  lemma BlockedBehind(g: Graph, mem: set<Name>, a: Name, b: Name)
    requires Reaches(Unread(g, mem), a, b)
    ensures Looping(g, mem, b) ==> Looping(g, mem, a)
    ensures Missing(g, mem, b) ==> Missing(g, mem, a)
  {
    forall x | Reaches(Unread(g, mem), b, x) ensures Reaches(Unread(g, mem), a, x) {
      ReachesOn(Unread(g, mem), a, b, x);
    }
  }

  lemma NeedReached(g: Graph, mem: set<Name>, a: Name, d: Name)
    requires a in g && a !in mem && d in g[a]
    ensures Reaches(Unread(g, mem), a, d)
  {
    ReachesSelf(Unread(g, mem), d);
    Step(Unread(g, mem), a, d, d);
  }

  // A loop behind a library is behind one of its needs.
  lemma LoopBehindNeed(h: Graph, a: Name) returns (d: Name)
    requires ToLoop(h, a)
    ensures a in h && d in h[a] && ToLoop(h, d)
  {
    var x :| Reaches(h, a, x) && OnLoop(h, x);
    var n: nat :| ReachesIn(h, a, x, n);
    if n == 0 {
      n :| n > 0 && ReachesIn(h, x, x, n);
    }
    d :| d in h[a] && ReachesIn(h, d, x, n - 1);
    assert Reaches(h, d, x);
  }

  lemma MissingBehindNeed(g: Graph, mem: set<Name>, a: Name) returns (d: Name)
    requires a in g && a !in mem && Missing(g, mem, a)
    ensures d in g[a] && Missing(g, mem, d)
  {
    var h := Unread(g, mem);
    var x :| Reaches(h, a, x) && x !in mem && x !in g;
    var n: nat :| ReachesIn(h, a, x, n);
    d :| d in h[a] && ReachesIn(h, d, x, n - 1);
    assert Reaches(h, d, x);
  }

  lemma InMemoryUnblocked(g: Graph, mem: set<Name>, a: Name)
    requires a in mem
    ensures !Blocked(g, mem, a)
  {
    var h := Unread(g, mem);
    forall x | Reaches(h, a, x) ensures x == a && !OnLoop(h, x) {
      var n: nat :| ReachesIn(h, a, x, n);
    }
  }

  // ----- what a read brings in -----

  // Files reachable from the roots, each with all it needs.
  ghost predicate Filled(g: Graph, start: set<Name>, mem: set<Name>, roots: seq<Name>, r: set<Name>) {
    && mem <= r
    && (forall x :: x in r && x !in mem ==> x in g && exists a :: a in roots && Reaches(Unread(g, start), a, x))
    && (forall x, d :: x in r && x !in mem && x in g && d in g[x] ==> d in r)
  }

  lemma {:induction false} ReadFills(g: Graph, start: set<Name>, mem: set<Name>, lib: Name, n: nat)
    requires start <= mem && ReadIn(g, mem, lib, n).Some?
    ensures Filled(g, start, mem, [lib], ReadIn(g, mem, lib, n).value.mem)
    ensures Succeeded(ReadIn(g, mem, lib, n)) ==> lib in ReadIn(g, mem, lib, n).value.mem
    decreases n, 0
  {
    if lib !in mem && lib in g {
      ReadAllFills(g, start, mem, g[lib], n - 1);
      var r := ReadIn(g, mem, lib, n).value.mem;
      assert lib in [lib];
      ReachesSelf(Unread(g, start), lib);
      forall x | x in r && x !in mem ensures x in g && Reaches(Unread(g, start), lib, x) {
        if x != lib {
          var a :| a in g[lib] && Reaches(Unread(g, start), a, x);
          Step(Unread(g, start), lib, a, x);
        }
      }
    }
  }

  lemma {:induction false} ReadAllFills(g: Graph, start: set<Name>, mem: set<Name>, needed: seq<Name>, n: nat)
    requires start <= mem && ReadAllIn(g, mem, needed, n).Some?
    ensures Filled(g, start, mem, needed, ReadAllIn(g, mem, needed, n).value.mem)
    ensures Succeeded(ReadAllIn(g, mem, needed, n)) ==>
      forall d :: d in needed ==> d in ReadAllIn(g, mem, needed, n).value.mem
    decreases n, 1 + |needed|
  {
    if needed != [] {
      ReadFills(g, start, mem, needed[0], n);
      var r := ReadIn(g, mem, needed[0], n).value;
      assert needed[0] in needed && forall a :: a in [needed[0]] ==> a in needed;
      if r.ok {
        ReadAllFills(g, start, r.mem, needed[1..], n);
        assert forall a :: a in needed[1..] ==> a in needed;
        assert r.mem <= ReadAllIn(g, mem, needed, n).value.mem;
        forall d | d in needed && Succeeded(ReadAllIn(g, mem, needed, n))
          ensures d in ReadAllIn(g, mem, needed, n).value.mem
        {
          if d != needed[0] { assert d in needed[1..]; }
        }
      }
    }
  }

  // ----- when it fails, and when it does not succeed -----

  lemma {:induction false} FailureIsMissing(g: Graph, start: set<Name>, mem: set<Name>, lib: Name, n: nat)
    requires start <= mem && Failed(ReadIn(g, mem, lib, n))
    ensures Missing(g, start, lib)
    decreases n, 0
  {
    ReachesSelf(Unread(g, start), lib);
    if lib in g {
      var d := FailureAmong(g, start, mem, g[lib], n - 1);
      NeedReached(g, start, lib, d);
      BlockedBehind(g, start, lib, d);
    }
  }

  lemma {:induction false} FailureAmong(g: Graph, start: set<Name>, mem: set<Name>, needed: seq<Name>, n: nat)
    returns (d: Name)
    requires start <= mem && Failed(ReadAllIn(g, mem, needed, n))
    ensures d in needed && Missing(g, start, d)
    decreases n, 1 + |needed|
  {
    var r := ReadIn(g, mem, needed[0], n);
    if Succeeded(r) {
      ReadFills(g, start, mem, needed[0], n);
      d := FailureAmong(g, start, r.value.mem, needed[1..], n);
    } else {
      FailureIsMissing(g, start, mem, needed[0], n);
      d := needed[0];
    }
  }

  // Need k is where a read stops: the needs before it came into memory, those after were not tried.
  ghost predicate StopsAt(g: Graph, start: set<Name>, mem: set<Name>, needed: seq<Name>, k: nat, r: set<Name>) {
    && k < |needed| && Missing(g, start, needed[k])
    && (forall j :: 0 <= j < k ==> needed[j] in r)
    && (forall x :: x in r && x !in mem ==> exists j :: 0 <= j <= k && Reaches(Unread(g, start), needed[j], x))
  }

  lemma {:induction false} StopsAmong(g: Graph, start: set<Name>, mem: set<Name>, needed: seq<Name>, n: nat) returns (k: nat)
    requires start <= mem && Failed(ReadAllIn(g, mem, needed, n))
    ensures StopsAt(g, start, mem, needed, k, ReadAllIn(g, mem, needed, n).value.mem)
    decreases |needed|
  {
    var r := ReadIn(g, mem, needed[0], n);
    var out := ReadAllIn(g, mem, needed, n).value.mem;
    ReadFills(g, start, mem, needed[0], n);
    assert forall x :: x in r.value.mem && x !in mem ==> Reaches(Unread(g, start), needed[0], x);
    if Succeeded(r) {
      var i := StopsAmong(g, start, r.value.mem, needed[1..], n);
      ReadAllFills(g, start, r.value.mem, needed[1..], n);
      k := i + 1;
      forall x | x in out && x !in mem ensures exists j :: 0 <= j <= k && Reaches(Unread(g, start), needed[j], x) {
        if x !in r.value.mem {
          var j :| 0 <= j <= i && Reaches(Unread(g, start), needed[1..][j], x);
          assert needed[j + 1] == needed[1..][j];
        }
      }
    } else {
      FailureIsMissing(g, start, mem, needed[0], n);
      k := 0;
    }
  }

  /** Needs are read in the file's order: a read that fails stops at a need behind which a file is
      missing; those before it are in memory afterwards, and nothing of those after it is read. */
  lemma FailureStops(g: Graph, mem: set<Name>, lib: Name, n: nat) returns (k: nat)
    requires lib in g && lib !in mem && Failed(ReadIn(g, mem, lib, n))
    ensures StopsAt(g, mem, mem, g[lib], k, ReadIn(g, mem, lib, n).value.mem)
  {
    k := StopsAmong(g, mem, mem, g[lib], n - 1);
  }

  // What came in since the start had nothing wrong behind it.
  ghost predicate Clean(g: Graph, start: set<Name>, mem: set<Name>) {
    start <= mem && forall x :: x in mem ==> !Blocked(g, start, x)
  }

  lemma CleanStart(g: Graph, start: set<Name>)
    ensures Clean(g, start, start)
  {
    forall x | x in start ensures !Blocked(g, start, x) { InMemoryUnblocked(g, start, x); }
  }

  lemma StaysClean(g: Graph, start: set<Name>, mem: set<Name>, lib: Name, n: nat)
    requires Clean(g, start, mem) && !Blocked(g, start, lib) && ReadIn(g, mem, lib, n).Some?
    ensures Clean(g, start, ReadIn(g, mem, lib, n).value.mem)
  {
    ReadFills(g, start, mem, lib, n);
    forall x | x in ReadIn(g, mem, lib, n).value.mem ensures !Blocked(g, start, x) {
      if x !in mem {
        var a :| a in [lib] && Reaches(Unread(g, start), a, x);
        BlockedBehind(g, start, lib, x);
      }
    }
  }

  lemma {:induction false} BlockedFails(g: Graph, start: set<Name>, mem: set<Name>, lib: Name, n: nat)
    requires Clean(g, start, mem) && Blocked(g, start, lib)
    ensures !Succeeded(ReadIn(g, mem, lib, n))
    decreases n, 0
  {
    if lib in g && n > 0 {
      var d;
      if Looping(g, start, lib) {
        d := LoopBehindNeed(Unread(g, start), lib);
      } else {
        d := MissingBehindNeed(g, start, lib);
      }
      BlockedAmong(g, start, mem, g[lib], d, n - 1);
    }
  }

  lemma {:induction false} BlockedAmong(g: Graph, start: set<Name>, mem: set<Name>, needed: seq<Name>, d: Name, n: nat)
    requires Clean(g, start, mem) && d in needed && Blocked(g, start, d)
    ensures !Succeeded(ReadAllIn(g, mem, needed, n))
    decreases n, 1 + |needed|
  {
    if Blocked(g, start, needed[0]) {
      BlockedFails(g, start, mem, needed[0], n);
    } else {
      var r := ReadIn(g, mem, needed[0], n);
      if Succeeded(r) {
        StaysClean(g, start, mem, needed[0], n);
        BlockedAmong(g, start, r.value.mem, needed[1..], d, n);
      }
    }
  }

  // ----- which needs are tried -----

  // A file's needs are read in order, up to the first that cannot be had.
  ghost function Tried(g: Graph, mem: set<Name>, needed: seq<Name>): seq<Name> {
    if needed == [] then []
    else [needed[0]] + if Blocked(g, mem, needed[0]) then [] else Tried(g, mem, needed[1..])
  }

  ghost function TriedGraph(g: Graph, mem: set<Name>): Graph {
    map x | x in g && x !in mem :: Tried(g, mem, g[x])
  }

  // A library leads to a loop by needs that are tried.
  ghost predicate Stuck(g: Graph, mem: set<Name>, a: Name) {
    ToLoop(TriedGraph(g, mem), a)
  }

  lemma {:induction false} TriedIsNeeded(g: Graph, mem: set<Name>, needed: seq<Name>, d: Name)
    requires d in Tried(g, mem, needed)
    ensures d in needed
  {
    if d != needed[0] { TriedIsNeeded(g, mem, needed[1..], d); }
  }

  lemma {:induction false} TriedReaches(g: Graph, mem: set<Name>, a: Name, b: Name, k: nat)
    requires ReachesIn(TriedGraph(g, mem), a, b, k)
    ensures ReachesIn(Unread(g, mem), a, b, k)
    decreases k
  {
    if k > 0 {
      var c :| c in TriedGraph(g, mem)[a] && ReachesIn(TriedGraph(g, mem), c, b, k - 1);
      TriedIsNeeded(g, mem, g[a], c);
      TriedReaches(g, mem, c, b, k - 1);
    }
  }

  lemma StuckIsLooping(g: Graph, mem: set<Name>, a: Name)
    requires Stuck(g, mem, a)
    ensures Looping(g, mem, a)
  {
    var x :| Reaches(TriedGraph(g, mem), a, x) && OnLoop(TriedGraph(g, mem), x);
    var n: nat :| ReachesIn(TriedGraph(g, mem), a, x, n);
    TriedReaches(g, mem, a, x, n);
    var k: nat :| k > 0 && ReachesIn(TriedGraph(g, mem), x, x, k);
    TriedReaches(g, mem, x, x, k);
    assert Reaches(Unread(g, mem), a, x);
  }

  lemma {:induction false} StuckNeverEnds(g: Graph, start: set<Name>, mem: set<Name>, lib: Name, n: nat)
    requires Clean(g, start, mem) && Stuck(g, start, lib)
    ensures ReadIn(g, mem, lib, n).None?
    decreases n, 0
  {
    StuckIsLooping(g, start, lib);
    var d := LoopBehindNeed(TriedGraph(g, start), lib);
    if n > 0 { StuckAmong(g, start, mem, g[lib], d, n - 1); }
  }

  lemma {:induction false} StuckAmong(g: Graph, start: set<Name>, mem: set<Name>, needed: seq<Name>, d: Name, n: nat)
    requires Clean(g, start, mem) && d in Tried(g, start, needed) && Stuck(g, start, d)
    ensures ReadAllIn(g, mem, needed, n).None?
    decreases n, 1 + |needed|
  {
    if d == needed[0] {
      StuckNeverEnds(g, start, mem, d, n);
    } else {
      assert !Blocked(g, start, needed[0]);
      var r := ReadIn(g, mem, needed[0], n);
      if Failed(r) { FailureIsMissing(g, start, mem, needed[0], n); }
      if Succeeded(r) {
        StaysClean(g, start, mem, needed[0], n);
        StuckAmong(g, start, r.value.mem, needed[1..], d, n);
      }
    }
  }

  // ----- without such a loop it ends -----

  // Reads that are still going on: each leads to the one that starts now.
  ghost predicate LeadTo(h: Graph, above: set<Name>, lib: Name) {
    above <= h.Keys && forall a :: a in above ==> exists k: nat :: k > 0 && ReachesIn(h, a, lib, k)
  }

  lemma LeadOn(h: Graph, above: set<Name>, lib: Name, d: Name)
    requires LeadTo(h, above, lib) && lib in h && d in h[lib]
    ensures LeadTo(h, above + {lib}, d)
    ensures Reaches(h, lib, d)
  {
    assert ReachesIn(h, d, d, 0);
    assert ReachesIn(h, lib, d, 1);
    forall a | a in above + {lib} ensures exists k: nat :: k > 0 && ReachesIn(h, a, d, k) {
      if a in above {
        var k: nat :| k > 0 && ReachesIn(h, a, lib, k);
        Onward(h, a, lib, d, k, 1);
      }
    }
  }

  lemma LoopsBehind(h: Graph, a: Name, b: Name)
    requires Reaches(h, a, b) && ToLoop(h, b)
    ensures ToLoop(h, a)
  {
    var x :| Reaches(h, b, x) && OnLoop(h, x);
    ReachesOn(h, a, b, x);
  }

  lemma {:induction false} UnstuckEnds(g: Graph, start: set<Name>, mem: set<Name>, lib: Name, above: set<Name>)
    returns (n: nat)
    requires Clean(g, start, mem) && !Stuck(g, start, lib) && LeadTo(TriedGraph(g, start), above, lib)
    ensures ReadIn(g, mem, lib, n).Some?
    decreases TriedGraph(g, start).Keys - above, 0
  {
    n := 0;
    if lib !in mem && lib in g {
      var h := TriedGraph(g, start);
      ReachesSelf(h, lib);
      assert lib !in above;
      forall d | d in h[lib] ensures !Stuck(g, start, d) && LeadTo(h, above + {lib}, d) {
        LeadOn(h, above, lib, d);
        if Stuck(g, start, d) { LoopsBehind(h, lib, d); }
      }
      n := UnstuckAllEnd(g, start, mem, g[lib], above + {lib});
      n := n + 1;
    }
  }

  lemma {:induction false} UnstuckAllEnd(g: Graph, start: set<Name>, mem: set<Name>, needed: seq<Name>, above: set<Name>)
    returns (n: nat)
    requires Clean(g, start, mem)
    requires forall d :: d in Tried(g, start, needed) ==> !Stuck(g, start, d) && LeadTo(TriedGraph(g, start), above, d)
    ensures ReadAllIn(g, mem, needed, n).Some?
    decreases TriedGraph(g, start).Keys - above, 1 + |needed|
  {
    n := 0;
    if needed != [] {
      assert needed[0] in Tried(g, start, needed);
      n := UnstuckEnds(g, start, mem, needed[0], above);
      var r := ReadIn(g, mem, needed[0], n).value;
      if r.ok {
        if Blocked(g, start, needed[0]) { BlockedFails(g, start, mem, needed[0], n); }
        StaysClean(g, start, mem, needed[0], n);
        assert forall d :: d in Tried(g, start, needed[1..]) ==> d in Tried(g, start, needed);
        var m := UnstuckAllEnd(g, start, r.mem, needed[1..], above);
        var most := if n < m then m else n;
        Deeper(g, mem, needed[0], n, most);
        DeeperAll(g, r.mem, needed[1..], m, most);
        n := most;
      }
    }
  }

  // ----- the exact conditions -----

  /** A read ends exactly when the needs that are tried lead to no loop of libraries not yet
      in memory.  (A need after one that cannot be had is not tried.) */
  lemma EndsIff(g: Graph, mem: set<Name>, lib: Name)
    ensures Ends(g, mem, lib) <==> !Stuck(g, mem, lib)
  {
    CleanStart(g, mem);
    if Stuck(g, mem, lib) {
      forall n ensures ReadIn(g, mem, lib, n).None? { StuckNeverEnds(g, mem, mem, lib, n); }
    } else {
      var n := UnstuckEnds(g, mem, mem, lib, {});
    }
  }

  /** It succeeds exactly when the library leads, through libraries not yet in memory, to no
      loop and to no library without a file. */
  lemma SucceedsIff(g: Graph, mem: set<Name>, lib: Name)
    ensures Succeeds(g, mem, lib) <==> !Looping(g, mem, lib) && !Missing(g, mem, lib)
  {
    CleanStart(g, mem);
    if Blocked(g, mem, lib) {
      forall n ensures !Succeeded(ReadIn(g, mem, lib, n)) { BlockedFails(g, mem, mem, lib, n); }
    } else {
      if Stuck(g, mem, lib) { StuckIsLooping(g, mem, lib); }
      var n := UnstuckEnds(g, mem, mem, lib, {});
      if Failed(ReadIn(g, mem, lib, n)) { FailureIsMissing(g, mem, mem, lib, n); }
    }
  }

  /** Where every library it leads to has a file, it ends exactly when none is on a loop. */
  lemma WithAllFilesEndsIff(g: Graph, mem: set<Name>, lib: Name)
    requires !Missing(g, mem, lib)
    ensures Ends(g, mem, lib) <==> !Looping(g, mem, lib)
  {
    SucceedsIff(g, mem, lib);
    forall n | ReadIn(g, mem, lib, n).Some? ensures Succeeded(ReadIn(g, mem, lib, n)) {
      if Failed(ReadIn(g, mem, lib, n)) { FailureIsMissing(g, mem, mem, lib, n); }
    }
  }

  /** A successful read brings in exactly the libraries reachable through those not yet in
      memory. */
  lemma ReadBringsInReachable(g: Graph, mem: set<Name>, lib: Name, n: nat, x: Name)
    requires Succeeded(ReadIn(g, mem, lib, n))
    ensures x in ReadIn(g, mem, lib, n).value.mem <==> x in mem || Reaches(Unread(g, mem), lib, x)
  {
    ReadFills(g, mem, mem, lib, n);
    if Reaches(Unread(g, mem), lib, x) {
      var k: nat :| ReachesIn(Unread(g, mem), lib, x, k);
      ReachedIsIn(g, mem, lib, x, k, ReadIn(g, mem, lib, n).value.mem);
    }
  }

  lemma {:induction false} ReachedIsIn(g: Graph, mem: set<Name>, a: Name, x: Name, k: nat, r: set<Name>)
    requires a in r && ReachesIn(Unread(g, mem), a, x, k)
    requires forall y, d :: y in r && y !in mem && y in g && d in g[y] ==> d in r
    ensures x in r
    decreases k
  {
    if k > 0 {
      var c :| c in g[a] && ReachesIn(Unread(g, mem), c, x, k - 1);
      ReachedIsIn(g, mem, c, x, k - 1, r);
    }
  }

  // ----- what memory holds -----

  // Every library in memory has a file, and all it needs is in memory too.
  ghost predicate Whole(g: Graph, mem: set<Name>) {
    mem <= g.Keys && forall x, d :: x in mem && x in g && d in g[x] ==> d in mem
  }

  ghost predicate LoopFree(g: Graph, mem: set<Name>) {
    forall x :: x in mem ==> !OnLoop(g, x)
  }

  lemma {:induction false} WholeHoldsReachable(g: Graph, mem: set<Name>, a: Name, x: Name, k: nat)
    requires Whole(g, mem) && a in mem && ReachesIn(g, a, x, k)
    ensures x in mem
    decreases k
  {
    if k > 0 {
      var c :| c in g[a] && ReachesIn(g, c, x, k - 1);
      WholeHoldsReachable(g, mem, c, x, k - 1);
    }
  }

  // A library recorded after all its needs closes no loop.
  lemma RecordKeeps(g: Graph, mem: set<Name>, lib: Name)
    requires Whole(g, mem) && LoopFree(g, mem) && lib in g && lib !in mem && forall d :: d in g[lib] ==> d in mem
    ensures Whole(g, mem + {lib}) && LoopFree(g, mem + {lib})
  {
    if OnLoop(g, lib) {
      var k: nat :| k > 0 && ReachesIn(g, lib, lib, k);
      var c :| c in g[lib] && ReachesIn(g, c, lib, k - 1);
      WholeHoldsReachable(g, mem, c, lib, k - 1);
    }
  }

  /** No library on a loop ever gets into memory, nor one that misses a need, whether the read
      succeeds or fails half way. */
  lemma {:induction false} ReadKeepsWhole(g: Graph, mem: set<Name>, lib: Name, n: nat)
    requires Whole(g, mem) && LoopFree(g, mem) && ReadIn(g, mem, lib, n).Some?
    ensures var r := ReadIn(g, mem, lib, n).value; Whole(g, r.mem) && LoopFree(g, r.mem)
    decreases n, 0
  {
    if lib !in mem && lib in g {
      ReadAllKeepsWhole(g, mem, g[lib], n - 1);
      ReadAllFills(g, mem, mem, g[lib], n - 1);
      var r := ReadAllIn(g, mem, g[lib], n - 1);
      if Succeeded(r) {
        NotYetRecorded(g, mem, lib, n);
        RecordKeeps(g, r.value.mem, lib);
      }
    }
  }

  lemma {:induction false} ReadAllKeepsWhole(g: Graph, mem: set<Name>, needed: seq<Name>, n: nat)
    requires Whole(g, mem) && LoopFree(g, mem) && ReadAllIn(g, mem, needed, n).Some?
    ensures var r := ReadAllIn(g, mem, needed, n).value; Whole(g, r.mem) && LoopFree(g, r.mem)
    decreases n, 1 + |needed|
  {
    if needed != [] {
      ReadKeepsWhole(g, mem, needed[0], n);
      var r := ReadIn(g, mem, needed[0], n).value;
      if r.ok { ReadAllKeepsWhole(g, r.mem, needed[1..], n); }
    }
  }

  // Reading what a library needs does not record the library itself.
  lemma NotYetRecorded(g: Graph, mem: set<Name>, lib: Name, n: nat)
    requires lib in g && lib !in mem && n > 0 && Succeeded(ReadAllIn(g, mem, g[lib], n - 1))
    ensures lib !in ReadAllIn(g, mem, g[lib], n - 1).value.mem
  {
    ReadAllFills(g, mem, mem, g[lib], n - 1);
    if lib in ReadAllIn(g, mem, g[lib], n - 1).value.mem {
      var h := Unread(g, mem);
      var a :| a in g[lib] && Reaches(h, a, lib);
      var k: nat :| ReachesIn(h, a, lib, k);
      assert ReachesIn(h, lib, lib, k + 1);
      ReachesSelf(h, lib);
      CleanStart(g, mem);
      BlockedFails(g, mem, mem, lib, n);
    }
  }

  /** The input on which a read never ends: two libraries that need each other. */
  lemma {:induction false} TwoNeedEachOther(n: nat)
    ensures ReadIn(map["/a" := ["/b"], "/b" := ["/a"]], {}, "/a", n).None?
    ensures ReadIn(map["/a" := ["/b"], "/b" := ["/a"]], {}, "/b", n).None?
  {
    var g := map["/a" := ["/b"], "/b" := ["/a"]];
    if n > 0 {
      TwoNeedEachOther(n - 1);
      assert ReadAllIn(g, {}, g["/a"], n - 1).None? && ReadAllIn(g, {}, g["/b"], n - 1).None?;
    }
  }
}
