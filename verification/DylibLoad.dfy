/**
  Loading dynamic libraries into tasks (NeilOS/kernel/program/dylib.c): the depth-first
  load of dependencies, the instance counts, and symbol resolution along a task's list.
*/
module DylibLoad {
  // A library, by its real name.
  type Name = string

  // What the files say: the libraries each library needs.  Needed libraries exist.
  type Graph = map<Name, seq<Name>>

  ghost predicate Complete(g: Graph) {
    forall x, d :: x in g && d in g[x] ==> d in g
  }

  function NameSet(names: seq<Name>): set<Name> { set x | x in names }

  // Listing one more library leaves fewer to list.
  lemma FewerLeft(g: Graph, names: seq<Name>, lib: Name, more: seq<Name>)
    requires lib in g && lib !in names && names + [lib] <= more
    ensures g.Keys - NameSet(more) < g.Keys - NameSet(names)
    ensures lib in more && forall x :: x in names ==> x in more
  {
    assert more[|names|] == lib;
    forall x | x in names ensures x in more {
      var i :| 0 <= i < |names| && names[i] == x;
      assert more[i] == x;
    }
    assert lib in NameSet(more) && lib !in NameSet(names);
  }

  // ----- dylib_load_for_task, on the names listed -----

  // The task's list after loading `lib`, which it does not list yet.
  function Load(g: Graph, names: seq<Name>, lib: Name): (r: seq<Name>)
    requires Complete(g) && lib in g && lib !in names
    ensures names + [lib] <= r
    decreases g.Keys - NameSet(names), 0
  {
    FewerLeft(g, names, lib, names + [lib]);
    LoadAll(g, names + [lib], g[lib])
  }

  // The loop over needed libraries, skipping those already there.
  function LoadAll(g: Graph, names: seq<Name>, needed: seq<Name>): (r: seq<Name>)
    requires Complete(g) && forall d :: d in needed ==> d in g
    ensures names <= r
    decreases g.Keys - NameSet(names), 1 + |needed|
  {
    if needed == [] then names
    else if needed[0] in names then LoadAll(g, names, needed[1..])
    else
      var more := Load(g, names, needed[0]);
      FewerLeft(g, names, needed[0], more);
      LoadAll(g, more, needed[1..])
  }

  // ----- what a load reaches -----

  ghost predicate ReachesIn(g: Graph, a: Name, b: Name, n: nat)
    decreases n
  {
    if n == 0 then a == b else a in g && exists c :: c in g[a] && ReachesIn(g, c, b, n - 1)
  }

  ghost predicate Reaches(g: Graph, a: Name, b: Name) {
    exists n: nat :: ReachesIn(g, a, b, n)
  }

  ghost predicate NoDuplicates(names: seq<Name>) {
    forall i, j :: 0 <= i < j < |names| ==> names[i] != names[j]
  }

  // Everything a listed library needs is listed.
  ghost predicate Closed(g: Graph, names: seq<Name>) {
    forall x, d :: x in names && x in g && d in g[x] ==> d in names
  }

  // What a load adds: libraries reachable from the roots, with all they need.
  ghost predicate Grown(g: Graph, names: seq<Name>, roots: seq<Name>, r: seq<Name>) {
    && names <= r
    && (forall x :: x in roots ==> x in r)
    && (NoDuplicates(names) ==> NoDuplicates(r))
    && (forall x :: x in r && x !in names ==> x in g && exists a :: a in roots && Reaches(g, a, x))
    && (forall x, d :: x in r && x !in names && x in g && d in g[x] ==> d in r)
  }

  lemma Step(g: Graph, a: Name, c: Name, b: Name)
    requires a in g && c in g[a] && Reaches(g, c, b)
    ensures Reaches(g, a, b)
  {
    var n: nat :| ReachesIn(g, c, b, n);
    assert ReachesIn(g, a, b, n + 1);
  }

  lemma {:induction false} LoadGrows(g: Graph, names: seq<Name>, lib: Name)
    requires Complete(g) && lib in g && lib !in names
    ensures Grown(g, names, [lib], Load(g, names, lib))
    decreases g.Keys - NameSet(names), 0
  {
    var r := Load(g, names, lib);
    FewerLeft(g, names, lib, names + [lib]);
    LoadAllGrows(g, names + [lib], g[lib]);
    assert ReachesIn(g, lib, lib, 0);
    forall x | x in r && x !in names ensures x in g && Reaches(g, lib, x) {
      if x !in names + [lib] {
        var a :| a in g[lib] && Reaches(g, a, x);
        Step(g, lib, a, x);
      }
    }
  }

  lemma GrowTwice(g: Graph, names: seq<Name>, lib: Name, more: seq<Name>, needed: seq<Name>, r: seq<Name>)
    requires needed != [] && lib == needed[0]
    requires Grown(g, names, [lib], more) && Grown(g, more, needed[1..], r)
    ensures Grown(g, names, needed, r)
  {
    forall x | x in more ensures x in r {
      var i :| 0 <= i < |more| && more[i] == x;
      assert r[i] == x;
    }
    assert lib in [lib];
    forall x | x in r && x !in names ensures x in g && exists a :: a in needed && Reaches(g, a, x) {
      if x in more {
        assert Reaches(g, lib, x) && lib in needed;
      } else {
        var a :| a in needed[1..] && Reaches(g, a, x);
        assert a in needed;
      }
    }
    forall x | x in needed ensures x in r {
      if x != lib { assert x in needed[1..]; }
    }
  }

  lemma {:induction false} LoadAllGrows(g: Graph, names: seq<Name>, needed: seq<Name>)
    requires Complete(g) && forall d :: d in needed ==> d in g
    ensures Grown(g, names, needed, LoadAll(g, names, needed))
    decreases g.Keys - NameSet(names), 1 + |needed|
  {
    if needed != [] {
      if needed[0] in names {
        LoadAllGrows(g, names, needed[1..]);
        GrowTwice(g, names, needed[0], names, needed, LoadAll(g, names, needed));
      } else {
        var more := Load(g, names, needed[0]);
        LoadGrows(g, names, needed[0]);
        FewerLeft(g, names, needed[0], more);
        LoadAllGrows(g, more, needed[1..]);
        GrowTwice(g, names, needed[0], more, needed, LoadAll(g, names, needed));
      }
    }
  }

  lemma {:induction false} ClosedHoldsReachable(g: Graph, names: seq<Name>, a: Name, b: Name, n: nat)
    requires Closed(g, names) && a in names && ReachesIn(g, a, b, n)
    ensures b in names
    decreases n
  {
    if n > 0 {
      var c :| c in g[a] && ReachesIn(g, c, b, n - 1);
      ClosedHoldsReachable(g, names, c, b, n - 1);
    }
  }

  /** Loading a library into a task whose list is duplicate-free and closed ends with such
      a list, in the old order at the front, that holds exactly the old libraries and all
      those reachable from the new one, however the dependencies loop. */
  lemma LoadReachesExactly(g: Graph, names: seq<Name>, lib: Name)
    requires Complete(g) && lib in g && lib !in names
    requires NoDuplicates(names) && Closed(g, names)
    ensures var r := Load(g, names, lib);
      && names + [lib] <= r && NoDuplicates(r) && Closed(g, r)
      && forall x :: x in r <==> x in names || Reaches(g, lib, x)
  {
    var r := Load(g, names, lib);
    LoadGrows(g, names, lib);
    forall x, d | x in r && x in g && d in g[x] ensures d in r {
      if x in names { assert d in names; }
    }
    forall x | Reaches(g, lib, x) ensures x in r {
      var n: nat :| ReachesIn(g, lib, x, n);
      ClosedHoldsReachable(g, r, lib, x, n);
    }
  }
}
