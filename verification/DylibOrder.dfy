/**
  The order in which a load lists libraries (dylib_load_for_task in
  NeilOS/kernel/program/dylib.c).  Symbols resolve in the first library that defines them, so it
  matters: a library comes first, then what it needs, in the order of its file, each need
  followed at once by all that comes with it.
*/
module DylibOrder {
  import opened DylibLoad
  import opened DylibRead

  // What a may bring in when the libraries of `names` are there already.
  ghost predicate Brings(g: Graph, names: seq<Name>, a: Name, x: Name) {
    a !in names && x !in names && Reaches(Unread(g, NameSet(names)), a, x)
  }

  // Need i of `needed` is the first not in `names`.
  predicate FirstNew(names: seq<Name>, needed: seq<Name>, i: nat) {
    i < |needed| && needed[i] !in names && forall k :: 0 <= k < i ==> needed[k] in names
  }

  // The needs before n lead to x.
  ghost predicate FromNeeds(g: Graph, needed: seq<Name>, n: nat, x: Name) {
    exists k :: 0 <= k < n && k < |needed| && Reaches(g, needed[k], x)
  }

  // A first new need stands right after what is listed.
  ghost predicate FirstNeedNext(names: seq<Name>, needed: seq<Name>, r: seq<Name>) {
    forall i: nat :: FirstNew(names, needed, i) ==> names + [needed[i]] <= r
  }

  // Whatever is new and stands before a need comes with a need before it.
  ghost predicate NeedsInOrder(g: Graph, names: seq<Name>, needed: seq<Name>, r: seq<Name>) {
    forall i: nat, a: nat, b: nat :: a < b < |r| && i < |needed| && r[b] == needed[i] && r[a] !in names ==>
      r[b] in names || FromNeeds(g, needed, i, r[a])
  }

  // One of the first n needs, itself new, brings in x.
  ghost predicate Brought(g: Graph, names: seq<Name>, needed: seq<Name>, n: nat, x: Name) {
    exists k :: 0 <= k < n && k < |needed| && Brings(g, names, needed[k], x)
  }

  // What the first needs bring in stands before everything they do not lead to.
  ghost predicate NeedByNeed(g: Graph, names: seq<Name>, needed: seq<Name>, r: seq<Name>) {
    forall n: nat, a: nat, b: nat :: n <= |needed| && a < |r| && b < |r| && Brought(g, names, needed, n, r[a]) ==>
      r[b] in names || FromNeeds(g, needed, n, r[b]) || a < b
  }

  ghost predicate DepthFirst(g: Graph, names: seq<Name>, needed: seq<Name>, r: seq<Name>) {
    FirstNeedNext(names, needed, r) && NeedsInOrder(g, names, needed, r) && NeedByNeed(g, names, needed, r)
  }

  // ----- the loop, cut at a need -----

  lemma {:induction false} LoadAllSplits(g: Graph, names: seq<Name>, needed: seq<Name>, n: nat)
    requires Complete(g) && (forall d :: d in needed ==> d in g) && n <= |needed|
    ensures forall d :: (d in needed[..n] ==> d in g) && (d in needed[n..] ==> d in g)
    ensures LoadAll(g, names, needed) == LoadAll(g, LoadAll(g, names, needed[..n]), needed[n..])
    decreases n
  {
    forall d | d in needed[..n] || d in needed[n..] ensures d in needed {}
    if n > 0 {
      assert needed[..n][0] == needed[0] && needed[..n][1..] == needed[1..][..n - 1];
      assert needed[1..][n - 1..] == needed[n..];
      var more := if needed[0] in names then names else Load(g, names, needed[0]);
      LoadAllSplits(g, more, needed[1..], n - 1);
    } else {
      assert needed[..n] == [] && needed[n..] == needed;
    }
  }

  lemma {:induction false} AllThere(g: Graph, names: seq<Name>, needed: seq<Name>)
    requires Complete(g) && forall d :: d in needed ==> d in g && d in names
    ensures LoadAll(g, names, needed) == names
  {
    if needed != [] { AllThere(g, names, needed[1..]); }
  }

  // The part of the list that the first n needs make.
  lemma Part(g: Graph, names: seq<Name>, needed: seq<Name>, n: nat) returns (part: seq<Name>)
    requires Complete(g) && (forall d :: d in needed ==> d in g) && n <= |needed|
    ensures names <= part <= LoadAll(g, names, needed) && Grown(g, names, needed[..n], part)
    ensures n < |needed| && needed[n] !in part ==> part + [needed[n]] <= LoadAll(g, names, needed)
    ensures (forall k :: 0 <= k < n ==> needed[k] in names) ==> part == names
  {
    LoadAllSplits(g, names, needed, n);
    LoadAllGrows(g, names, needed[..n]);
    part := LoadAll(g, names, needed[..n]);
    if forall k :: 0 <= k < n ==> needed[k] in names { AllThere(g, names, needed[..n]); }
    if n < |needed| && needed[n] !in part {
      assert needed[n..][0] == needed[n];
      var more := Load(g, part, needed[n]);
      assert part + [needed[n]] <= more <= LoadAll(g, names, needed);
    }
  }

  // ----- what the part holds -----

  // A list that holds what its libraries need in h holds all they lead to there.
  lemma {:induction false} PartHolds(h: Graph, part: seq<Name>, a: Name, x: Name, n: nat)
    requires forall y, d :: y in part && y in h && d in h[y] ==> d in part
    requires a in part && ReachesIn(h, a, x, n)
    ensures x in part
    decreases n
  {
    if n > 0 {
      var c :| c in h[a] && ReachesIn(h, c, x, n - 1);
      PartHolds(h, part, c, x, n - 1);
    }
  }

  lemma PartIsClosed(g: Graph, names: seq<Name>, roots: seq<Name>, part: seq<Name>, h: Graph)
    requires Grown(g, names, roots, part) && h == Unread(g, NameSet(names))
    ensures forall y, d :: y in part && y in h && d in h[y] ==> d in part
  {
    forall y, d | y in part && y in h && d in h[y] ensures d in part {
      assert y in g && y !in names && h[y] == g[y];
    }
  }

  lemma PartIsFromNeeds(g: Graph, names: seq<Name>, needed: seq<Name>, n: nat, part: seq<Name>, x: Name)
    requires n <= |needed| && Grown(g, names, needed[..n], part) && x in part && x !in names
    ensures FromNeeds(g, needed, n, x)
  {
    var root :| root in needed[..n] && Reaches(g, root, x);
    var k :| 0 <= k < n && needed[k] == root;
  }

  lemma IndexIn(part: seq<Name>, r: seq<Name>, a: nat)
    requires part <= r && a < |r| && NoDuplicates(r)
    ensures a < |part| <==> r[a] in part
  {
    if r[a] in part {
      var i :| 0 <= i < |part| && part[i] == r[a];
      assert r[i] == r[a];
    }
  }

  lemma FirstNeedFollows(g: Graph, names: seq<Name>, needed: seq<Name>, i: nat)
    requires Complete(g) && (forall d :: d in needed ==> d in g) && FirstNew(names, needed, i)
    ensures names + [needed[i]] <= LoadAll(g, names, needed)
  {
    var part := Part(g, names, needed, i);
  }

  lemma BeforeANeed(g: Graph, names: seq<Name>, needed: seq<Name>, i: nat, a: nat, b: nat)
    requires Complete(g) && (forall d :: d in needed ==> d in g) && NoDuplicates(names)
    requires var r := LoadAll(g, names, needed);
      a < b < |r| && i < |needed| && r[b] == needed[i] && r[a] !in names && r[b] !in names
    ensures FromNeeds(g, needed, i, LoadAll(g, names, needed)[a])
  {
    var r := LoadAll(g, names, needed);
    LoadAllGrows(g, names, needed);
    var part := Part(g, names, needed, i);
    IndexIn(part, r, b);
    if needed[i] !in part { assert r[|part|] == (part + [needed[i]])[|part|] == r[b]; }
    assert part[a] == r[a] && r[a] in part;
    PartIsFromNeeds(g, names, needed, i, part, r[a]);
  }

  lemma BroughtIsIn(g: Graph, names: seq<Name>, needed: seq<Name>, n: nat, part: seq<Name>, x: Name)
    requires n <= |needed| && Grown(g, names, needed[..n], part) && Brought(g, names, needed, n, x)
    ensures x in part
  {
    var k :| 0 <= k < n && Brings(g, names, needed[k], x);
    var h := Unread(g, NameSet(names));
    var m: nat :| ReachesIn(h, needed[k], x, m);
    assert needed[k] in needed[..n];
    PartIsClosed(g, names, needed[..n], part, h);
    PartHolds(h, part, needed[k], x, m);
  }

  lemma BroughtFirst(g: Graph, names: seq<Name>, needed: seq<Name>, n: nat, a: nat, b: nat)
    requires Complete(g) && (forall d :: d in needed ==> d in g) && NoDuplicates(names)
    requires var r := LoadAll(g, names, needed);
      n <= |needed| && a < |r| && b < |r| && Brought(g, names, needed, n, r[a]) && r[b] !in names
    ensures FromNeeds(g, needed, n, LoadAll(g, names, needed)[b]) || a < b
  {
    var r := LoadAll(g, names, needed);
    LoadAllGrows(g, names, needed);
    var part := Part(g, names, needed, n);
    BroughtIsIn(g, names, needed, n, part, r[a]);
    IndexIn(part, r, a);
    IndexIn(part, r, b);
    if r[b] in part { PartIsFromNeeds(g, names, needed, n, part, r[b]); }
  }

  /** A load lists the library, then depth first all it needs, in the order of its file. */
  lemma LoadIsDepthFirst(g: Graph, names: seq<Name>, lib: Name)
    requires Complete(g) && lib in g && lib !in names && NoDuplicates(names)
    ensures names + [lib] <= Load(g, names, lib)
    ensures DepthFirst(g, names + [lib], g[lib], Load(g, names, lib))
  {
    var listed, needed, r := names + [lib], g[lib], Load(g, names, lib);
    FewerLeft(g, names, lib, listed);
    assert r == LoadAll(g, listed, needed);
    forall i: nat | FirstNew(listed, needed, i) ensures listed + [needed[i]] <= r {
      FirstNeedFollows(g, listed, needed, i);
    }
    forall i: nat, a: nat, b: nat | a < b < |r| && i < |needed| && r[b] == needed[i] && r[a] !in listed && r[b] !in listed
      ensures FromNeeds(g, needed, i, r[a])
    {
      BeforeANeed(g, listed, needed, i, a, b);
    }
    forall n: nat, a: nat, b: nat | n <= |needed| && a < |r| && b < |r| && Brought(g, listed, needed, n, r[a])
      ensures r[b] in listed || FromNeeds(g, needed, n, r[b]) || a < b
    {
      if r[b] !in listed { BroughtFirst(g, listed, needed, n, a, b); }
    }
  }
}
