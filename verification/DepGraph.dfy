/**
  Module dependencies in depmod: the search for dependency loops, and stripping the modules
  that need one.
 */
module DepGraph {
  import opened Sequences

  /** The modules are numbered; g[m] lists what module m needs directly. */
  type Graph = seq<seq<nat>>

  predicate WellFormed(g: Graph) {
    forall m, i :: 0 <= m < |g| && 0 <= i < |g[m]| ==> g[m][i] < |g|
  }

  /** A chain of at least one dependency. */
  predicate Path(g: Graph, p: seq<nat>) {
    |p| >= 2 && (forall i :: 0 <= i < |p| ==> p[i] < |g|) && forall i :: 0 <= i < |p| - 1 ==> p[i + 1] in g[p[i]]
  }

  /** x needs y, directly or through other modules. */
  ghost predicate Needs(g: Graph, x: nat, y: nat) {
    exists p :: Path(g, p) && p[0] == x && p[|p| - 1] == y
  }

  lemma NeedsStep(g: Graph, x: nat, y: nat)
    requires WellFormed(g) && x < |g| && y in g[x]
    ensures Needs(g, x, y)
  {
    var p := [x, y];
    assert Path(g, p);
  }

  lemma NeedsTrans(g: Graph, x: nat, y: nat, z: nat)
    requires Needs(g, x, y) && Needs(g, y, z)
    ensures Needs(g, x, z)
  {
    var p :| Path(g, p) && p[0] == x && p[|p| - 1] == y;
    var q :| Path(g, q) && q[0] == y && q[|q| - 1] == z;
    var r := p + q[1..];
    forall i | 0 <= i < |r| - 1 ensures r[i + 1] in g[r[i]] {
      if i < |p| - 1 { assert p[i + 1] in g[p[i]]; } else { assert q[i - |p| + 2] in g[q[i - |p| + 1]]; }
    }
    assert Path(g, r);
  }

  /** Every chain starts with a direct dependency. */
  lemma NeedsFirst(g: Graph, x: nat, z: nat) returns (i: nat)
    requires Needs(g, x, z)
    ensures x < |g| && i < |g[x]| && (g[x][i] == z || Needs(g, g[x][i], z))
  {
    var p :| Path(g, p) && p[0] == x && p[|p| - 1] == z;
    assert p[0 + 1] in g[p[0]];
    i :| 0 <= i < |g[x]| && g[x][i] == p[1];
    if |p| > 2 {
      var q := p[1..];
      forall k | 0 <= k < |q| - 1 ensures q[k + 1] in g[q[k]] { assert p[k + 2] in g[p[k + 1]]; }
      assert Path(g, q);
    }
  }

  lemma NeedsBound(g: Graph, x: nat, y: nat)
    requires Needs(g, x, y)
    ensures x < |g| && y < |g|
  {}

  /** m is part of a loop, or needs a module that is. */
  ghost predicate LoopBelow(g: Graph, m: nat) {
    exists y :: (y == m || Needs(g, m, y)) && Needs(g, y, y)
  }

  lemma SelfLoop(g: Graph, m: nat)
    requires Needs(g, m, m)
    ensures LoopBelow(g, m)
  {}

  lemma LoopBelowDep(g: Graph, m: nat, i: nat)
    requires WellFormed(g) && m < |g| && i < |g[m]| && LoopBelow(g, g[m][i])
    ensures LoopBelow(g, m)
  {
    var d := g[m][i];
    NeedsStep(g, m, d);
    var y :| (y == d || Needs(g, d, y)) && Needs(g, y, y);
    if y != d { NeedsTrans(g, m, d, y); }
  }

  /** A loop below m is a loop below one of its direct dependencies. */
  lemma LoopBelowFirst(g: Graph, m: nat)
    requires WellFormed(g) && LoopBelow(g, m)
    ensures m < |g| && exists i :: 0 <= i < |g[m]| && LoopBelow(g, g[m][i])
  {
    var y :| (y == m || Needs(g, m, y)) && Needs(g, y, y);
    var i := NeedsFirst(g, m, y);
    assert LoopBelow(g, g[m][i]);
  }

  /** Distinct numbers below n. */
  lemma DistinctBound(s: seq<nat>, n: nat)
    requires Distinct(s) && forall i :: 0 <= i < |s| ==> s[i] < n
    ensures |s| <= n
  {
    var all := seq(n, i => i);
    forall i | 0 <= i < |s| ensures s[i] in all { assert all[s[i]] == s[i]; }
    DistinctFit(s, all);
  }

  /** Whether the module is already on the chain of modules being traversed. */
  method InLoop(mod: nat, traverse: seq<nat>) returns (r: bool)
    ensures r <==> mod in traverse
  {
    var i := |traverse|;
    while i > 0
      invariant 0 <= i <= |traverse| && mod !in traverse[i..]
    {
      i := i - 1;
      if traverse[i] == mod {
        return true;
      }
      assert traverse[i..] == [traverse[i]] + traverse[i + 1..];
    }
    r := false;
  }

  /** Walks all chains of dependencies; finds a loop exactly when there is one below the module. */
  method HasDepLoop(g: Graph, module_: nat, prev: seq<nat>) returns (r: bool)
    requires WellFormed(g) && module_ < |g|
    requires Distinct(prev) && forall x :: x in prev ==> x < |g| && Needs(g, x, module_)
    ensures r <==> LoopBelow(g, module_)
    decreases |g| - |prev|
  {
    var here := InLoop(module_, prev);
    if here {
      assert Needs(g, module_, module_);
      return true;
    }
    var traverse := prev + [module_];
    assert forall i :: 0 <= i < |prev| ==> prev[i] in prev;
    DistinctBound(traverse, |g|);
    var i := 0;
    while i < |g[module_]|
      invariant 0 <= i <= |g[module_]|
      invariant forall k :: 0 <= k < i ==> !LoopBelow(g, g[module_][k])
    {
      var d := g[module_][i];
      NeedsStep(g, module_, d);
      forall x | x in traverse ensures x < |g| && Needs(g, x, d) {
        if x != module_ { NeedsTrans(g, x, module_, d); }
      }
      var loop := HasDepLoop(g, d, traverse);
      if loop {
        LoopBelowDep(g, module_, i);
        return true;
      }
      i := i + 1;
    }
    if LoopBelow(g, module_) { LoopBelowFirst(g, module_); }
    r := false;
  }

  // ----- stripping -----

  /** The modules without a loop below them, in order. */
  ghost function Kept(g: Graph, list: seq<nat>): seq<nat> {
    if list == [] then []
    else (if LoopBelow(g, list[0]) then [] else [list[0]]) + Kept(g, list[1..])
  }

  lemma {:induction false} KeptHas(g: Graph, list: seq<nat>)
    ensures forall i :: 0 <= i < |Kept(g, list)| ==> Kept(g, list)[i] in list && !LoopBelow(g, Kept(g, list)[i])
    ensures forall m :: m in list && !LoopBelow(g, m) ==> m in Kept(g, list)
  {
    hide LoopBelow;
    if list != [] { KeptHas(g, list[1..]); }
  }

  lemma {:induction false} KeptCat(g: Graph, a: seq<nat>, b: seq<nat>)
    ensures Kept(g, a + b) == Kept(g, a) + Kept(g, b)
  {
    if a == [] {
      assert a + b == b;
    } else {
      assert (a + b)[1..] == a[1..] + b;
      KeptCat(g, a[1..], b);
    }
  }

  lemma {:induction false} KeptAll(g: Graph, list: seq<nat>)
    requires forall i :: 0 <= i < |list| ==> !LoopBelow(g, list[i])
    ensures Kept(g, list) == list
  {
    if list != [] { KeptAll(g, list[1..]); }
  }

  /** Removes a module that has a loop below it, from a list. */
  lemma KeptWithout(g: Graph, list: seq<nat>, i: nat)
    requires i < |list| && LoopBelow(g, list[i])
    ensures Kept(g, list[..i] + list[i + 1..]) == Kept(g, list)
  {
    hide LoopBelow;
    assert list == list[..i] + ([list[i]] + list[i + 1..]);
    KeptCat(g, list[..i], [list[i]] + list[i + 1..]);
    KeptCat(g, list[..i], list[i + 1..]);
    assert ([list[i]] + list[i + 1..])[1..] == list[i + 1..];
  }

  /** Deletes modules with dependency loops, starting over after each. */
  method StripLoops(g: Graph, modules: seq<nat>) returns (list: seq<nat>)
    requires WellFormed(g) && forall i :: 0 <= i < |modules| ==> modules[i] < |g|
    ensures list == Kept(g, modules)
  {
    hide LoopBelow, Kept;
    list := modules;
    var i := 0;
    while i < |list|
      invariant 0 <= i <= |list| && Kept(g, list) == Kept(g, modules)
      invariant forall k :: 0 <= k < |list| ==> list[k] < |g|
      invariant forall k :: 0 <= k < i ==> !LoopBelow(g, list[k])
      decreases |list|, |list| - i
    {
      var loop := HasDepLoop(g, list[i], []);
      if loop {
        KeptWithout(g, list, i);
        list := list[..i] + list[i + 1..];
        i := 0;
      } else {
        i := i + 1;
      }
    }
    KeptAll(g, list);
  }

  /** What a kept module needs, directly or not, is kept too if it was listed, and never the module itself. */
  lemma KeptClosed(g: Graph, modules: seq<nat>, m: nat, d: nat)
    requires m in Kept(g, modules) && Needs(g, m, d)
    ensures !LoopBelow(g, d) && d != m
    ensures d in modules ==> d in Kept(g, modules)
  {
    KeptHas(g, modules);
    if LoopBelow(g, d) {
      var y :| (y == d || Needs(g, d, y)) && Needs(g, y, y);
      if y != d { NeedsTrans(g, m, d, y); }
    }
    if d == m { SelfLoop(g, m); }
  }
}
