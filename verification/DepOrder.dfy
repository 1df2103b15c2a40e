/**
  The order in which depmod lists what a module needs, and in which modprobe therefore inserts
  and removes modules.
 */
module DepOrder {
  import opened Sequences
  import opened DepGraph

  /** The list without some elements. */
  ghost function Without(s: seq<nat>, r: set<nat>): seq<nat> {
    if s == [] then [] else (if s[0] in r then [] else [s[0]]) + Without(s[1..], r)
  }

  lemma {:induction false} WithoutCat(a: seq<nat>, b: seq<nat>, r: set<nat>)
    ensures Without(a + b, r) == Without(a, r) + Without(b, r)
  {
    if a == [] {
      assert a + b == b;
    } else {
      assert (a + b)[1..] == a[1..] + b;
      WithoutCat(a[1..], b, r);
    }
  }

  lemma {:induction false} WithoutIn(s: seq<nat>, r: set<nat>, x: nat)
    ensures x in Without(s, r) <==> x in s && x !in r
  {
    if s != [] { WithoutIn(s[1..], r, x); }
  }

  lemma {:induction false} WithoutTwice(s: seq<nat>, r: set<nat>, q: set<nat>)
    ensures Without(Without(s, r), q) == Without(s, r + q)
  {
    if s != [] {
      WithoutTwice(s[1..], r, q);
      WithoutCat(if s[0] in r then [] else [s[0]], Without(s[1..], r), q);
      assert Without([s[0]], q) == if s[0] in q then [] else [s[0]];
    }
  }

  lemma {:induction false} WithoutNone(s: seq<nat>, r: set<nat>)
    requires forall x :: x in s ==> x !in r
    ensures Without(s, r) == s
  {
    if s != [] { WithoutNone(s[1..], r); }
  }

  /** The modules x needs. */
  ghost function Needed(g: Graph, x: nat): set<nat> {
    set y | 0 <= y < |g| && Needs(g, x, y)
  }

  lemma NeededShrinks(g: Graph, x: nat, i: nat)
    requires WellFormed(g) && x < |g| && i < |g[x]| && !LoopBelow(g, x)
    ensures var d := g[x][i];
      d < |g| && !LoopBelow(g, d) && Needed(g, d) < Needed(g, x) && d in Needed(g, x) && d !in Needed(g, d)
    ensures |Needed(g, g[x][i])| < |Needed(g, x)|
  {
    var d := g[x][i];
    NeedsStep(g, x, d);
    if LoopBelow(g, d) { LoopBelowDep(g, x, i); }
    forall y | y in Needed(g, d) ensures y in Needed(g, x) { NeedsTrans(g, x, d, y); }
    if Needs(g, d, d) { SelfLoop(g, d); }
    assert d in Needed(g, x) - Needed(g, d);
    ProperSubset(Needed(g, d), Needed(g, x));
  }

  lemma ProperSubset(a: set<nat>, b: set<nat>)
    requires a < b
    ensures |a| < |b|
  {
    assert b == a + (b - a);
    assert |b| == |a| + |b - a|;
    assert b - a != {};
  }

  // ----- the order as a value -----

  /** order_dep_list: each dependency goes to the end of the list, followed by what it needs. */
  ghost function Ordered(g: Graph, list: seq<nat>, m: nat): seq<nat>
    requires WellFormed(g) && m < |g| && !LoopBelow(g, m)
    decreases |Needed(g, m)|, |g[m]| + 1
  {
    OrderedFrom(g, list, m, 0)
  }

  ghost function OrderedFrom(g: Graph, list: seq<nat>, m: nat, i: nat): seq<nat>
    requires WellFormed(g) && m < |g| && !LoopBelow(g, m) && i <= |g[m]|
    decreases |Needed(g, m)|, |g[m]| - i
  {
    if i == |g[m]| then list
    else
      NeededShrinks(g, m, i);
      var d := g[m][i];
      OrderedFrom(g, Ordered(g, Without(list, {d}) + [d], d), m, i + 1)
  }

  /** A listing of a set, each member once, with all that a member needs behind it. */
  ghost predicate Listing(g: Graph, s: set<nat>, x: seq<nat>) {
    && Distinct(x) && (forall y :: y in x <==> y in s)
    && forall i :: 0 <= i < |x| ==> Backed(g, x, i)
  }

  /** What the i-th module of the list needs directly stands behind it. */
  ghost predicate Backed(g: Graph, x: seq<nat>, i: nat)
    requires i < |x|
  {
    x[i] < |g| && forall y :: y in g[x[i]] ==> y in x[i + 1..]
  }

  /** What the loop handles from its i-th round on. */
  ghost function NeededFrom(g: Graph, m: nat, i: nat): set<nat>
    requires m < |g| && i <= |g[m]|
    decreases |g[m]| - i
  {
    if i == |g[m]| then {} else {g[m][i]} + Needed(g, g[m][i]) + NeededFrom(g, m, i + 1)
  }

  lemma {:induction false} NeededFromIs(g: Graph, m: nat, i: nat, y: nat)
    requires m < |g| && i <= |g[m]|
    ensures y in NeededFrom(g, m, i) <==> exists k :: i <= k < |g[m]| && (y == g[m][k] || y in Needed(g, g[m][k]))
    decreases |g[m]| - i
  {
    if i < |g[m]| { NeededFromIs(g, m, i + 1, y); }
  }

  lemma NeededAll(g: Graph, m: nat)
    requires WellFormed(g) && m < |g|
    ensures NeededFrom(g, m, 0) == Needed(g, m)
  {
    forall y ensures y in NeededFrom(g, m, 0) <==> y in Needed(g, m) {
      NeededFromIs(g, m, 0, y);
      if y in Needed(g, m) {
        var k := NeedsFirst(g, m, y);
        assert y == g[m][k] || y in Needed(g, g[m][k]);
      }
      if y in NeededFrom(g, m, 0) {
        var k :| 0 <= k < |g[m]| && (y == g[m][k] || y in Needed(g, g[m][k]));
        NeedsStep(g, m, g[m][k]);
        if y != g[m][k] { NeedsTrans(g, m, g[m][k], y); }
      }
    }
  }

  lemma WithoutDistinct(s: seq<nat>, r: set<nat>)
    requires Distinct(s)
    ensures Distinct(Without(s, r))
  {
    if s != [] {
      WithoutDistinct(s[1..], r);
      WithoutIn(s[1..], r, s[0]);
      var w := Without(s[1..], r);
      if s[0] !in r {
        assert Without(s, r) == [s[0]] + w;
        assert forall j :: 0 <= j < |w| ==> w[j] in w;
      }
    }
  }

  /** A listing put in front of another one, without the members the other one has. */
  lemma ListingCat(g: Graph, s: set<nat>, x: seq<nat>, s': set<nat>, x': seq<nat>)
    requires Listing(g, s, x) && Listing(g, s', x')
    ensures Listing(g, s + s', Without(x, s') + x')
  {
    hide Without, Backed;
    var w := Without(x, s');
    var z := w + x';
    WithoutDistinct(x, s');
    forall y ensures y in w <==> y in x && y !in s' { WithoutIn(x, s', y); }
    DistinctCat(w, x');
    forall i | 0 <= i < |z| ensures Backed(g, z, i) {
      if i < |w| {
        WithoutBacked(g, x, s', i);
        BackedFront(g, w, x', s', i);
      } else {
        BackedBehind(g, w, x', i - |w|);
      }
    }
  }

  lemma DistinctCat(w: seq<nat>, x': seq<nat>)
    requires Distinct(w) && Distinct(x') && forall y :: y in w ==> y !in x'
    ensures Distinct(w + x')
  {
    var z := w + x';
    forall i, j | 0 <= i < j < |z| ensures z[i] != z[j] {
      if i < |w| <= j { assert w[i] in w && x'[j - |w|] in x'; }
    }
  }

  lemma BackedFront(g: Graph, w: seq<nat>, x': seq<nat>, s': set<nat>, i: nat)
    requires i < |w| && w[i] < |g| && (forall y :: y in g[w[i]] ==> y in s' || y in w[i + 1..])
    requires forall y :: y in s' ==> y in x'
    ensures Backed(g, w + x', i)
  {
    assert (w + x')[i + 1..] == w[i + 1..] + x';
  }

  lemma BackedBehind(g: Graph, w: seq<nat>, x': seq<nat>, i: nat)
    requires i < |x'| && Backed(g, x', i)
    ensures Backed(g, w + x', |w| + i)
  {
    assert (w + x')[|w| + i + 1..] == x'[i + 1..];
  }

  /** What stands behind a member of a list stands behind it, or is left out, when others are left out. */
  lemma {:induction false} WithoutBacked(g: Graph, x: seq<nat>, r: set<nat>, i: nat)
    requires (forall k :: 0 <= k < |x| ==> Backed(g, x, k)) && i < |Without(x, r)|
    ensures var w := Without(x, r);
      w[i] < |g| && forall y :: y in g[w[i]] ==> y in r || y in w[i + 1..]
  {
    var w := Without(x[1..], r);
    forall k | 0 <= k < |x[1..]| ensures Backed(g, x[1..], k) {
      assert Backed(g, x, k + 1);
      assert x[1..][k + 1..] == x[k + 1 + 1..];
    }
    if x[0] in r {
      assert Without(x, r) == w;
      WithoutBacked(g, x[1..], r, i);
    } else {
      assert Without(x, r) == [x[0]] + w;
      if i > 0 {
        WithoutBacked(g, x[1..], r, i - 1);
        assert Without(x, r)[i + 1..] == w[i..];
      } else {
        assert Backed(g, x, 0);
        assert Without(x, r)[1..] == w;
        forall y | y in g[x[0]] ensures y in r || y in w { WithoutIn(x[1..], r, y); }
      }
    }
  }

  lemma ListingCons(g: Graph, m: nat, x: seq<nat>)
    requires WellFormed(g) && m < |g| && !LoopBelow(g, m) && Listing(g, Needed(g, m), x)
    ensures Listing(g, {m} + Needed(g, m), [m] + x)
  {
    var z := [m] + x;
    assert m !in x by {
      if Needs(g, m, m) { SelfLoop(g, m); }
    }
    forall i | 0 <= i < |z| ensures Backed(g, z, i) {
      if i == 0 {
        assert z[1..] == x;
        forall y | y in g[m] ensures y in x { NeedsStep(g, m, y); }
      } else {
        BackedBehind(g, [m], x, i - 1);
      }
    }
    assert Distinct(z) by {
      forall i, j | 0 <= i < j < |z| ensures z[i] != z[j] { assert x[j - 1] in x; }
    }
  }

  lemma OrderedStep(g: Graph, list: seq<nat>, m: nat, i: nat)
    requires WellFormed(g) && m < |g| && !LoopBelow(g, m) && i <= |g[m]|
    ensures i == |g[m]| ==> OrderedFrom(g, list, m, i) == list && NeededFrom(g, m, i) == {}
    ensures i < |g[m]| ==> var d := g[m][i];
      && d < |g| && !LoopBelow(g, d)
      && OrderedFrom(g, list, m, i) == OrderedFrom(g, Ordered(g, Without(list, {d}) + [d], d), m, i + 1)
      && Ordered(g, Without(list, {d}) + [d], d) == OrderedFrom(g, Without(list, {d}) + [d], d, 0)
      && NeededFrom(g, m, i) == {d} + Needed(g, d) + NeededFrom(g, m, i + 1)
  {
    if i < |g[m]| { NeededShrinks(g, m, i); }
  }

  /** What the ordering does to any list: the modules needed move to the end, each before what it needs. */
  lemma {:induction false} OrderedShape(g: Graph, list: seq<nat>, m: nat, i: nat) returns (x: seq<nat>)
    requires WellFormed(g) && m < |g| && !LoopBelow(g, m) && i <= |g[m]|
    ensures OrderedFrom(g, list, m, i) == Without(list, NeededFrom(g, m, i)) + x && Listing(g, NeededFrom(g, m, i), x)
    decreases |Needed(g, m)|, |g[m]| - i
  {
    hide Listing, LoopBelow, Needed, Distinct, Without, OrderedFrom, Ordered, NeededFrom;
    OrderedStep(g, list, m, i);
    if i == |g[m]| {
      x := [];
      WithoutNone(list, {});
      EmptyListing(g);
      assert list + [] == list;
    } else {
      NeededShrinks(g, m, i);
      var d := g[m][i];
      var one, all, rest := {d}, Needed(g, d), NeededFrom(g, m, i + 1);
      var l1 := Without(list, one) + [d];
      NeededAll(g, d);
      var xd := OrderedShape(g, l1, d, 0);
      var l2 := Ordered(g, l1, d);
      var x' := OrderedShape(g, l2, m, i + 1);
      ListingCons(g, d, xd);
      ListingCat(g, one + all, [d] + xd, rest, x');
      x := Without([d] + xd, rest) + x';
      ListShape(list, one, all, rest, d, xd);
    }
  }

  lemma EmptyListing(g: Graph)
    ensures Listing(g, {}, [])
  {}

  lemma ListShape(list: seq<nat>, one: set<nat>, all: set<nat>, rest: set<nat>, d: nat, xd: seq<nat>)
    requires d !in all
    ensures Without(Without(Without(list, one) + [d], all) + xd, rest) ==
      Without(list, one + all + rest) + Without([d] + xd, rest)
  {
    WithoutCat(Without(list, one), [d], all);
    WithoutTwice(list, one, all);
    var l := Without(list, one + all);
    assert Without(Without(list, one) + [d], all) == l + [d];
    assert (l + [d]) + xd == l + ([d] + xd);
    WithoutCat(l, [d] + xd, rest);
    WithoutTwice(list, one + all, rest);
  }

  /** The list for a module: all it needs, once each, every module before what that one needs. */
  lemma OrderedCorrect(g: Graph, m: nat)
    requires WellFormed(g) && m < |g| && !LoopBelow(g, m)
    ensures Listing(g, Needed(g, m), Ordered(g, [], m))
    ensures Listing(g, {m} + Needed(g, m), [m] + Ordered(g, [], m))
  {
    var x := OrderedShape(g, [], m, 0);
    NeededAll(g, m);
    assert Ordered(g, [], m) == x;
    ListingCons(g, m, x);
  }

  // ----- the exact order -----

  /** Every element once, where it occurs last. */
  function LastOnes(s: seq<nat>): seq<nat> {
    if s == [] then [] else (if s[0] in s[1..] then [] else [s[0]]) + LastOnes(s[1..])
  }

  lemma {:induction false} LastOnesAre(s: seq<nat>)
    ensures Distinct(LastOnes(s)) && forall x: nat :: x in LastOnes(s) <==> x in s
    ensures Distinct(s) ==> LastOnes(s) == s
  {
    if s != [] {
      LastOnesAre(s[1..]);
      assert Distinct(s) ==> s[0] !in s[1..];
      assert s == [s[0]] + s[1..];
    }
  }

  lemma {:induction false} LastOnesNext(s: seq<nat>, m: nat)
    ensures LastOnes(s + [m]) == Without(LastOnes(s), {m}) + [m]
  {
    if s != [] {
      assert (s + [m])[1..] == s[1..] + [m];
      LastOnesNext(s[1..], m);
      var h := if s[0] in s[1..] then [] else [s[0]];
      WithoutCat(h, LastOnes(s[1..]), {m});
      assert h == [] || h[1..] == [];
    } else {
      assert s + [m] == [m] && [m][1..] == [];
    }
  }

  /** Taking the last occurrences early makes no difference. */
  lemma {:induction false} LastOnesEarly(a: seq<nat>, b: seq<nat>)
    ensures LastOnes(LastOnes(a) + b) == LastOnes(a + b)
    decreases |b|
  {
    hide LastOnes, Without;
    if b == [] {
      LastOnesAre(a);
      LastOnesAre(LastOnes(a));
      assert LastOnes(a) + b == LastOnes(a) && a + b == a;
    } else {
      var n := |b| - 1;
      LastOnesEarly(a, b[..n]);
      LastOnesNext(LastOnes(a) + b[..n], b[n]);
      LastOnesNext(a + b[..n], b[n]);
      assert LastOnes(a) + b == (LastOnes(a) + b[..n]) + [b[n]] && a + b == (a + b[..n]) + [b[n]];
    }
  }

  /** The depth-first walk through all that m needs: every module as often as a chain of dependencies leads to it. */
  ghost function Visits(g: Graph, m: nat): seq<nat>
    requires WellFormed(g) && m < |g| && !LoopBelow(g, m)
    decreases |Needed(g, m)|, |g[m]| + 1
  {
    VisitsFrom(g, m, 0)
  }

  ghost function VisitsFrom(g: Graph, m: nat, i: nat): seq<nat>
    requires WellFormed(g) && m < |g| && !LoopBelow(g, m) && i <= |g[m]|
    decreases |Needed(g, m)|, |g[m]| - i
  {
    if i == |g[m]| then []
    else
      NeededShrinks(g, m, i);
      [g[m][i]] + Visits(g, g[m][i]) + VisitsFrom(g, m, i + 1)
  }

  lemma VisitsStep(g: Graph, m: nat, i: nat)
    requires WellFormed(g) && m < |g| && !LoopBelow(g, m) && i <= |g[m]|
    ensures i == |g[m]| ==> VisitsFrom(g, m, i) == []
    ensures i < |g[m]| ==> var d := g[m][i];
      d < |g| && !LoopBelow(g, d) && VisitsFrom(g, m, i) == [d] + VisitsFrom(g, d, 0) + VisitsFrom(g, m, i + 1)
  {
    if i < |g[m]| { NeededShrinks(g, m, i); }
  }

  /** Every module ends up where the walk comes to it last. */
  lemma {:induction false} OrderedIs(g: Graph, list: seq<nat>, m: nat, i: nat)
    requires WellFormed(g) && m < |g| && !LoopBelow(g, m) && i <= |g[m]| && Distinct(list)
    ensures OrderedFrom(g, list, m, i) == LastOnes(list + VisitsFrom(g, m, i))
    decreases |Needed(g, m)|, |g[m]| - i
  {
    hide LoopBelow, Needed, Distinct, Without, OrderedFrom, Ordered, NeededFrom, VisitsFrom, Visits, LastOnes;
    OrderedStep(g, list, m, i);
    VisitsStep(g, m, i);
    LastOnesAre(list);
    if i == |g[m]| {
      assert list + [] == list;
    } else {
      NeededShrinks(g, m, i);
      var d := g[m][i];
      var v, w := VisitsFrom(g, d, 0), VisitsFrom(g, m, i + 1);
      LastOnesNext(list, d);
      LastOnesAre(list + [d]);
      var l1 := Without(list, {d}) + [d];
      OrderedIs(g, l1, d, 0);
      LastOnesEarly(list + [d], v);
      var l2 := Ordered(g, l1, d);
      LastOnesAre(list + [d] + v);
      OrderedIs(g, l2, m, i + 1);
      LastOnesEarly(list + [d] + v, w);
      assert list + ([d] + v + w) == list + [d] + v + w;
    }
  }

  /** The list for a module: the modules of the walk, each where the walk comes to it last. */
  lemma OrderedExact(g: Graph, m: nat)
    requires WellFormed(g) && m < |g| && !LoopBelow(g, m)
    ensures Ordered(g, [], m) == LastOnes(Visits(g, m))
  {
    hide OrderedFrom, VisitsFrom, LastOnes, Needed;
    OrderedIs(g, [], m, 0);
    assert [] + Visits(g, m) == Visits(g, m);
  }
}
