/**
  order_dep_list and output_deps of depmod.c, on the intrusive lists: every module has a node,
  and the nodes of what a module needs are moved around the ring of that module's own node.
 */
module DepList {
  import opened Sequences
  import opened DepGraph
  import opened DepOrder
  import opened IntrusiveList

  predicate Numbers(l: seq<nat>, n: nat) {
    forall i :: 0 <= i < |l| ==> l[i] < n
  }

  /** The nodes of a list of modules. */
  ghost function Chain(heads: seq<ListHead>, l: seq<nat>): (c: seq<ListHead>)
    requires Numbers(l, |heads|)
    ensures |c| == |l|
  {
    seq(|l|, i requires 0 <= i < |l| => heads[l[i]])
  }

  /** Module start heads the list l; every other node is on its own. */
  ghost predicate Listed(heads: seq<ListHead>, start: nat, l: seq<nat>)
    reads heads
  {
    && Distinct(heads) && Numbers([start] + l, |heads|) && Distinct([start] + l)
    && Ring(Chain(heads, [start] + l))
    && forall m :: 0 <= m < |heads| && m != start && m !in l ==> Alone(heads[m])
  }

  ghost predicate Alone(h: ListHead)
    reads h
  {
    h.next == h && h.prev == h
  }

  lemma SameHead(heads: seq<ListHead>, a: nat, b: nat)
    requires Distinct(heads) && a < |heads| && b < |heads| && heads[a] == heads[b]
    ensures a == b
  {}

  lemma ChainNodes(heads: seq<ListHead>, l: seq<nat>)
    requires Numbers(l, |heads|) && Distinct(heads) && Distinct(l)
    ensures Distinct(Chain(heads, l))
    ensures forall m :: 0 <= m < |heads| ==> (heads[m] in Chain(heads, l) <==> m in l)
    ensures forall x :: x in Chain(heads, l) ==> x in heads
  {
    var c := Chain(heads, l);
    forall i, j | 0 <= i < j < |l| ensures c[i] != c[j] {
      if c[i] == c[j] { SameHead(heads, l[i], l[j]); }
    }
    forall m | 0 <= m < |heads| ensures heads[m] in c <==> m in l {
      if m in l {
        var i :| 0 <= i < |l| && l[i] == m;
        assert c[i] == heads[m];
      }
      if heads[m] in c {
        var i :| 0 <= i < |l| && c[i] == heads[m];
        SameHead(heads, l[i], m);
      }
    }
  }

  lemma ConsParts(start: nat, l: seq<nat>, n: nat)
    ensures Numbers([start] + l, n) && Distinct([start] + l) <==>
      start < n && Numbers(l, n) && Distinct(l) && start !in l
  {
    var a := [start] + l;
    if Numbers(a, n) && Distinct(a) {
      assert a[0] == start;
      forall i | 0 <= i < |l| ensures l[i] < n && l[i] != start { assert a[i + 1] == l[i]; }
      forall i, j | 0 <= i < j < |l| ensures l[i] != l[j] { assert a[i + 1] == l[i] && a[j + 1] == l[j]; }
    }
  }

  /** The position of a listed module, and the list without it. */
  lemma RemoveOne(l: seq<nat>, d: nat) returns (k: nat)
    requires Distinct(l)
    ensures d in l ==> k < |l| && l[k] == d && Without(l, {d}) == l[..k] + l[k + 1..]
    ensures d !in l ==> Without(l, {d}) == l
  {
    k := 0;
    if d !in l {
      WithoutNone(l, {d});
    } else {
      k :| 0 <= k < |l| && l[k] == d;
      RemoveAt(l, k);
    }
  }

  lemma RemoveAt(l: seq<nat>, k: nat)
    requires Distinct(l) && k < |l|
    ensures Without(l, {l[k]}) == l[..k] + l[k + 1..]
  {
    hide Without, Distinct;
    var d := l[k];
    ElsewhereNot(l, k);
    WithoutCat(l[..k], [d] + l[k + 1..], {d});
    WithoutCat([d], l[k + 1..], {d});
    WithoutNone(l[..k], {d});
    WithoutNone(l[k + 1..], {d});
    WithoutSelf(d);
    assert l == l[..k] + ([d] + l[k + 1..]);
    assert [] + l[k + 1..] == l[k + 1..];
  }

  lemma WithoutSelf(d: nat)
    ensures Without([d], {d}) == []
  {}

  lemma ElsewhereNot(l: seq<nat>, k: nat)
    requires Distinct(l) && k < |l|
    ensures forall x :: x in l[..k] || x in l[k + 1..] ==> x != l[k]
  {}

  /** Everything is in place but for the node of module d, whose pointers may say anything. */
  ghost predicate ListedBut(heads: seq<ListHead>, start: nat, l: seq<nat>, d: nat)
    reads heads
  {
    && Distinct(heads) && Numbers([start] + l, |heads|) && Distinct([start] + l) && d < |heads| && d !in [start] + l
    && Ring(Chain(heads, [start] + l))
    && forall m :: 0 <= m < |heads| && m != start && m != d && m !in l ==> Alone(heads[m])
  }

  lemma AloneRing(h: ListHead)
    ensures Alone(h) <==> Ring([h])
  {
    var r := [h];
    assert r[0] == h && Succ(0, 1) == 0;
  }

  lemma WithoutFits(start: nat, l: seq<nat>, d: nat, n: nat)
    requires Numbers([start] + l, n) && Distinct([start] + l) && d != start
    ensures var l1 := Without(l, {d});
      && Numbers([start] + l1, n) && Distinct([start] + l1) && d !in [start] + l1
      && (forall x :: x in l1 <==> x in l && x != d)
  {
    hide Without, Distinct, Numbers;
    var l1 := Without(l, {d});
    ConsParts(start, l, n);
    WithoutDistinct(l, {d});
    forall x: nat ensures x in l1 <==> x in l && x != d { WithoutIn(l, {d}, x); }
    WithinSub(l, l1, n);
    ConsParts(start, l1, n);
  }

  lemma WithinSub(l: seq<nat>, l1: seq<nat>, n: nat)
    requires Numbers(l, n) && forall x :: x in l1 ==> x in l
    ensures Numbers(l1, n)
  {
    forall i | 0 <= i < |l1| ensures l1[i] < n {
      assert l1[i] in l;
      var k :| 0 <= k < |l| && l[k] == l1[i];
    }
  }

  lemma ChainRemove(heads: seq<ListHead>, start: nat, l: seq<nat>, k: nat)
    requires Numbers([start] + l, |heads|) && Numbers(l, |heads|) && k < |l|
    ensures Numbers([start] + (l[..k] + l[k + 1..]), |heads|)
    ensures var r := Chain(heads, [start] + l);
      r[k + 1] == heads[l[k]] && Chain(heads, [start] + (l[..k] + l[k + 1..])) == r[..k + 1] + r[k + 2..]
  {
    var r, l1 := Chain(heads, [start] + l), l[..k] + l[k + 1..];
    forall i | 0 <= i < |[start] + l1| ensures ([start] + l1)[i] == ([start] + l)[if i <= k then i else i + 1] {}
    assert ([start] + l)[k + 1] == l[k];
  }

  /** The ring a module's node is on, and its place there. */
  lemma RingOf(heads: seq<ListHead>, start: nat, l: seq<nat>, d: nat) returns (ring: seq<ListHead>, at: nat)
    requires Listed(heads, start, l) && d < |heads| && d != start
    ensures Ring(ring) && at < |ring| && ring[at] ==
      heads[d] && (at > 0 || |ring| == 1) && forall i :: 0 <= i < |ring| ==> ring[i] in heads
    ensures Numbers([start] + Without(l, {d}), |heads|)
    ensures d in l ==> ring == Chain(heads, [start] + l) && |ring| > 1 &&
                       Chain(heads, [start] + Without(l, {d})) == ring[..at] + ring[at + 1..]
    ensures d !in l ==> ring == [heads[d]] && Without(l, {d}) == l
  {
    hide Without, Distinct, Ring, Alone, Chain, Numbers;
    ConsParts(start, l, |heads|);
    ChainNodes(heads, [start] + l);
    var k := RemoveOne(l, d);
    if d in l {
      ChainRemove(heads, start, l, k);
      ring, at := Chain(heads, [start] + l), k + 1;
      assert |ring| == |l| + 1;
    } else {
      AloneRing(heads[d]);
      ring, at := [heads[d]], 0;
    }
  }

  /** list_del of a module's node, from the list or from its own ring. */
  method Detach(heads: seq<ListHead>, start: nat, d: nat, ghost l: seq<nat>)
    requires Listed(heads, start, l) && d < |heads| && d != start
    modifies heads
    ensures ListedBut(heads, start, Without(l, {d}), d)
  {
    hide Without, Distinct, Numbers, Chain, Ring;
    WithoutFits(start, l, d, |heads|);
    ConsParts(start, l, |heads|);
    ChainNodes(heads, [start] + l);
    ghost var ring, at := RingOf(heads, start, l, d);
    OthersApart(heads, d);
    ghost var l1 := Without(l, {d});
    assert forall m :: m in [start] + l <==> m == start || m in l;
    assert forall m :: 0 <= m < |heads| && m != start && m != d && m !in l1 ==> heads[m] !in ring && Alone(heads[m]);
    ghost var c1 := Chain(heads, [start] + l1);
    assert d !in l ==> heads[d] !in c1 && Ring(c1);
    ListDel(heads[d], ring, at);
    assert d in l ==> Ring(c1);
    assert d !in l ==> Ring(c1);
  }

  lemma OthersApart(heads: seq<ListHead>, d: nat)
    requires Distinct(heads) && d < |heads|
    ensures forall m :: 0 <= m < |heads| && m != d ==> heads[m] != heads[d]
  {}

  /** Takes a module out of the list, or out of its own, and puts it at the end. */
  method MoveToTail(heads: seq<ListHead>, start: nat, d: nat, ghost l: seq<nat>)
    requires Listed(heads, start, l) && d < |heads| && d != start
    modifies heads
    ensures Listed(heads, start, Without(l, {d}) + [d])
  {
    Detach(heads, start, d, l);
    ghost var l1 := Without(l, {d});
    ghost var r := Chain(heads, [start] + l1);
    ConsParts(start, l1, |heads|);
    ChainNodes(heads, [start] + l1);
    ListAddTail(heads[d], heads[start], r);
    assert [start] + (l1 + [d]) == ([start] + l1) + [d];
    assert Chain(heads, [start] + (l1 + [d])) == r + [heads[d]];
  }

  /** order_dep_list: the list of `start` becomes the ordering of what `mod` needs. */
  method OrderDepList(g: Graph, heads: seq<ListHead>, start: nat, mod: nat, ghost l: seq<nat>)
    requires WellFormed(g) && |heads| == |g| && mod < |g| && !LoopBelow(g, mod) && start !in Needed(g, mod)
    requires Listed(heads, start, l)
    modifies heads
    ensures Listed(heads, start, Ordered(g, l, mod))
    decreases |Needed(g, mod)|
  {
    hide Listed, LoopBelow, Needed;
    ghost var cur := l;
    var i := 0;
    while i < |g[mod]|
      invariant 0 <= i <= |g[mod]| && Listed(heads, start, cur)
      invariant OrderedFrom(g, cur, mod, i) == Ordered(g, l, mod)
    {
      var d := g[mod][i];
      NeededShrinks(g, mod, i);
      MoveToTail(heads, start, d, cur);
      cur := Without(cur, {d}) + [d];
      OrderDepList(g, heads, start, d, cur);
      cur := Ordered(g, cur, d);
      i := i + 1;
    }
  }

  lemma FirstOnRing(heads: seq<ListHead>, start: nat, l: seq<nat>)
    requires Listed(heads, start, l)
    ensures start < |heads| && (l != [] ==> l[0] < |heads| && l[0] != start && heads[l[0]] != heads[start])
    ensures heads[start].next == if l == [] then heads[start] else heads[l[0]]
    ensures l != [] ==> Without(l, {l[0]}) == l[1..]
  {
    ConsParts(start, l, |heads|);
    var r := Chain(heads, [start] + l);
    assert r[0] == heads[start] && r[0].next == r[Succ(0, |r|)];
    if l != [] {
      assert r[1] == heads[l[0]];
      RemoveAt(l, 0);
      assert l[..0] + l[1..] == l[1..];
    }
  }

  lemma Settled(heads: seq<ListHead>, start: nat, l: seq<nat>, d: nat)
    requires ListedBut(heads, start, l, d) && Alone(heads[d])
    ensures Listed(heads, start, l)
  {}

  /** list_del_init of the first module on the list. */
  method TakeFirst(heads: seq<ListHead>, start: nat, d: nat, ghost l: seq<nat>)
    requires Listed(heads, start, l) && l != [] && d == l[0]
    modifies heads
    ensures Listed(heads, start, l[1..])
  {
    FirstOnRing(heads, start, l);
    Detach(heads, start, d, l);
    ghost var r := Chain(heads, [start] + l[1..]);
    ChainNodes(heads, [start] + l[1..]);
    OthersApart(heads, d);
    assert heads[d] !in r;
    heads[d].next, heads[d].prev := heads[d], heads[d];
    assert Ring(r);
    Settled(heads, start, l[1..], d);
  }

  /** The part of output_deps that writes the list of a module and takes it apart. */
  method WriteLine(heads: seq<ListHead>, start: nat, ghost l: seq<nat>) returns (line: seq<nat>)
    requires Listed(heads, start, l) && forall m :: 0 <= m < |heads| ==> heads[m].owner == m
    modifies heads
    ensures line == l && Listed(heads, start, [])
  {
    hide Listed;
    line := [];
    ghost var rest: seq<nat> := l;
    FirstOnRing(heads, start, rest);
    var j := heads[start].next;
    while j != heads[start]
      invariant start < |heads| && Listed(heads, start, rest) && line + rest == l
      invariant rest != [] ==> rest[0] < |heads|
      invariant j == if rest == [] then heads[start] else heads[rest[0]]
      invariant rest != [] ==> j != heads[start]
      decreases |rest|
    {
      line := line + [j.owner];
      TakeFirst(heads, start, j.owner, rest);
      rest := rest[1..];
      FirstOnRing(heads, start, rest);
      j := heads[start].next;
    }
  }

  /** All nodes on their own. */
  ghost predicate AllAlone(heads: seq<ListHead>)
    reads heads
  {
    Distinct(heads) && forall m :: 0 <= m < |heads| ==> Alone(heads[m])
  }

  lemma AloneListed(heads: seq<ListHead>, start: nat)
    requires start < |heads|
    ensures AllAlone(heads) <==> Listed(heads, start, [])
  {
    assert [start] + [] == [start];
    var r := Chain(heads, [start] + []);
    assert r == [heads[start]];
    AloneRing(heads[start]);
  }

  /** A line of modules.dep: a module and what it needs. */
  datatype Line = Line(mod: nat, needs: seq<nat>)

  /** What a line for module m has to be. */
  ghost predicate Right(g: Graph, line: Line, m: nat) {
    line.mod == m && m < |g| && Listing(g, Needed(g, m), line.needs) && Listing(g, {m} + Needed(g, m), [m] + line.needs)
  }

  /** output_deps: for every module a line with all it needs, once each, each before what it needs itself. */
  method OutputDeps(g: Graph, heads: seq<ListHead>, modules: seq<nat>) returns (lines: seq<Line>)
    requires WellFormed(g) && |heads| == |g| && AllAlone(heads) && forall m :: 0 <= m < |heads| ==> heads[m].owner == m
    requires forall i :: 0 <= i < |modules| ==> modules[i] < |g| && !LoopBelow(g, modules[i])
    modifies heads
    ensures AllAlone(heads) && |lines| == |modules|
    ensures forall i :: 0 <= i < |lines| ==> Right(g, lines[i], modules[i])
    ensures forall i :: 0 <= i < |lines| ==> lines[i].needs == LastOnes(Visits(g, modules[i]))
  {
    hide LoopBelow, Listed, Listing, Needed, AllAlone, LastOnes, Visits, Ordered;
    lines := [];
    var i := 0;
    while i < |modules|
      invariant 0 <= i <= |modules| == |lines| + |modules| - i && AllAlone(heads)
      invariant forall k :: 0 <= k < i ==> Right(g, lines[k], modules[k])
      invariant forall k :: 0 <= k < i ==> lines[k].needs == LastOnes(Visits(g, modules[k]))
    {
      var m := modules[i];
      AloneListed(heads, m);
      NotBelowItself(g, m);
      OrderDepList(g, heads, m, m, []);
      var line := WriteLine(heads, m, Ordered(g, [], m));
      AloneListed(heads, m);
      OrderedCorrect(g, m);
      OrderedExact(g, m);
      lines := lines + [Line(m, line)];
      i := i + 1;
    }
  }

  lemma NotBelowItself(g: Graph, m: nat)
    requires !LoopBelow(g, m)
    ensures m !in Needed(g, m)
  {
    if Needs(g, m, m) { SelfLoop(g, m); }
  }

  // ----- modprobe -----

  /** add_module: a module already on the list moves to the end. */
  method AddModule(list: seq<nat>, m: nat) returns (r: seq<nat>)
    requires Distinct(list) // as only add_module makes lists
    ensures r == Without(list, {m}) + [m] && Distinct(r)
  {
    var i := 0;
    while i < |list| && list[i] != m
      invariant 0 <= i <= |list| && m !in list[..i]
    {
      i := i + 1;
    }
    WithoutDistinct(list, {m});
    forall x: nat ensures x in Without(list, {m}) <==> x in list && x != m { WithoutIn(list, {m}, x); }
    if i < |list| {
      RemoveAt(list, i);
      r := list[..i] + list[i + 1..] + [m];
    } else {
      assert list[..i] == list;
      WithoutNone(list, {m});
      r := list + [m];
    }
  }

  /**
    add_modules_dep_line: the module of the line, then the others; a module that comes again counts
    where it comes last.
   */
  method ReadLine(line: Line) returns (list: seq<nat>)
    ensures list == LastOnes([line.mod] + line.needs)
  {
    hide LastOnes, Without;
    ghost var all := [line.mod] + line.needs;
    EmptyLast(line.mod);
    list := AddModule([], line.mod);
    var i := 0;
    while i < |line.needs|
      invariant 0 <= i <= |line.needs| && Distinct(list) && list == LastOnes(all[..i + 1])
    {
      LastOnesNext(all[..i + 1], line.needs[i]);
      assert all[..i + 2] == all[..i + 1] + [line.needs[i]];
      list := AddModule(list, line.needs[i]);
      i := i + 1;
    }
    assert all[..i + 1] == all;
  }

  lemma EmptyLast(m: nat)
    ensures forall all: seq<nat> :: all != [] && all[0] == m ==> LastOnes(all[..1]) == Without([], {m}) + [m]
  {
    forall all: seq<nat> | all != [] && all[0] == m ensures LastOnes(all[..1]) == Without([], {m}) + [m] {
      assert all[..1] == [] + [m];
      LastOnesNext([], m);
    }
  }

  /** insmod: the first module is inserted after all the others on the list. */
  method Insmod(list: seq<nat>) returns (inserted: seq<nat>)
    requires list != []
    ensures inserted == Reversed(list)
  {
    var mod, rest := list[0], list[1..];
    inserted := [];
    if rest != [] {
      inserted := Insmod(rest);
    }
    inserted := inserted + [mod];
  }

  /** rmmod: the first module is removed before all the others on the list. */
  method Rmmod(list: seq<nat>) returns (removed: seq<nat>)
    requires list != []
    ensures removed == list
  {
    var mod, rest := list[0], list[1..];
    removed := [mod];
    if rest != [] {
      var others := Rmmod(rest);
      removed := removed + others;
    }
  }

  /** a stands before b. */
  ghost predicate Before(s: seq<nat>, a: nat, b: nat) {
    exists i, j :: 0 <= i < j < |s| && s[i] == a && s[j] == b
  }

  /** On a right line, every module stands before all that it needs, directly or not; in reverse, behind. */
  lemma LineOrders(g: Graph, line: Line, m: nat, x: nat, y: nat)
    requires Right(g, line, m) && (x == m || Needs(g, m, x)) && Needs(g, x, y)
    ensures var list := [line.mod] + line.needs;
      Before(list, x, y) && Before(Reversed(list), y, x)
  {
    hide Listing, Needs;
    var list := [m] + line.needs;
    assert x in {m} + Needed(g, m) by { if x != m { NeedsBound(g, m, x); } }
    var i := ListedAt(g, {m} + Needed(g, m), list, x);
    var j := NeededBehind(g, {m} + Needed(g, m), list, i, y);
    var r := Reversed(list);
    assert r[|list| - 1 - j] == y && r[|list| - 1 - i] == x;
  }

  /** modprobe with a line for m: each module involved once, inserted after and removed before all that it needs. */
  method Modprobe(g: Graph, line: Line, ghost m: nat) returns (inserted: seq<nat>, removed: seq<nat>)
    requires Right(g, line, m)
    ensures removed == [line.mod] + line.needs
    ensures Distinct(removed) && inserted == Reversed(removed) && forall x :: x in removed <==>
      x == m || x in Needed(g, m)
    ensures forall x: nat, y: nat :: (x == m || Needs(g, m, x)) && Needs(g, x, y) ==>
      Before(inserted, y, x) && Before(removed, x, y)
  {
    hide Needs, Before;
    var list := ReadLine(line);
    LastOnesAre([line.mod] + line.needs);
    inserted := Insmod(list);
    removed := Rmmod(list);
    forall x: nat, y: nat | (x == m || Needs(g, m, x)) && Needs(g, x, y)
      ensures Before(inserted, y, x) && Before(removed, x, y)
    {
      LineOrders(g, line, m, x, y);
    }
  }

  /** depmod: modules with a dependency loop below them are left out, every other one gets a right line. */
  method Depmod(g: Graph, modules: seq<nat>) returns (lines: seq<Line>)
    requires WellFormed(g) && forall i :: 0 <= i < |modules| ==> modules[i] < |g|
    ensures |lines| == |Kept(g, modules)|
    ensures forall i :: 0 <= i < |lines| ==> Right(g, lines[i], Kept(g, modules)[i])
    ensures forall i :: 0 <= i < |lines| ==>
      var m := Kept(g, modules)[i];
      m < |g| && !LoopBelow(g, m) && lines[i] == Line(m, LastOnes(Visits(g, m)))
  {
    hide LoopBelow, Kept, LastOnes, Visits, Listing, Needed;
    var heads: seq<ListHead> := [];
    while |heads| < |g|
      invariant |heads| <= |g| && fresh(heads) && AllAlone(heads)
      invariant forall m :: 0 <= m < |heads| ==> heads[m].owner == m
    {
      var h := new ListHead(|heads|);
      heads := heads + [h];
    }
    var list := StripLoops(g, modules);
    KeptHas(g, modules);
    lines := OutputDeps(g, heads, list);
  }

  lemma ListedAt(g: Graph, s: set<nat>, list: seq<nat>, x: nat) returns (i: nat)
    requires Listing(g, s, list) && x in s
    ensures i < |list| && list[i] == x
  {
    i :| 0 <= i < |list| && list[i] == x;
  }

  /** What a listed module needs comes behind it: one dependency after another. */
  lemma {:induction false} NeededBehind(g: Graph, s: set<nat>, list: seq<nat>, i: nat, y: nat) returns (j: nat)
    requires Listing(g, s, list) && i < |list| && Needs(g, list[i], y)
    ensures i < j < |list| && list[j] == y
    decreases |list| - i
  {
    hide Needs;
    var x := list[i];
    var c := NeedsFirst(g, x, y);
    assert Backed(g, list, i);
    var d, rest := g[x][c], list[i + 1..];
    assert d in g[list[i]];
    assert d in rest;
    var k :| 0 <= k < |rest| && rest[k] == d;
    j := i + 1 + k;
    assert list[j] == d;
    if d != y {
      j := NeededBehind(g, s, list, j, y);
    }
  }
}
