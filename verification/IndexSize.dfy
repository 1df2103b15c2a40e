/**
  How long an index file gets: the length depends on the stored strings alone, not on the order in
  which they were inserted, and every string costs its characters and 1024 bytes at most.
 */
module IndexSize {
  import opened Sequences
  import opened TrieSpec
  import opened IndexTree
  import opened IndexFile
  import opened IndexSearch
  import opened IndexList

  // ----- a bound -----

  function Weight(ss: seq<seq<int>>): nat {
    if ss == [] then 0 else |ss[0]| + 1024 + Weight(ss[1..])
  }

  lemma {:induction false} WeightCat(a: seq<seq<int>>, b: seq<seq<int>>)
    ensures Weight(a + b) == Weight(a) + Weight(b)
  {
    if a == [] {
      assert a + b == b;
    } else {
      assert (a + b)[1..] == a[1..] + b;
      WeightCat(a[1..], b);
    }
  }

  lemma {:induction false} WeightPrepend(p: seq<int>, ss: seq<seq<int>>)
    ensures Weight(Prepend(p, ss)) >= Weight(ss) + if ss == [] then 0 else |p|
  {
    if ss != [] {
      assert Prepend(p, ss)[1..] == Prepend(p, ss[1..]);
      WeightPrepend(p, ss[1..]);
    }
  }

  /** Distinct strings out of a list weigh no more than the list. */
  lemma {:induction false} WeightAmong(a: seq<seq<int>>, b: seq<seq<int>>)
    requires Distinct(a) && forall s :: s in a ==> s in b
    ensures Weight(a) <= Weight(b)
    decreases |a|
  {
    if a != [] {
      assert a[0] in b;
      var i :| 0 <= i < |b| && b[i] == a[0];
      var rest := b[..i] + b[i + 1..];
      forall s | s in a[1..] ensures s in rest { assert s in b && s != b[i]; }
      WeightAmong(a[1..], rest);
      WeightCat(b[..i], [b[i]] + b[i + 1..]);
      WeightCat(b[..i], b[i + 1..]);
      assert b == b[..i] + ([b[i]] + b[i + 1..]);
      assert ([b[i]] + b[i + 1..])[1..] == b[i + 1..];
    }
  }

  /** What the children from character k on leave over for the node above them. */
  function Left<A>(t: Trie<A>, k: int): nat
    requires 1 <= k <= CHILDMAX
    decreases CHILDMAX - k
  {
    if k == CHILDMAX then 0 else (if k in t.kids then |t.prefix| + 513 else 0) + Left(t, k + 1)
  }

  lemma {:induction false} LeftOne<A>(t: Trie<A>, k: int, c: Ch)
    requires 1 <= k <= c && c in t.kids
    ensures Left(t, k) >= |t.prefix| + 513
    decreases c - k
  {
    if k < c { LeftOne(t, k + 1, c); }
  }

  lemma {:induction false} LeftTwo<A>(t: Trie<A>, k: int, c: Ch, d: Ch)
    requires 1 <= k <= c < d && c in t.kids && d in t.kids
    ensures Left(t, k) >= 2 * (|t.prefix| + 513)
    decreases c - k
  {
    if k < c { LeftTwo(t, k + 1, c, d); } else { LeftOne(t, k + 1, d); }
  }

  lemma OtherKey(keys: set<Ch>, c: int) returns (d: Ch)
    requires |keys| >= 2
    ensures d in keys && d != c
  {
    var a: Ch :| a in keys;
    d := a;
    if a == c {
      var rest := keys - {a};
      assert |rest| >= 1;
      var b: Ch :| b in rest;
      d := b;
    }
  }

  lemma LeftBranches<A>(t: Trie<A>)
    requires |t.kids| >= 2
    ensures Left(t, 1) >= 2 * (|t.prefix| + 513)
  {
    assert |t.kids.Keys| == |t.kids|;
    var c := OtherKey(t.kids.Keys, 0);
    var d := OtherKey(t.kids.Keys, c);
    if c < d { LeftTwo(t, 1, c, d); } else { LeftTwo(t, 1, d, c); }
  }

  lemma TableBound<A>(t: Trie<A>)
    ensures TableSize(t.kids.Keys) <= 510
  {
    var keys := t.kids.Keys;
    if keys != {} && exists first, last :: Span(keys, first, last) {
      var first: nat, last: nat :| Span(keys, first, last);
      WidthIs(keys, first, last);
      SpanBounds(keys, first, last);
    }
  }

  lemma {:induction false} KidsBound<A>(t: Trie<A>, k: int)
    requires Compact(t) && 1 <= k <= CHILDMAX
    ensures KidsSize(t, k) + Left(t, k) <= Weight(KidStrings(t, k))
    decreases t, CHILDMAX - k
  {
    hide Prepend, Size, Weight, Strings;
    if k == CHILDMAX {
      NoWeight();
    } else {
      KidsBound(t, k + 1);
      WeightCat(OneKid(t, k), KidStrings(t, k + 1));
      if k in t.kids {
        AliveChild(t, k);
        SizeBound(Child(t, k));
        WeightPrepend(t.prefix + [k], Strings(Child(t, k)));
        LeastIsLeast(Child(t, k), []);
        StringsAre(Child(t, k), Least(Child(t, k)));
      } else {
        NoWeight();
      }
    }
  }

  lemma NoWeight()
    ensures Weight([]) == 0
  {}

  /** A node below the root, with all below it. */
  lemma {:induction false} SizeBound<A>(t: Trie<A>)
    requires Alive(t)
    ensures Size(t) + 512 <= Weight(Strings(t))
    decreases t, CHILDMAX
  {
    hide KidStrings;
    KidsBound(t, 1);
    TableBound(t);
    var own := if t.isEnd then [t.prefix] else [];
    WeightCat(own, KidStrings(t, 1));
    if !t.isEnd { LeftBranches(t); }
  }

  lemma RootBound<A>(t: Trie<A>)
    requires Compact(t) && t.prefix == []
    ensures Size(t) <= 510 + Weight(Strings(t))
  {
    hide KidStrings;
    KidsBound(t, 1);
    TableBound(t);
    WeightCat(if t.isEnd then [t.prefix] else [], KidStrings(t, 1));
  }

  lemma AscendingDistinct(ss: seq<seq<int>>)
    requires Ascending(ss)
    ensures Distinct(ss)
  {
    hide LexLE;
    forall i, j | 0 <= i < j < |ss| ensures ss[i] != ss[j] { assert LexLT(ss[i], ss[j]); }
  }

  /** The trie is an index of exactly the strings. */
  ghost predicate Indexes<A>(t: Trie<A>, strs: seq<seq<int>>) {
    Compact(t) && t.prefix == [] && forall s: seq<int> :: Has(t, s) <==> s in strs
  }

  /** An index file has 8 bytes and the trie's. */
  lemma FileBound<A>(t: Trie<A>, strs: seq<seq<int>>)
    requires Indexes(t, strs)
    ensures Size(t) <= 510 + Weight(strs)
  {
    hide Strings, Has, Compact, Size, Ascending;
    RootBound(t);
    StringsAscending(t);
    AscendingDistinct(Strings(t));
    forall s | s in Strings(t) ensures s in strs { StringsAre(t, s); }
    WeightAmong(Strings(t), strs);
  }

  // ----- one trie for a set of strings -----

  /** The same trie, but for the identity of the nodes. */
  ghost predicate Same<A, B>(t: Trie<A>, u: Trie<B>)
    decreases t
  {
    t.prefix == u.prefix && t.isEnd == u.isEnd && t.kids.Keys == u.kids.Keys
    && forall k :: k in t.kids ==> Same(t.kids[k], u.kids[k])
  }

  ghost predicate SameHas<A, B>(t: Trie<A>, u: Trie<B>) {
    forall s: seq<int> :: Has(t, s) <==> Has(u, s)
  }

  /** A node ends its piece where its strings part, so no piece for the same strings is longer. */
  lemma PieceLongest<A, B>(t: Trie<A>, u: Trie<B>)
    requires Alive(t) && SameHas(t, u)
    ensures u.prefix <= t.prefix
  {
    hide Has, Least;
    HasEnd(t);
    if t.isEnd {
      HasPrefix(u, t.prefix);
    } else {
      var c := OtherKey(t.kids.Keys, 0);
      var d := OtherKey(t.kids.Keys, c);
      StartsWith(t, u, c);
      StartsWith(t, u, d);
      NotBoth(u.prefix, t.prefix, c, d);
    }
  }

  lemma NotBoth(s: seq<int>, p: seq<int>, c: int, d: int)
    requires c != d
    ensures !(p + [c] <= s && p + [d] <= s)
  {
    assert (p + [c])[|p|] == c && (p + [d])[|p|] == d;
  }

  lemma StartsWith<A, B>(t: Trie<A>, u: Trie<B>, c: Ch)
    requires Alive(t) && SameHas(t, u) && c in t.kids
    ensures |u.prefix| <= |t.prefix| ==> u.prefix <= t.prefix
    ensures |u.prefix| > |t.prefix| ==> t.prefix + [c] <= u.prefix
  {
    hide Has, Least;
    AliveKids(t);
    var below := Least(t.kids[c]);
    LeastIsLeast(t.kids[c], below);
    HasKid(t, c, below);
    var s := t.prefix + [c] + below;
    HasPrefix(u, s);
    assert u.prefix == s[..|u.prefix|];
    if |u.prefix| <= |t.prefix| {
      assert s[..|u.prefix|] == t.prefix[..|u.prefix|];
    } else {
      assert s[..|t.prefix| + 1] == t.prefix + [c];
      assert s[..|u.prefix|][..|t.prefix| + 1] == s[..|t.prefix| + 1];
    }
  }

  lemma KidsOf<A, B>(t: Trie<A>, u: Trie<B>, k: Ch)
    requires Compact(t) && SameHas(t, u) && t.prefix == u.prefix && k in t.kids
    ensures k in u.kids && SameHas(t.kids[k], u.kids[k])
  {
    hide Has, Least;
    AliveChild(t, k);
    LeastIsLeast(t.kids[k], []);
    HasKid(t, k, Least(t.kids[k]));
    HasKid(u, k, Least(t.kids[k]));
    forall s: seq<int> ensures Has(t.kids[k], s) <==> Has(u.kids[k], s) {
      HasKid(t, k, s);
      HasKid(u, k, s);
    }
  }

  lemma SameHasFlip<A, B>(t: Trie<A>, u: Trie<B>)
    ensures SameHas(t, u) <==> SameHas(u, t)
  {}

  /** The stored strings determine the trie: depmod may insert them in any order. */
  lemma {:induction false} Canonical<A, B>(t: Trie<A>, u: Trie<B>)
    requires Compact(t) && Compact(u) && SameHas(t, u)
    requires t.prefix == u.prefix || (Fit(t) && Fit(u))
    ensures Same(t, u)
    decreases t
  {
    hide Has, SameHas;
    SameHasFlip(t, u);
    if t.prefix != u.prefix {
      PieceLongest(t, u);
      PieceLongest(u, t);
    }
    HasEnd(t);
    HasEnd(u);
    SameHasAt(t, u, t.prefix);
    forall k: Ch | k in t.kids ensures k in u.kids && Same(t.kids[k], u.kids[k]) {
      KidsOf(t, u, k);
      Canonical(t.kids[k], u.kids[k]);
    }
    forall k: Ch | k in u.kids ensures k in t.kids { KidsOf(u, t, k); }
  }

  lemma SameHasAt<A, B>(t: Trie<A>, u: Trie<B>, s: seq<int>)
    requires SameHas(t, u)
    ensures Has(t, s) <==> Has(u, s)
  {}

  lemma {:induction false} SameKidsSize<A, B>(t: Trie<A>, u: Trie<B>, k: int)
    requires Same(t, u) && 1 <= k <= CHILDMAX
    ensures KidsSize(t, k) == KidsSize(u, k)
    decreases t, CHILDMAX - k
  {
    hide Size;
    if k < CHILDMAX {
      SameKidsSize(t, u, k + 1);
      if k in t.kids { SameSize(Child(t, k), Child(u, k)); }
    }
  }

  lemma {:induction false} SameSize<A, B>(t: Trie<A>, u: Trie<B>)
    requires Same(t, u)
    ensures Size(t) == Size(u)
    decreases t, CHILDMAX
  {
    SameKidsSize(t, u, 1);
  }

  /** Two indexes of the same strings take the same number of bytes. */
  lemma FileLength<A, B>(t: Trie<A>, u: Trie<B>, strs: seq<seq<int>>, strs': seq<seq<int>>)
    requires Indexes(t, strs) && Indexes(u, strs') && forall s: seq<int> :: s in strs <==> s in strs'
    ensures Size(t) == Size(u)
  {
    hide Has;
    Canonical(t, u);
    SameSize(t, u);
  }
}
