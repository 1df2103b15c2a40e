/**
  Listing an index: the strings of a trie in the order in which index_dump writes them.
 */
module IndexList {
  import opened Sequences
  import opened TrieSpec
  import opened IndexTree
  import opened IndexFile
  import opened IndexSearch

  function Prepend(p: seq<int>, ss: seq<seq<int>>): (r: seq<seq<int>>)
    ensures |r| == |ss|
  {
    seq(|ss|, i requires 0 <= i < |ss| => p + ss[i])
  }

  /** The strings of a trie: the one that ends at the root, then the children's. */
  function Strings<A>(t: Trie<A>): seq<seq<int>>
    decreases t, CHILDMAX
  {
    (if t.isEnd then [t.prefix] else []) + KidStrings(t, 1)
  }

  /** The strings through the children from character k on. */
  function KidStrings<A>(t: Trie<A>, k: int): seq<seq<int>>
    requires 1 <= k <= CHILDMAX
    decreases t, CHILDMAX - k
  {
    if k == CHILDMAX then [] else OneKid(t, k) + KidStrings(t, k + 1)
  }

  function OneKid<A>(t: Trie<A>, k: int): seq<seq<int>>
    requires 1 <= k < CHILDMAX
    decreases t, 0
  {
    if k in t.kids then Prepend(t.prefix + [k], Strings(Child(t, k))) else []
  }

  lemma PrependIn(p: seq<int>, ss: seq<seq<int>>, s: seq<int>)
    ensures p + s in Prepend(p, ss) <==> s in ss
    ensures forall x :: x in Prepend(p, ss) ==> p <= x && x[|p|..] in ss
  {
    var r := Prepend(p, ss);
    forall x | x in r ensures p <= x && x[|p|..] in ss {
      var i :| 0 <= i < |r| && r[i] == x;
      assert x[|p|..] == ss[i];
    }
    if p + s in r { assert (p + s)[|p|..] == s; }
    if s in ss {
      var i :| 0 <= i < |ss| && ss[i] == s;
      assert r[i] == p + s;
    }
  }

  lemma PrependCat(p: seq<int>, a: seq<seq<int>>, b: seq<seq<int>>)
    ensures Prepend(p, a + b) == Prepend(p, a) + Prepend(p, b)
  {}

  lemma PrependTwice(p: seq<int>, q: seq<int>, ss: seq<seq<int>>)
    ensures Prepend(p, Prepend(q, ss)) == Prepend(p + q, ss)
  {
    forall i | 0 <= i < |ss| ensures Prepend(p, Prepend(q, ss))[i] == Prepend(p + q, ss)[i] {
      assert p + (q + ss[i]) == (p + q) + ss[i];
    }
  }

  // ----- the listing is complete, without repetition, and in order -----

  lemma {:induction false} StringsAre<A>(t: Trie<A>, s: seq<int>)
    ensures s in Strings(t) <==> Has(t, s)
    decreases t, CHILDMAX
  {
    hide Has;
    HasEnd(t);
    KidStringsAre(t, 1, s);
    if Has(t, s) { HasShape(t, s); }
    if s in KidStrings(t, 1) { HasKid(t, s[|t.prefix|], s[|t.prefix| + 1..]); }
  }

  lemma {:induction false} KidStringsAre<A>(t: Trie<A>, k: int, s: seq<int>)
    requires 1 <= k <= CHILDMAX
    ensures s in KidStrings(t, k) <==> Through(t, k, s)
    decreases t, CHILDMAX - k
  {
    hide Has, Prepend;
    if k < CHILDMAX {
      KidStringsAre(t, k + 1, s);
      if k in t.kids {
        var p := t.prefix + [k];
        var r := if p <= s then s[|p|..] else [];
        StringsAre(Child(t, k), r);
        PrependIn(p, Strings(Child(t, k)), r);
        if p <= s {
          assert s == p + r;
          assert s[|t.prefix|] == k && s[|t.prefix| + 1..] == r;
        }
      }
    }
  }

  /** The string goes through a child from character k on. */
  ghost predicate Through<A>(t: Trie<A>, k: int, s: seq<int>) {
    |t.prefix| < |s| && t.prefix <= s && k <= s[|t.prefix|] && s == t.prefix + [s[|t.prefix|]] + s[|t.prefix| + 1..]
    && KidHas(t, s[|t.prefix|], s[|t.prefix| + 1..])
  }

  predicate LexLT(a: seq<int>, b: seq<int>) {
    LexLE(a, b) && a != b
  }

  predicate Ascending(ss: seq<seq<int>>) {
    forall i, j :: 0 <= i < j < |ss| ==> LexLT(ss[i], ss[j])
  }

  lemma PrependAscending(p: seq<int>, ss: seq<seq<int>>)
    requires Ascending(ss)
    ensures Ascending(Prepend(p, ss))
  {
    var r := Prepend(p, ss);
    forall i, j | 0 <= i < j < |ss| ensures LexLT(r[i], r[j]) {
      LexPrefix(p, ss[i], ss[j]);
      assert LexLT(ss[i], ss[j]);
      assert r[i][|p|..] == ss[i] && r[j][|p|..] == ss[j];
    }
  }

  lemma AscendingCat(a: seq<seq<int>>, b: seq<seq<int>>)
    requires Ascending(a) && Ascending(b) && forall x, y :: x in a && y in b ==> LexLT(x, y)
    ensures Ascending(a + b)
  {}

  lemma EmptyAscending()
    ensures Ascending([])
  {}

  lemma KidBefore<A>(t: Trie<A>, k: int, x: seq<int>, y: seq<int>)
    requires 1 <= k < CHILDMAX && k in t.kids && x in OneKid(t, k) && y in KidStrings(t, k + 1)
    ensures LexLT(x, y)
  {
    hide LexLE, Prepend, Strings, KidStrings;
    PrependIn(t.prefix + [k], Strings(Child(t, k)), []);
    KidStringsAre(t, k + 1, y);
    var r := x[|t.prefix| + 1..];
    assert x == t.prefix + [k] + r;
    LexParts(t.prefix, k, r, y[|t.prefix|], y[|t.prefix| + 1..]);
    assert x[|t.prefix|] == k;
  }

  lemma {:induction false} StringsAscending<A>(t: Trie<A>)
    ensures Ascending(Strings(t))
    decreases t, CHILDMAX
  {
    hide LexLE;
    KidStringsAscending(t, 1);
    if t.isEnd {
      forall y | y in KidStrings(t, 1) ensures LexLT(t.prefix, y) {
        KidStringsAre(t, 1, y);
        LexParts(t.prefix, 0, [], y[|t.prefix|], y[|t.prefix| + 1..]);
      }
      AscendingCat([t.prefix], KidStrings(t, 1));
    } else {
      assert [] + KidStrings(t, 1) == KidStrings(t, 1);
    }
  }

  lemma {:induction false} KidStringsAscending<A>(t: Trie<A>, k: int)
    requires 1 <= k <= CHILDMAX
    ensures Ascending(KidStrings(t, k))
    decreases t, CHILDMAX - k
  {
    hide LexLT, Prepend, Ascending, Strings;
    EmptyAscending();
    if k < CHILDMAX {
      KidStringsAscending(t, k + 1);
      if k in t.kids {
        StringsAscending(Child(t, k));
        PrependAscending(t.prefix + [k], Strings(Child(t, k)));
        forall x, y | x in OneKid(t, k) && y in KidStrings(t, k + 1) ensures LexLT(x, y) {
          KidBefore(t, k, x, y);
        }
        AscendingCat(OneKid(t, k), KidStrings(t, k + 1));
      } else {
        assert [] + KidStrings(t, k + 1) == KidStrings(t, k + 1);
      }
    }
  }

  // ----- the buffer for the current path -----

  class Buffer {
    var bytes: seq<int>

    constructor ()
      ensures bytes == []
    {
      bytes := [];
    }

    method PushChar(ch: int)
      modifies this
      ensures bytes == old(bytes) + [ch]
    {
      bytes := bytes + [ch];
    }

    method PushChars(str: seq<int>) returns (n: nat)
      modifies this
      ensures bytes == old(bytes) + str && n == |str|
    {
      n := 0;
      while n < |str|
        invariant n <= |str| && bytes == old(bytes) + str[..n]
      {
        PushChar(str[n]);
        n := n + 1;
      }
      assert str[..n] == str;
    }

    method PopChars(n: nat)
      requires n <= |bytes|
      modifies this
      ensures bytes == old(bytes)[..|old(bytes)| - n]
    {
      bytes := bytes[..|bytes| - n];
    }
  }

  // ----- index_dump -----

  /** One line per string, each after `prefix`. */
  function Lines(prefix: seq<int>, ss: seq<seq<int>>): seq<int> {
    if ss == [] then [] else prefix + ss[0] + [10] + Lines(prefix, ss[1..])
  }

  lemma {:induction false} LinesCat(prefix: seq<int>, a: seq<seq<int>>, b: seq<seq<int>>)
    ensures Lines(prefix, a + b) == Lines(prefix, a) + Lines(prefix, b)
  {
    if a == [] {
      assert a + b == b;
    } else {
      assert (a + b)[1..] == a[1..] + b;
      LinesCat(prefix, a[1..], b);
    }
  }

  function LineLen(text: seq<int>): (n: nat)
    ensures n <= |text| && 10 !in text[..n] && (n < |text| ==> text[n] == 10)
  {
    if text == [] || text[0] == 10 then 0
    else
      assert forall n: nat :: n <= |text| - 1 ==> text[..n + 1] == [text[0]] + text[1..][..n];
      1 + LineLen(text[1..])
  }

  /** A text taken apart at its newlines. */
  function SplitLines(text: seq<int>): seq<seq<int>> {
    var n := LineLen(text);
    if n == |text| then [] else [text[..n]] + SplitLines(text[n + 1..])
  }

  lemma {:induction false} LineEnds(line: seq<int>, rest: seq<int>)
    requires 10 !in line
    ensures LineLen(line + [10] + rest) == |line|
  {
    if line != [] {
      LineEnds(line[1..], rest);
      assert (line + [10] + rest)[1..] == line[1..] + [10] + rest;
    }
  }

  /** Whoever reads the lines finds the strings, each after `prefix`. */
  lemma {:induction false} LinesBack(prefix: seq<int>, ss: seq<seq<int>>)
    requires 10 !in prefix && forall s :: s in ss ==> 10 !in s
    ensures SplitLines(Lines(prefix, ss)) == Prepend(prefix, ss)
  {
    if ss != [] {
      var line, rest := prefix + ss[0], Lines(prefix, ss[1..]);
      var text := line + [10] + rest;
      LineEnds(line, rest);
      assert text[..|line|] == line && text[|line| + 1..] == rest;
      LinesBack(prefix, ss[1..]);
    }
  }

  /** Children outside the range contribute nothing. */
  lemma {:induction false} SkipKids<A>(t: Trie<A>, k: int, m: int)
    requires 1 <= k <= m <= CHILDMAX && forall x :: k <= x < m ==> x !in t.kids
    ensures KidStrings(t, k) == KidStrings(t, m)
    decreases m - k
  {
    if k < m {
      SkipKids(t, k + 1, m);
      assert [] + KidStrings(t, k + 1) == KidStrings(t, k + 1);
    }
  }

  /** The lines for the children from character k on, behind what the buffer holds. */
  ghost function KidLines<A>(prefix: seq<int>, base: seq<int>, t: Trie<A>, k: int): seq<int>
    requires 1 <= k <= CHILDMAX
  {
    Lines(prefix, Prepend(base, KidStrings(t, k)))
  }

  lemma LinesStart<A>(prefix: seq<int>, base: seq<int>, t: Trie<A>, first: nat, last: nat)
    requires Span(t.kids.Keys, first, last)
    ensures 1 <= first <= CHILDMAX
    ensures Lines(prefix, Prepend(base, Strings(t))) ==
      (if t.isEnd then prefix + (base + t.prefix) + [10] else []) + KidLines(prefix, base, t, first)
  {
    SkipKids(t, 1, first);
    var own := if t.isEnd then [t.prefix] else [];
    PrependCat(base, own, KidStrings(t, 1));
    LinesCat(prefix, Prepend(base, own), Prepend(base, KidStrings(t, 1)));
    if t.isEnd {
      assert Prepend(base, own) == [base + t.prefix];
      assert Lines(prefix, [base + t.prefix]) == prefix + (base + t.prefix) + [10] + Lines(prefix, []);
    } else {
      assert Prepend(base, own) == [];
    }
  }

  lemma LinesKid<A>(prefix: seq<int>, base: seq<int>, t: Trie<A>, k: int)
    requires 1 <= k < CHILDMAX
    ensures KidLines(prefix, base, t, k) ==
            (if k in t.kids then Lines(prefix, Prepend(base + t.prefix + [k], Strings(Child(t, k)))) else [])
            + KidLines(prefix, base, t, k + 1)
  {
    hide Prepend, Lines;
    PrependCat(base, OneKid(t, k), KidStrings(t, k + 1));
    LinesCat(prefix, Prepend(base, OneKid(t, k)), Prepend(base, KidStrings(t, k + 1)));
    if k in t.kids {
      PrependTwice(base, t.prefix + [k], Strings(Child(t, k)));
      assert base + (t.prefix + [k]) == base + t.prefix + [k];
    } else {
      NoLines(prefix, base);
    }
  }

  lemma NoLines(prefix: seq<int>, base: seq<int>)
    ensures Lines(prefix, Prepend(base, [])) == []
  {}

  lemma LinesEnd<A>(prefix: seq<int>, base: seq<int>, t: Trie<A>, k: nat)
    requires 1 <= k <= CHILDMAX && forall x :: x in t.kids ==> x < k
    ensures KidLines(prefix, base, t, k) == []
  {
    SkipKids(t, k, CHILDMAX);
  }

  /** Writes the strings of a node, each behind what the buffer holds. */
  method DumpNode<A>(file: seq<Byte>, node: NodeF, buf: Buffer, out: Buffer, prefix: seq<int>, ghost t: Trie<A>)
    requires Matches(file, node, t) && buf != out
    modifies buf, out
    ensures buf.bytes == old(buf.bytes)
    ensures out.bytes == old(out.bytes) + Lines(prefix, Prepend(old(buf.bytes), Strings(t)))
    decreases t
  {
    hide Stored, KidMatches, Span, Lines, Prepend, KidLines, Strings;
    ghost var base, target := buf.bytes, out.bytes + Lines(prefix, Prepend(buf.bytes, Strings(t)));
    SpanBounds(t.kids.Keys, node.first, node.last);
    LinesStart(prefix, base, t, node.first, node.last);
    var pushed := buf.PushChars(node.prefix);
    if node.isEndpoint {
      out.bytes := out.bytes + (prefix + buf.bytes + [10]);
    }
    var ch := node.first;
    while ch <= node.last
      invariant 1 <= ch <= CHILDMAX && (node.first <= node.last ==> ch <= node.last + 1)
      invariant buf.bytes == base + t.prefix
      invariant out.bytes + KidLines(prefix, base, t, ch) == target
    {
      LinesKid(prefix, base, t, ch);
      var child := ReadChild(file, node, ch, t);
      if child.Node? {
        buf.PushChar(ch);
        DumpNode(file, child.node, buf, out, prefix, Child(t, ch));
        buf.PopChars(1);
      }
      ch := ch + 1;
    }
    SpanAbove(t.kids.Keys, node.first, node.last, ch);
    LinesEnd(prefix, base, t, ch);
    buf.PopChars(pushed);
  }

  lemma SpanAbove(keys: set<Ch>, first: nat, last: nat, ch: int)
    requires Span(keys, first, last) && ch > last
    ensures forall x :: x in keys ==> x < ch
  {}

  /** index_dump: the whole index, one string a line, in ascending order. */
  method Dump<A>(file: seq<Byte>, out: Buffer, prefix: seq<int>, ghost t: Trie<A>)
    requires IndexOf(file, t)
    modifies out
    ensures out.bytes == old(out.bytes) + Lines(prefix, Strings(t))
    ensures Ascending(Strings(t)) && forall s :: s in Strings(t) <==> Has(t, s)
  {
    var buf := new Buffer();
    var root := ReadRoot(file, t);
    DumpNode(file, root.node, buf, out, prefix, t);
    assert Prepend([], Strings(t)) == Strings(t) by {
      forall i | 0 <= i < |Strings(t)| ensures Prepend([], Strings(t))[i] == Strings(t)[i] {
        assert [] + Strings(t)[i] == Strings(t)[i];
      }
    }
    StringsAscending(t);
    forall s ensures s in Strings(t) <==> Has(t, s) { StringsAre(t, s); }
  }
}
