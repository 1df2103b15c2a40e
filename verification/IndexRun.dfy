/**
  An index from the strings depmod inserts to the answer modprobe gets.
 */
module IndexRun {
  import opened Sequences
  import opened TrieSpec
  import opened IndexTree
  import opened IndexFile
  import opened IndexSearch
  import opened IndexList
  import opened IndexSize
  import opened WildValues
  import opened IndexWild
  import opened ShellPattern
  import opened WildExact
  import opened WildOrder

  predicate AllIndexable(strs: seq<seq<int>>) {
    forall s :: s in strs ==> Indexable(s)
  }

  /** Inserts all strings; the first that is not acceptable ends the program. */
  method Insert(strs: seq<seq<int>>) returns (ok: bool, root: IndexNode, ghost t: Index)
    requires forall s :: s in strs ==> CString(s)
    ensures ok <==> AllIndexable(strs)
    ensures ok ==> Proper(t, root) && forall s :: Has(t, s) <==> s in strs
    ensures fresh(Nodes(t))
  {
    hide Has, Compact, Rep, Separate, Nodes, Indexable;
    root := new IndexNode([], false);
    t := Trie(root, [], false, map[]);
    Empty(t);
    for i := 0 to |strs|
      invariant Proper(t, root) && fresh(Nodes(t))
      invariant forall s :: s in strs[..i] ==> Indexable(s)
      invariant forall s :: Has(t, s) <==> s in strs[..i]
    {
      var r;
      assert strs[..i + 1] == strs[..i] + [strs[i]];
      ghost var added;
      r, t, added := IndexInsert(root, strs[i], t);
      if r.Refused? {
        return false, root, t;
      }
    }
    assert strs[..|strs|] == strs;
    ok := true;
  }

  lemma Empty(t: Index)
    requires t.kids == map[] && t.prefix == [] && !t.isEnd
    requires t.at.prefix == [] && !t.at.isEndpoint && t.at.first == CHILDMAX && t.at.last == 0
    requires |t.at.children| == CHILDMAX && forall k :: 0 <= k < CHILDMAX ==> t.at.children[k] == null
    ensures Rep(t) && Compact(t) && Separate(t) && Nodes(t) == {t.at} && forall s: seq<int> :: !Has(t, s)
  {}

  /** Few and short enough for the offsets of an index file. */
  predicate InLimit(strs: seq<seq<int>>) {
    Weight(strs) + 518 < OFFSET_LIMIT
  }

  /** The file of a run: as long as the index of the strings has to be, and below the limit that index. */
  ghost predicate FileIs(strs: seq<seq<int>>, file: seq<Byte>, t: Index) {
    AllIndexable(strs) ==>
      Indexes(t, strs) && |file| == 8 + Size(t) && (|file| < OFFSET_LIMIT ==> IndexOf(file, t))
  }

  lemma LimitHolds(strs: seq<seq<int>>, file: seq<Byte>, t: Index)
    requires AllIndexable(strs) && FileIs(strs, file, t)
    ensures InLimit(strs) ==> |file| < OFFSET_LIMIT
  {
    FileBound(t, strs);
  }

  /** An index file for the strings. */
  method Build(strs: seq<seq<int>>) returns (ok: bool, file: seq<Byte>, ghost t: Index)
    requires forall s :: s in strs ==> CString(s)
    ensures ok <==> AllIndexable(strs)
    ensures if ok then Indexes(t, strs) && |file| == 8 + Size(t) else file == []
    ensures ok && |file| < OFFSET_LIMIT ==> IndexOf(file, t)
  {
    hide Has, Compact, Rep, Separate, Nodes, Indexable, IndexOf, Size;
    var root;
    file := [];
    ok, root, t := Insert(strs);
    if ok {
      assert allocated(Nodes(t));
      var out := new File();
      IndexWrite(root, out, t);
      file := out.bytes;
    }
  }

  /** The value v is stored with the key. */
  predicate ValueOf(strs: seq<seq<int>>, key: seq<int>, v: seq<int>) {
    key + [SPACE] + v in strs
  }

  /**
    depmod's index and modprobe's search together: the answer is none exactly when no string
    inserted is the key, a space and a value, and otherwise it is the least such value.
   */
  method SearchInserted(strs: seq<seq<int>>, key: seq<int>)
    returns (ok: bool, file: seq<Byte>, r: Option<seq<int>>, ghost t: Index)
    requires forall s :: s in strs ==> CString(s)
    requires CString(key)
    ensures ok ==> (r.None? <==> forall v :: !ValueOf(strs, key, v))
    ensures ok && r.Some? ==> ValueOf(strs, key, r.value) && forall v :: ValueOf(strs, key, v) ==> LexLE(r.value, v)
    ensures ok <==> AllIndexable(strs) && |file| < OFFSET_LIMIT
    ensures FileIs(strs, file, t) && (AllIndexable(strs) && InLimit(strs) ==> ok)
  {
    hide Has, Compact, IndexOf, LexLE, Indexable, Size, Weight;
    r := None;
    ok, file, t := Build(strs);
    if ok { LimitHolds(strs, file, t); }
    ok := ok && |file| < OFFSET_LIMIT;
    if ok {
      r := Search(file, key, t);
      assert forall v :: HasValue(t, key, v) <==> ValueOf(strs, key, v);
    }
  }

  /** depmod's index written out as text: each string inserted once, in ascending order. */
  method DumpInserted(strs: seq<seq<int>>, prefix: seq<int>)
    returns (ok: bool, file: seq<Byte>, text: seq<int>, ghost lines: seq<seq<int>>, ghost t: Index)
    requires forall s :: s in strs ==> CString(s)
    ensures ok <==> AllIndexable(strs) && |file| < OFFSET_LIMIT
    ensures FileIs(strs, file, t) && (AllIndexable(strs) && InLimit(strs) ==> ok)
    ensures ok ==> text == Lines(prefix, lines) && Ascending(lines) && forall s :: s in lines <==> s in strs
    ensures ok && 10 !in prefix && (forall s :: s in strs ==> 10 !in s) ==> SplitLines(text) == Prepend(prefix, lines)
  {
    hide Has, Compact, IndexOf, LexLE, Indexable, Strings, Lines, SplitLines, Prepend, Ascending, Size, Weight;
    text, lines := [], [];
    ok, file, t := Build(strs);
    if ok { LimitHolds(strs, file, t); }
    ok := ok && |file| < OFFSET_LIMIT;
    if ok {
      var out := new Buffer();
      Dump(file, out, prefix, t);
      text, lines := out.bytes, Strings(t);
      assert [] + Lines(prefix, lines) == Lines(prefix, lines);
      if 10 !in prefix && forall s :: s in strs ==> 10 !in s { LinesBack(prefix, lines); }
    }
  }

  /**
    depmod's index of patterns and modprobe's wildcard search together: what is found depends on the
    strings inserted alone.  For a plain key that are the values of the strings whose pattern, as the
    search reads it, matches, once for each string, and the string it comes to last in front.
   */
  method SearchWildInserted(w: Matcher, strs: seq<seq<int>>, key: seq<int>)
    returns (ok: bool, file: seq<Byte>, list: seq<seq<int>>,
             ghost lines: seq<seq<int>>, ghost order: seq<seq<int>>, ghost t: Index)
    requires forall s :: s in strs ==> CString(s)
    requires CString(key)
    ensures ok <==> AllIndexable(strs) && |file| < OFFSET_LIMIT
    ensures FileIs(strs, file, t) && (AllIndexable(strs) && InLimit(strs) ==> ok)
    ensures ok ==> Ascending(lines) && forall s :: s in lines <==> s in strs
    ensures ok ==> multiset(list) == multiset(FoundAmong(w, key, strs, lines))
    ensures ok && PlainKey(key) ==> multiset(list) == multiset(Accepted(w, key, strs, lines))
    ensures ok ==> InWalkOrder(order) && forall s :: s in order <==> s in strs
    ensures ok && PlainKey(key) ==> list == Reversed(Accepted(w, key, strs, order))
  {
    hide Has, Compact, IndexOf, LexLE, Indexable, Strings, WalkStrings, Ascending, InWalkOrder, Size, Weight;
    hide Found, FoundAmong, Accepted, Walk, Reversed;
    list, lines, order := [], [], [];
    ok, file, t := Build(strs);
    if ok { LimitHolds(strs, file, t); }
    ok := ok && |file| < OFFSET_LIMIT;
    if ok {
      var out := SearchWild(w, file, key, t);
      list, lines, order := out.list, Strings(t), WalkStrings(t);
      StringsAscending(t);
      forall s: seq<int> ensures s in lines <==> Has(t, s) { StringsAre(t, s); }
      HaveSpaces(strs);
      FoundStrings(w, key, t, strs, lines);
      WalkOrdered(t);
      forall s: seq<int> ensures s in order <==> Has(t, s) { WalkStringsAre(t, s); }
      FoundStrings(w, key, t, strs, order);
      if PlainKey(key) {
        FoundPlain(w, key, strs, lines);
        FoundPlain(w, key, strs, order);
        WalkPlain(w, key, t);
      }
    }
  }

  lemma HaveSpaces(strs: seq<seq<int>>)
    requires AllIndexable(strs)
    ensures forall s :: s in strs ==> SPACE in s
  {}

  /** The index with the one string "? v", searched for "ab": the value is found, and the pattern does not match. */
  method QuestionRun() returns (ok: bool, list: seq<seq<int>>)
    ensures ok && list == [[118]] && Matching([97, 98], [[QUESTION, SPACE, 118]]) == []
  {
    hide Ascending, FoundAmong, Accepted, Matching;
    var s := [QUESTION, SPACE, 118];
    var file;
    ghost var lines, order, t;
    ok, file, list, lines, order, t := SearchWildInserted(Glob, [s], [97, 98]);
    assert Weight([s]) == 1027;
    OneLine(lines, s);
    QuestionFound();
    OneValue(list, [118]);
  }

  /** "a* x", "a* y", "a? w", "a[$-z] q" and "a% z": all match "a%". */
  function Five(): (ss: seq<seq<int>>)
    ensures |ss| == 5
  {
    [[97, STAR, SPACE, 120], [97, STAR, SPACE, 121], [97, QUESTION, SPACE, 119],
     [97, BRACKET, 36, 45, 122, 93, SPACE, 113], [97, 37, SPACE, 122]]
  }

  /** The search comes to '*', '?' and '[' before the character itself, and what it finds last comes first. */
  method OrderRun(strs: seq<seq<int>>) returns (ok: bool, list: seq<seq<int>>)
    requires Weight(strs) <= 10000 && forall s :: s in strs <==> s in Five()
    ensures ok && list == [[122], [113], [119], [121], [120]]
  {
    hide InWalkOrder, Accepted, Reversed, Five;
    FiveIndexable();
    var file;
    ghost var lines, order, t;
    ok, file, list, lines, order, t := SearchWildInserted(Glob, strs, [97, 37]);
    FiveInOrder();
    OrderUnique(order, Five());
    FiveAccepted(strs);
  }

  lemma FiveIndexable()
    ensures forall s :: s in Five() ==> CString(s) && Indexable(s)
  {}

  lemma FiveInOrder()
    ensures InWalkOrder(Five())
  {
    var ss := Five();
    XGoes();
    assert ss[0] == [97] + [STAR] + [SPACE, 120] && ss[1] == [97] + [STAR] + [SPACE, 121];
    assert ss[2] == [97] + [QUESTION] + [SPACE, 119];
    assert ss[3] == [97] + [BRACKET] + [36, 45, 122, 93, SPACE, 113] && ss[4] == [97] + [37] + [SPACE, 122];
    hide Goes;
    forall a: seq<int>, b: seq<int>, c, d | c != d && CharGoes(c, d) ensures Goes([97] + [c] + a, [97] + [d] + b) {
      GoesParted([97], c, a, d, b);
    }
  }

  lemma XGoes()
    ensures Goes([97, STAR, SPACE, 120], [97, STAR, SPACE, 121])
  {
    GoesSorted([97], STAR, [SPACE, 120], [SPACE, 121]);
    assert [97] + [STAR] + [SPACE, 120] == [97, STAR, SPACE, 120];
    assert [97] + [STAR] + [SPACE, 121] == [97, STAR, SPACE, 121];
    LexParts([SPACE], 120, [], 121, []);
    assert [SPACE] + [120] + [] == [SPACE, 120] && [SPACE] + [121] + [] == [SPACE, 121];
    assert [SPACE, 120][1] != [SPACE, 121][1];
  }

  lemma OneLine(lines: seq<seq<int>>, s: seq<int>)
    requires Ascending(lines) && forall x :: x in lines <==> x in [s]
    ensures lines == [s]
  {
    hide LexLE;
    assert s in lines;
    forall i | 0 <= i < |lines| ensures lines[i] == s { assert lines[i] in lines; }
    assert |lines| > 1 ==> LexLT(lines[0], lines[1]);
  }

  lemma OneValue(list: seq<seq<int>>, v: seq<int>)
    requires multiset(list) == multiset([v])
    ensures list == [v]
  {
    assert |list| == |multiset(list)| == 1;
    assert list[0] in multiset(list);
  }

  lemma QuestionFound()
    ensures var ss := [[QUESTION, SPACE, 118]];
      Accepted(Glob, [97, 98], ss, ss) == [[118]] && Matching([97, 98], ss) == []
  {
    var s: seq<int> := [QUESTION, SPACE, 118];
    assert WildAt(s) == 0;
    assert AsRead(s, true) == [STAR, SPACE, 118];
    assert KeyLen(s) == 1 && s[2..] == [118];
    assert KeyLen([STAR, SPACE, 118]) == 1;
    assert KeyOf(s) == [QUESTION] && KeyOf([STAR, SPACE, 118]) == [STAR];
    assert [s][1..] == [];
    assert Glob([], []);
    var ab: seq<int> := [97, 98];
    assert ab[1..] == [98] && ab[1..][1..] == [];
    assert [STAR][1..] == [] && [QUESTION][1..] == [];
    assert Glob([STAR], []);
    assert Glob([STAR], [98]);
    assert Glob([STAR], ab);
    assert !Glob([], [98]);
    assert !Glob([QUESTION], ab);
  }

  lemma FiveAccepted(strs: seq<seq<int>>)
    ensures Reversed(Accepted(Glob, [97, 37], strs, Five())) == [[122], [113], [119], [121], [120]]
  {
    hide Taken, Accepted, Five, Reversed;
    FiveTaken();
    AcceptedAll(strs, Five(), [120, 121, 119, 113, 122]);
    assert Listed([120, 121, 119, 113, 122]) == [[120], [121], [119], [113], [122]];
    FiveReversed();
  }

  function Listed(vs: seq<int>): (r: seq<seq<int>>)
    ensures |r| == |vs| && forall i :: 0 <= i < |vs| ==> r[i] == [vs[i]]
  {
    if vs == [] then [] else [[vs[0]]] + Listed(vs[1..])
  }

  lemma FiveReversed()
    ensures Reversed([[120], [121], [119], [113], [122]]) == [[122], [113], [119], [121], [120]]
  {}

  /** The search takes the string for the key "a%", and v is its value. */
  predicate Taken(s: seq<int>, v: int)
  {
    (forall edge :: FnMatch(Glob, KeyOf(AsRead(s, edge)), [97, 37])) && ValOf(s) == [v]
  }

  lemma AcceptedAll(strs: seq<seq<int>>, ss: seq<seq<int>>, vs: seq<int>)
    requires |ss| == |vs| && forall i :: 0 <= i < |ss| ==> Taken(ss[i], vs[i])
    ensures Accepted(Glob, [97, 37], strs, ss) == Listed(vs)
  {
    if ss != [] {
      hide FnMatch, KeyOf, AsRead, ValOf, EdgeAt;
      AcceptedAll(strs, ss[1..], vs[1..]) by { hide Taken, Accepted; }
    }
  }

  lemma FiveTaken()
    ensures var ss := Five();
      Taken(ss[0], 120) && Taken(ss[1], 121) && Taken(ss[2], 119) && Taken(ss[3], 113) && Taken(ss[4], 122)
  {
    hide Taken;
    OneTaken([STAR], 120);
    OneTaken([STAR], 121);
    OneTaken([QUESTION], 119);
    OneTaken([BRACKET, 36, 45, 122, 93], 113);
    OneTaken([37], 122);
    var ss := Five();
    assert ss[0] == [97] + [STAR] + [SPACE, 120] && ss[1] == [97] + [STAR] + [SPACE, 121];
    assert ss[2] == [97] + [QUESTION] + [SPACE, 119];
    assert ss[3] == [97] + [BRACKET, 36, 45, 122, 93] + [SPACE, 113] && ss[4] == [97] + [37] + [SPACE, 122];
  }

  /** The key "a%" against "a" and one more item. */
  lemma OneTaken(p: seq<int>, v: int)
    requires p == [STAR] || p == [QUESTION] || p == [BRACKET, 36, 45, 122, 93] || p == [37]
    ensures Taken([97] + p + [SPACE, v], v)
  {
    hide FnMatch, KeyOf, AsRead;
    var s := [97] + p + [SPACE, v];
    forall edge ensures FnMatch(Glob, KeyOf(AsRead(s, edge)), [97, 37]) {
      var q := if edge && p == [QUESTION] then [STAR] else p;
      OneRead(s, p, q, v, edge);
      OneMatches(q);
    }
    assert s == ([97] + p) + [SPACE, v] && [SPACE, v] == [SPACE] + [v];
    KeyPrefix([97] + p, [SPACE, v]);
    KeySpace([v]);
  }

  lemma OneRead(s: seq<int>, p: seq<int>, q: seq<int>, v: int, edge: bool)
    requires s == [97] + p + [SPACE, v]
    requires p == [STAR] || p == [QUESTION] || p == [BRACKET, 36, 45, 122, 93] || p == [37]
    requires q == if edge && p == [QUESTION] then [STAR] else p
    ensures KeyOf(AsRead(s, edge)) == [97] + q
  {
    hide WildAt, AsRead, KeyOf;
    var r := p + [SPACE, v];
    assert s == [97] + r;
    ReadLater(97, r, edge);
    ItemRead(p, v, edge);
    ItemKey(q, v);
  }

  lemma ItemKey(q: seq<int>, v: int)
    requires SPACE !in q
    ensures KeyOf([97] + (q + [SPACE, v])) == [97] + q
  {
    hide KeyOf;
    KeyPrefix([97] + q, [SPACE, v]);
    assert [97] + (q + [SPACE, v]) == ([97] + q) + [SPACE, v];
    assert [SPACE, v] == [SPACE] + [v];
    KeySpace([v]);
    assert KeyOf([SPACE, v]) == [];
  }

  lemma OneMatches(q: seq<int>)
    requires q == [STAR] || q == [QUESTION] || q == [BRACKET, 36, 45, 122, 93] || q == [37]
    ensures FnMatch(Glob, [97] + q, [97, 37])
  {
    assert ([97] + q)[1..] == q && [97, 37][1..] == [37];
    ItemMatches(q);
  }

  lemma ItemRead(p: seq<int>, v: int, edge: bool)
    requires p == [STAR] || p == [QUESTION] || p == [BRACKET, 36, 45, 122, 93] || p == [37]
    ensures AsRead(p + [SPACE, v], edge) == (if edge && p == [QUESTION] then [STAR] else p) + [SPACE, v]
  {
    var r := p + [SPACE, v];
    if p == [37] {
      ReadLater(37, [SPACE, v], edge);
      assert WildAt([SPACE, v]) == 0;
    } else {
      ReadFirst(r, edge);
      assert r == [p[0]] + r[1..];
    }
  }

  lemma ItemMatches(p: seq<int>)
    requires p == [STAR] || p == [QUESTION] || p == [BRACKET, 36, 45, 122, 93] || p == [37]
    ensures FnMatch(Glob, p, [37])
  {
    if p == [STAR] {
      assert [37][1..] == [] && p[1..] == [] && FnMatch(Glob, [], []);
      assert Glob([], []) && Glob([STAR], []);
    } else if p == [BRACKET, 36, 45, 122, 93] {
      BracketMatches();
    } else {
      assert [37][1..] == [] && p[1..] == [];
      assert Glob([], []) && FnMatch(Glob, [], []);
    }
  }

  lemma BracketMatches()
    ensures FnMatch(Glob, [BRACKET, 36, 45, 122, 93], [37])
  {
    var p: seq<int> := [BRACKET, 36, 45, 122, 93];
    assert CloseAt(p, 4) == 4;
    assert CloseAt(p, 3) == 4;
    assert CloseAt(p, 2) == 4;
    assert p[1..4] == [36, 45, 122];
    assert [36, 45, 122][3..] == [];
    assert p[5..] == [] && [37][1..] == [];
    Rest(p, 5, [37]);
  }

  // ----- one file byte by byte -----

  /** The index file with the strings "a v" and "b w". */
  const SMALL_INDEX: seq<Byte> := [
    0xB0, 0x07, 0xFA, 0x57, // magic number
    0x20, 0x00, 0x00, 0x0E, // the root is at 14 and has children
    0x20, 0x76, 0x00,       // at 8: the rest " v"
    0x20, 0x77, 0x00,       // at 11: the rest " w"
    0x61, 0x62,             // at 14: children from 'a' to 'b'
    0xC0, 0x00, 0x00, 0x08, // child 'a' is at 8, has a piece and ends a string
    0xC0, 0x00, 0x00, 0x0B] // so does child 'b' at 11

  function SmallLeaf(c: Ch): Trie<()> { Trie((), [SPACE, c], true, map[]) }

  function SmallTrie(): Trie<()> { Trie((), [], false, map[97 := SmallLeaf(118), 98 := SmallLeaf(119)]) }

  lemma SmallWords()
    ensures WordAt(SMALL_INDEX, 0) == INDEX_MAGIC && WordAt(SMALL_INDEX, 4) == 0x2000000E
    ensures WordAt(SMALL_INDEX, 16) == 0xC0000008 && WordAt(SMALL_INDEX, 20) == 0xC000000B
  {
    var f := SMALL_INDEX;
    assert f[0..4] == [0xB0, 0x07, 0xFA, 0x57];
    assert f[4..8] == [0x20, 0x00, 0x00, 0x0E];
    assert f[16..20] == [0xC0, 0x00, 0x00, 0x08];
    assert f[20..24] == [0xC0, 0x00, 0x00, 0x0B];
  }

  lemma SmallLeavesStored()
    ensures Stored(SMALL_INDEX, 0xC0000008, SmallLeaf(118)) && Stored(SMALL_INDEX, 0xC000000B, SmallLeaf(119))
  {
    var f := SMALL_INDEX;
    assert f[8..11] == [0x20, 0x76, 0x00] == Terminated(SmallLeaf(118).prefix);
    assert f[11..14] == [0x20, 0x77, 0x00] == Terminated(SmallLeaf(119).prefix);
    assert AfterPrefix(0xC0000008, SmallLeaf(118)) == 11;
    assert AfterPrefix(0xC000000B, SmallLeaf(119)) == 14;
  }

  /** It is an index in the layout that index_write writes and index_read reads. */
  lemma SmallIndex()
    ensures IndexOf(SMALL_INDEX, SmallTrie())
  {
    var f, t, o := SMALL_INDEX, SmallTrie(), 0x2000000E;
    SmallWords();
    SmallLeavesStored();
    assert 97 in t.kids && 98 in t.kids;
    assert AfterPrefix(o, t) == 14 && f[14] == 97 && f[15] == 98;
    assert StoredNode(f, o, t);
    hide WordAt, SmallLeaf;
    forall k | InRange(f, o, t, k) ensures KidStored(f, o, t, k) {
      assert k == 97 || k == 98;
      assert KidOffset(f, o, t, k) == if k == 97 then 0xC0000008 else 0xC000000B;
    }
  }

  /** modprobe's search finds "w" for "b" in it. */
  method SmallSearch() returns (r: Option<seq<int>>)
    ensures r == Some([119])
  {
    hide IndexOf, LexLE;
    SmallIndex();
    SmallValues();
    assert HasValue(SmallTrie(), [98], [119]);
    r := Search(SMALL_INDEX, [98], SmallTrie());
  }

  lemma SmallValues()
    ensures Compact(SmallTrie()) && forall v: seq<int> :: HasValue(SmallTrie(), [98], v) <==> v == [119]
  {
    var t := SmallTrie();
    forall v: seq<int> ensures HasValue(t, [98], v) <==> v == [119] {
      assert [98] + [SPACE] + v == t.prefix + [98] + ([SPACE] + v);
      HasKid(t, 98, [SPACE] + v);
      HasLeaf((), [SPACE, 119], [SPACE] + v);
      assert ([SPACE] + v)[1..] == v;
      assert [SPACE] + [119] == [SPACE, 119];
    }
  }
}
