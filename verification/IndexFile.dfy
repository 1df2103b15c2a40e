/**
  The index file of index.c: how depmod writes a trie in post-order, with flag bits in the
  offsets, and how modprobe reads its nodes back.
 */
module IndexFile {
  import opened Sequences
  import opened TrieSpec
  import opened IndexTree

  const INDEX_MAGIC := 0xB007FA57
  const NODE_PREFIX := 0x80000000
  const NODE_ENDPOINT := 0x40000000
  const NODE_CHILDS := 0x20000000
  /** Offsets proper stay below this; the flags are above. */
  const OFFSET_LIMIT := 0x10000000
  const WORD := 0x1_0000_0000

  /** A file being written. */
  class File {
    var bytes: seq<Byte>

    constructor ()
      ensures bytes == []
    {
      bytes := [];
    }
  }

  // ----- words -----

  function ToWord(n: int): (w: seq<Byte>)
    requires 0 <= n < WORD
    ensures |w| == 4 && FromWord(w) == n
  {
    var a := n / 256;
    var b := a / 256;
    [b / 256, b % 256, a % 256, n % 256]
  }

  function FromWord(w: seq<Byte>): (n: int)
    requires |w| == 4
    ensures 0 <= n < WORD
  {
    ((w[0] as int * 256 + w[1] as int) * 256 + w[2] as int) * 256 + w[3] as int
  }

  /** Most significant byte first. */
  lemma WordBytes(n: int)
    requires 0 <= n < WORD
    ensures var w := ToWord(n);
      && n == w[0] as int * 0x1000000 + w[1] as int * 0x10000 + w[2] as int * 0x100 + w[3] as int
      && w[3] == n % 256
  {}

  lemma WordMeans(w: seq<Byte>)
    requires |w| == 4
    ensures FromWord(w) == w[0] as int * 0x1000000 + w[1] as int * 0x10000 + w[2] as int * 0x100 + w[3] as int
  {}

  function WordAt(file: seq<Byte>, at: nat): (n: int)
    requires at + 4 <= |file|
    ensures 0 <= n < WORD
  {
    FromWord(file[at..at + 4])
  }

  // ----- offsets with flags -----

  predicate Bit(offset: int, flag: int)
    requires flag > 0
  {
    offset / flag % 2 == 1
  }

  /** C's `offset |= flag` for a single bit. */
  function SetBit(offset: int, flag: int): int
    requires flag > 0
  {
    if Bit(offset, flag) then offset else offset + flag
  }

  function Flagged(position: int, prefix: bool, childs: bool, endpoint: bool): int {
    var a := if prefix then SetBit(position, NODE_PREFIX) else position;
    var b := if childs then SetBit(a, NODE_CHILDS) else a;
    if endpoint then SetBit(b, NODE_ENDPOINT) else b
  }

  /** Below the limit, the flags and the position can be told apart. */
  lemma FlaggedParts(position: int, prefix: bool, childs: bool, endpoint: bool)
    requires 0 <= position < OFFSET_LIMIT
    ensures var off := Flagged(position, prefix, childs, endpoint);
      && 0 <= off < WORD && off % OFFSET_LIMIT == position
      && Bit(off, NODE_PREFIX) == prefix && Bit(off, NODE_CHILDS) == childs && Bit(off, NODE_ENDPOINT) == endpoint
  {
    var f := (if prefix then 8 else 0) + (if endpoint then 4 else 0) + (if childs then 2 else 0);
    assert Flagged(position, prefix, childs, endpoint) == position + f * OFFSET_LIMIT;
  }

  // ----- a trie in a file -----

  /** Where the part after the prefix starts. */
  function AfterPrefix<A>(offset: int, t: Trie<A>): int {
    offset % OFFSET_LIMIT + if t.prefix == [] then 0 else |t.prefix| + 1
  }

  /** A C string with its NUL. */
  function Terminated(s: seq<Ch>): (r: seq<Byte>)
    ensures |r| == |s| + 1 && (forall i :: 0 <= i < |s| ==> r[i] == s[i]) && r[|s|] == 0
  {
    s + [0 as int]
  }

  /** The node's own bytes and flags. */
  ghost predicate StoredNode<A>(file: seq<Byte>, offset: int, t: Trie<A>) {
    var p, q := offset % OFFSET_LIMIT, AfterPrefix(offset, t);
    && 0 <= offset < WORD && 8 <= p <= q <= |file|
    && Bit(offset, NODE_PREFIX) == (t.prefix != [])
    && Bit(offset, NODE_ENDPOINT) == t.isEnd
    && Bit(offset, NODE_CHILDS) == (t.kids != map[])
    && (t.prefix != [] ==> file[p..q] == Terminated(t.prefix))
    && (t.kids != map[] ==> q + 2 <= |file| && Span(t.kids.Keys, file[q], file[q + 1])
                            && q + 2 + 4 * (file[q + 1] as int - file[q] as int + 1) <= |file|)
  }

  /** The offset stored for child k. */
  function KidOffset<A>(file: seq<Byte>, offset: int, t: Trie<A>, k: int): int
    requires StoredNode(file, offset, t) && InRange(file, offset, t, k)
  {
    var q := AfterPrefix(offset, t);
    WordAt(file, q + 2 + 4 * (k - file[q]))
  }

  /** The range of characters for which the node stores an offset. */
  ghost predicate InRange<A>(file: seq<Byte>, offset: int, t: Trie<A>, k: int)
    requires StoredNode(file, offset, t)
  {
    t.kids != map[] && var q := AfterPrefix(offset, t); file[q] <= k <= file[q + 1]
  }

  ghost predicate KidStored<A>(file: seq<Byte>, offset: int, t: Trie<A>, k: int)
    requires StoredNode(file, offset, t) && InRange(file, offset, t, k)
    decreases t, 0
  {
    var o := KidOffset(file, offset, t, k);
    if k in t.kids then Stored(file, o, Child(t, k)) else o == 0
  }

  /** The file holds the trie at an offset. */
  ghost predicate Stored<A>(file: seq<Byte>, offset: int, t: Trie<A>)
    decreases t, 1
  {
    StoredNode(file, offset, t) && forall k :: InRange(file, offset, t, k) ==> KidStored(file, offset, t, k)
  }

  /** Files that agree, but for the first eight bytes and what follows. */
  ghost predicate Extends(file: seq<Byte>, file': seq<Byte>) {
    8 <= |file| <= |file'| && forall i :: 8 <= i < |file| ==> file[i] == file'[i]
  }

  lemma {:induction false} StoredExtends<A>(file: seq<Byte>, file': seq<Byte>, offset: int, t: Trie<A>)
    requires Stored(file, offset, t) && Extends(file, file')
    ensures Stored(file', offset, t)
    decreases t
  {
    NodeExtends(file, file', offset, t);
    forall k | InRange(file', offset, t, k) ensures KidStored(file', offset, t, k) {
      KidExtends(file, file', offset, t, k);
      assert KidStored(file, offset, t, k);
      if k in t.kids {
        StoredExtends(file, file', KidOffset(file, offset, t, k), Child(t, k));
      }
    }
  }

  lemma NodeExtends<A>(file: seq<Byte>, file': seq<Byte>, offset: int, t: Trie<A>)
    requires StoredNode(file, offset, t) && Extends(file, file')
    ensures StoredNode(file', offset, t)
  {
    var p, q := offset % OFFSET_LIMIT, AfterPrefix(offset, t);
    assert file[p..q] == file'[p..q];
  }

  lemma KidExtends<A>(file: seq<Byte>, file': seq<Byte>, offset: int, t: Trie<A>, k: int)
    requires StoredNode(file, offset, t) && StoredNode(file', offset, t) && Extends(file, file')
    ensures InRange(file, offset, t, k) <==> InRange(file', offset, t, k)
    ensures InRange(file, offset, t, k) ==> KidOffset(file', offset, t, k) == KidOffset(file, offset, t, k)
  {
    if InRange(file, offset, t, k) {
      var q := AfterPrefix(offset, t);
      var w := q + 2 + 4 * (k - file[q]);
      assert file[w..w + 4] == file'[w..w + 4];
    }
  }

  // ----- writing -----

  /** Entry m of the child table: the offset of the child for character first + m, or 0. */
  ghost predicate KidWritten<A>(file: seq<Byte>, words: seq<Byte>, m: nat, first: int, t: Trie<A>)
    requires 4 * m + 4 <= |words|
  {
    var k := first + m;
    if k in t.kids then |file| < OFFSET_LIMIT ==> Stored(file, WordAt(words, 4 * m), Child(t, k))
    else WordAt(words, 4 * m) == 0
  }

  function PrefixBytes(prefix: seq<Ch>): seq<Byte> {
    if prefix == [] then [] else Terminated(prefix)
  }

  function ChildBytes(any: bool, first: Byte, last: Byte, words: seq<Byte>): seq<Byte> {
    if any then [first, last] + words else []
  }

  lemma WordInside(a: seq<Byte>, words: seq<Byte>, m: nat)
    requires 4 * m + 4 <= |words|
    ensures WordAt(a + words, |a| + 4 * m) == WordAt(words, 4 * m)
  {
    assert (a + words)[|a| + 4 * m..|a| + 4 * m + 4] == words[4 * m..4 * m + 4];
  }

  function NodeBytes<A>(t: Trie<A>, first: Byte, last: Byte, words: seq<Byte>): seq<Byte> {
    PrefixBytes(t.prefix) + ChildBytes(t.kids != map[], first, last, words)
  }

  function NodeOffset<A>(position: int, t: Trie<A>): int {
    Flagged(position, t.prefix != [], t.kids != map[], t.isEnd)
  }

  /** The child table fits the children. */
  ghost predicate Table<A>(t: Trie<A>, first: Byte, last: Byte, words: seq<Byte>) {
    t.kids != map[] ==> Span(t.kids.Keys, first, last) && |words| == 4 * (last as int - first as int + 1)
  }

  /** The layout of the node's bytes behind what was written before. */
  lemma NodeLayout<A>(base: seq<Byte>, t: Trie<A>, first: Byte, last: Byte, words: seq<Byte>)
    ensures var file, p, q := base + NodeBytes(t, first, last, words), |base|, |base + PrefixBytes(t.prefix)|;
      && q == p + (if t.prefix == [] then 0 else |t.prefix| + 1) && p <= q <= |file|
      && (t.prefix != [] ==> file[p..q] == Terminated(t.prefix))
      && (t.kids != map[] ==> |file| == q + 2 + |words| && file[q] == first && file[q + 1] == last)
  {
    var head := base + PrefixBytes(t.prefix);
    var tail := ChildBytes(t.kids != map[], first, last, words);
    var file := base + NodeBytes(t, first, last, words);
    assert file == head + tail;
    assert file[|base|..|head|] == PrefixBytes(t.prefix);
    if t.kids != map[] {
      assert tail[0] == first && tail[1] == last;
    }
  }

  lemma NodeStored<A>(base: seq<Byte>, t: Trie<A>, first: Byte, last: Byte, words: seq<Byte>)
    requires 8 <= |base| < OFFSET_LIMIT && Table(t, first, last, words)
    ensures var file, offset := base + NodeBytes(t, first, last, words), NodeOffset(|base|, t);
      && StoredNode(file, offset, t)
      && (t.kids != map[] ==>
          var q := AfterPrefix(offset, t);
          file[q] == first && file[q + 1] == last && q == |base + PrefixBytes(t.prefix)|)
  {
    hide Flagged, Span, SetBit, Bit, NodeBytes, PrefixBytes;
    FlaggedParts(|base|, t.prefix != [], t.kids != map[], t.isEnd);
    NodeLayout(base, t, first, last, words);
  }

  lemma KidOffsetIs<A>(base: seq<Byte>, t: Trie<A>, first: Byte, last: Byte, words: seq<Byte>, m: nat)
    requires 8 <= |base| < OFFSET_LIMIT && Table(t, first, last, words) && t.kids != map[]
    requires m <= last as int - first as int
    ensures var file, offset := base + NodeBytes(t, first, last, words), NodeOffset(|base|, t);
      && StoredNode(file, offset, t) && InRange(file, offset, t, first as int + m)
      && KidOffset(file, offset, t, first as int + m) == WordAt(words, 4 * m)
  {
    NodeStored(base, t, first, last, words);
    hide StoredNode, Span, NodeOffset;
    var head := base + PrefixBytes(t.prefix) + [first, last];
    assert base + NodeBytes(t, first, last, words) == head + words;
    WordInside(head, words, m);
  }

  /** A node written behind its children. */
  lemma NodeWritten<A>(base: seq<Byte>, t: Trie<A>, first: Byte, last: Byte, words: seq<Byte>)
    requires 8 <= |base| < OFFSET_LIMIT && Table(t, first, last, words)
    requires t.kids != map[] ==> forall m :: 0 <= m <= last as int - first as int ==>
      KidWritten(base, words, m, first, t)
    ensures Stored(base + NodeBytes(t, first, last, words), NodeOffset(|base|, t), t)
  {
    hide StoredNode, Span, NodeOffset, NodeBytes;
    var file, offset := base + NodeBytes(t, first, last, words), NodeOffset(|base|, t);
    NodeStored(base, t, first, last, words);
    forall k | InRange(file, offset, t, k) ensures KidStored(file, offset, t, k) {
      var m := k - first as int;
      KidOffsetIs(base, t, first, last, words, m);
      assert KidWritten(base, words, m, first, t);
      if k in t.kids {
        StoredExtends(base, file, WordAt(words, 4 * m), Child(t, k));
      }
    }
  }

  /** A further child has been written and its offset entered in the table. */
  lemma KidsKept<A>(before: seq<Byte>, file: seq<Byte>, words: seq<Byte>, kid: int, i: nat, first: int, t: Trie<A>)
    requires |words| == 4 * i && 8 <= |before| && before <= file && 0 <= kid < WORD
    requires forall m :: 0 <= m < i ==> KidWritten(before, words, m, first, t)
    requires if first + i in t.kids then |file| < OFFSET_LIMIT ==> Stored(file, kid, Child(t, first + i)) else kid == 0
    ensures forall m :: 0 <= m <= i ==> KidWritten(file, words + ToWord(kid), m, first, t)
  {
    var w := ToWord(kid);
    assert (words + w)[4 * i..4 * i + 4] == w;
    forall m | 0 <= m < i ensures KidWritten(file, words + w, m, first, t) {
      assert KidWritten(before, words, m, first, t);
      assert (words + w)[4 * m..4 * m + 4] == words[4 * m..4 * m + 4];
      if first + m in t.kids && |file| < OFFSET_LIMIT {
        StoredExtends(before, file, WordAt(words, 4 * m), Child(t, first + m));
      }
    }
  }

  // ----- how long the file gets -----

  /** The number of characters from the first to the last one with a child. */
  ghost function Width(keys: set<Ch>): nat {
    if keys != {} && exists first, last :: Span(keys, first, last) then
      var first: nat, last: nat :| Span(keys, first, last);
      last - first + 1
    else 0
  }

  lemma WidthIs(keys: set<Ch>, first: nat, last: nat)
    requires Span(keys, first, last)
    ensures Width(keys) == if keys == {} then 0 else last - first + 1
  {}

  ghost function TableSize(keys: set<Ch>): nat {
    if keys == {} then 0 else 2 + 4 * Width(keys)
  }

  /** The bytes of a trie in the file. */
  ghost function Size<A>(t: Trie<A>): nat
    decreases t, CHILDMAX
  {
    |PrefixBytes(t.prefix)| + TableSize(t.kids.Keys) + KidsSize(t, 1)
  }

  /** Those of the children from character k on. */
  ghost function KidsSize<A>(t: Trie<A>, k: int): nat
    requires 1 <= k <= CHILDMAX
    decreases t, CHILDMAX - k
  {
    if k == CHILDMAX then 0 else (if k in t.kids then Size(Child(t, k)) else 0) + KidsSize(t, k + 1)
  }

  lemma {:induction false} KidsSizeSkip<A>(t: Trie<A>, k: int, m: int)
    requires 1 <= k <= m <= CHILDMAX && forall x :: k <= x < m ==> x !in t.kids
    ensures KidsSize(t, k) == KidsSize(t, m)
    decreases m - k
  {
    if k < m { KidsSizeSkip(t, k + 1, m); }
  }

  lemma KidsSizeSpan<A>(t: Trie<A>, first: nat, last: nat)
    requires Span(t.kids.Keys, first, last) && t.kids != map[]
    ensures 1 <= first <= last < CHILDMAX
    ensures KidsSize(t, 1) == KidsSize(t, first) && KidsSize(t, last + 1) == 0
  {
    SpanBounds(t.kids.Keys, first, last);
    KidsSizeSkip(t, 1, first);
    KidsSizeSkip(t, last + 1, CHILDMAX);
  }

  lemma KidRep(t: Index, k: Ch)
    requires Rep(t)
    ensures |t.at.children| == CHILDMAX
    ensures if k in t.kids then t.at.children[k] == t.kids[k].at && Rep(t.kids[k]) else t.at.children[k] == null
  {}

  /** Writes the children and collects their offsets. */
  method WriteKids(node: IndexNode, out: File, ghost t: Index) returns (words: seq<Byte>)
    requires Rep(t) && t.at == node && 8 <= |out.bytes| && t.kids != map[]
    modifies out
    ensures old(out.bytes) <= out.bytes && |words| == 4 * (node.last - node.first + 1)
    ensures |out.bytes| == old(|out.bytes|) + KidsSize(t, 1)
    ensures forall m :: 0 <= m <= node.last - node.first ==> KidWritten(out.bytes, words, m, node.first, t)
    decreases t, 0
  {
    hide Stored, ToWord, Span, Rep, KidWritten, Size;
    RepParts(t);
    KidsSizeSpan(t, node.first, node.last);
    assert allocated(Nodes(t));
    words := [];
    var count := node.last - node.first + 1;
    var i := 0;
    while i < count
      invariant 0 <= i <= count && |words| == 4 * i && old(out.bytes) <= out.bytes
      invariant |out.bytes| + KidsSize(t, node.first + i) == old(|out.bytes|) + KidsSize(t, 1)
      invariant forall m :: 0 <= m < i ==> KidWritten(out.bytes, words, m, node.first, t)
      invariant Rep(t)
    {
      var k: Ch := node.first + i;
      KidRep(t, k);
      var child := node.children[k];
      var kid := 0;
      ghost var before := out.bytes;
      if child != null {
        kid := WriteNode(child, out, t.kids[k]);
      }
      KidsKept(before, out.bytes, words, kid, i, node.first, t);
      words := words + ToWord(kid);
      i := i + 1;
    }
  }

  /** Appends a node's own bytes; the offset gets the flags for what is there. */
  method AppendNode(node: IndexNode, any: bool, words: seq<Byte>, out: File) returns (offset: int)
    requires node.first < 256 && node.last < 256
    modifies out
    ensures out.bytes == old(out.bytes) + (PrefixBytes(node.prefix) + ChildBytes(any, node.first, node.last, words))
    ensures offset == Flagged(|old(out.bytes)|, node.prefix != [], any, node.isEndpoint)
  {
    hide SetBit, Terminated;
    offset := |out.bytes|;
    if node.prefix != [] {
      out.bytes := out.bytes + Terminated(node.prefix);
      offset := SetBit(offset, NODE_PREFIX);
    }
    if any {
      out.bytes := out.bytes + ([node.first as int, node.last] + words);
      offset := SetBit(offset, NODE_CHILDS);
    }
    if node.isEndpoint {
      offset := SetBit(offset, NODE_ENDPOINT);
    }
  }

  lemma SpanBounds(keys: set<Ch>, first: nat, last: nat)
    requires Span(keys, first, last)
    ensures keys != {} ==> 0 < first <= last < CHILDMAX
    ensures first <= CHILDMAX && last < CHILDMAX && (keys == {} <==> first == CHILDMAX)
  {}

  lemma NodeSize<A>(t: Trie<A>, first: nat, last: nat, words: seq<Byte>)
    requires Span(t.kids.Keys, first, last) && (t.kids != map[] ==> |words| == 4 * (last - first + 1))
    ensures first < 256 && last < 256
    ensures |ChildBytes(t.kids != map[], first, last, words)| == TableSize(t.kids.Keys)
    ensures t.kids == map[] ==> KidsSize(t, 1) == 0
  {
    SpanBounds(t.kids.Keys, first, last);
    WidthIs(t.kids.Keys, first, last);
    if t.kids == map[] {
      assert t.kids.Keys == {};
      KidsSizeSkip(t, 1, CHILDMAX);
    }
  }

  /** Writes a trie, children first, and returns its offset with the flags. */
  method WriteNode(node: IndexNode, out: File, ghost t: Index) returns (offset: int)
    requires Rep(t) && t.at == node && 8 <= |out.bytes|
    modifies out
    ensures old(out.bytes) <= out.bytes && 0 <= offset < WORD
    ensures |out.bytes| == old(|out.bytes|) + Size(t)
    ensures |out.bytes| < OFFSET_LIMIT ==> Stored(out.bytes, offset, t)
    decreases t, 1
  {
    hide Stored, Rep, Span, KidWritten, Flagged, Bit, Nodes, ChildBytes;
    RepParts(t);
    SpanBounds(t.kids.Keys, node.first, node.last);
    assert allocated(Nodes(t));
    var words: seq<Byte> := [];
    var any := node.first < CHILDMAX;
    if any {
      words := WriteKids(node, out, t);
    }
    ghost var base := out.bytes;
    NodeSize(t, node.first, node.last, words);
    offset := AppendNode(node, any, words, out);
    if |out.bytes| < OFFSET_LIMIT {
      FlaggedParts(|base|, t.prefix != [], any, t.isEnd);
      NodeWritten(base, t, node.first, node.last, words);
    }
    offset := offset % WORD;
  }

  /** A whole index file. */
  ghost predicate IndexOf<A>(file: seq<Byte>, t: Trie<A>) {
    8 <= |file| && WordAt(file, 0) == INDEX_MAGIC && Stored(file, WordAt(file, 4), t)
  }

  lemma MagicBytes()
    ensures ToWord(INDEX_MAGIC) == [0xB0, 0x07, 0xFA, 0x57]
  {}

  /** Writes the magic number, room for the root's offset, the trie, and then that offset. */
  method IndexWrite(node: IndexNode, out: File, ghost t: Index)
    requires Rep(t) && t.at == node && out.bytes == []
    modifies out
    ensures |out.bytes| == 8 + Size(t) && out.bytes[..4] == [0xB0, 0x07, 0xFA, 0x57]
    ensures |out.bytes| < OFFSET_LIMIT ==> IndexOf(out.bytes, t)
  {
    hide Stored, ToWord, Rep, Size;
    assert allocated(Nodes(t));
    out.bytes := out.bytes + ToWord(INDEX_MAGIC);
    var initial := |out.bytes|;
    out.bytes := out.bytes + ToWord(0);
    ghost var head := out.bytes;
    var u := WriteNode(node, out, t);
    ghost var dumped := out.bytes;
    assert dumped[..4] == head[..4] == ToWord(INDEX_MAGIC);
    out.bytes := out.bytes[..initial] + ToWord(u) + out.bytes[initial + 4..];
    MagicBytes();
    assert out.bytes[0..4] == ToWord(INDEX_MAGIC) && out.bytes[4..8] == ToWord(u);
    if |out.bytes| < OFFSET_LIMIT {
      StoredExtends(dumped, out.bytes, u, t);
    }
  }

  // ----- reading -----

  datatype NodeF = NodeF(prefix: seq<int>, isEndpoint: bool, first: nat, last: nat, children: seq<nat>)

  datatype ReadResult = Fatal | Null | Node(node: NodeF)

  /** The child offsets cover the range. */
  predicate Complete(n: NodeF) {
    if n.first <= n.last then |n.children| == n.last - n.first + 1 else n.children == []
  }

  /** The node read is the root of t, and the offsets it holds lead to t's children. */
  ghost predicate Matches<A>(file: seq<Byte>, n: NodeF, t: Trie<A>) {
    && n.prefix == t.prefix && n.isEndpoint == t.isEnd && Span(t.kids.Keys, n.first, n.last) && Complete(n)
    && forall k: int :: n.first <= k <= n.last ==> KidMatches(file, n, t, k)
  }

  ghost predicate KidMatches<A>(file: seq<Byte>, n: NodeF, t: Trie<A>, k: int)
    requires Complete(n) && n.first <= k <= n.last
  {
    var o := n.children[k - n.first];
    if k in t.kids then Stored(file, o, Child(t, k)) else o == 0
  }

  /** What a scan for the first NUL from `start` finds: the characters before it and the position behind it. */
  ghost predicate Scanned(file: seq<Byte>, start: nat, ok: bool, s: seq<int>, pos: nat) {
    if ok then
      && start < pos <= |file| && file[pos - 1] == 0 && s == file[start..pos - 1]
      && forall i :: start <= i < pos - 1 ==> file[i] != 0
    else forall i :: start <= i < |file| ==> file[i] != 0
  }

  /** Reads characters up to a NUL; false at the end of the file. */
  method ReadChars(file: seq<Byte>, start: nat) returns (ok: bool, s: seq<int>, pos: nat)
    ensures Scanned(file, start, ok, s, pos)
  {
    s, pos := [], start;
    while pos < |file| && file[pos] != 0
      invariant start <= pos && (pos <= |file| || pos == start) && (pos <= |file| ==> s == file[start..pos])
      invariant forall i :: start <= i < pos ==> i < |file| && file[i] != 0
    {
      s := s + [file[pos]];
      pos := pos + 1;
    }
    ok := pos < |file|;
    if ok {
      pos := pos + 1;
    }
  }

  /** Reads n words; false at the end of the file. */
  method ReadWords(file: seq<Byte>, start: nat, n: int) returns (ok: bool, words: seq<nat>)
    ensures ok <==> n <= 0 || start + 4 * n <= |file|
    ensures ok ==> |words| == (if n <= 0 then 0 else n) && forall i :: 0 <= i < |words| ==>
      start + 4 * i + 4 <= |file| && words[i] == WordAt(file, start + 4 * i)
  {
    words := [];
    var pos := start;
    while |words| < n
      invariant n > 0 ==> |words| <= n
      invariant |words| > 0 ==> pos <= |file|
      invariant n <= 0 ==> words == []
      invariant pos == start + 4 * |words|
      invariant forall i :: 0 <= i < |words| ==> start + 4 * i + 4 <= |file| && words[i] == WordAt(file, start + 4 * i)
      decreases n - |words|
    {
      if pos + 4 > |file| {
        return false, words;
      }
      words := words + [WordAt(file, pos)];
      pos := pos + 4;
    }
    ok := true;
  }

  /** The characters up to the first NUL are determined by the file. */
  lemma CharsAre(file: seq<Byte>, start: nat, q: nat, prefix: seq<Ch>, ok: bool, s: seq<int>, pos: nat)
    requires start <= q <= |file| && file[start..q] == Terminated(prefix)
    requires Scanned(file, start, ok, s, pos)
    ensures ok && s == prefix && pos == q
  {
    var n := |prefix|;
    assert file[start..q][n] == 0;
    assert file[start + n] == 0;
    forall i | 0 <= i < n ensures file[start + i] == prefix[i] != 0 {
      assert file[start..q][i] == prefix[i];
    }
    assert pos - 1 <= start + n;
    assert pos - 1 == start + (pos - 1 - start);
  }

  /** What reading at an offset finds where a trie is stored. */
  lemma StoredParts<A>(file: seq<Byte>, offset: int, t: Trie<A>)
    requires Stored(file, offset, t)
    ensures offset % OFFSET_LIMIT != 0 && StoredNode(file, offset, t)
  {}

  lemma ReadMatches<A>(file: seq<Byte>, offset: int, t: Trie<A>, n: NodeF)
    requires Stored(file, offset, t) && n.prefix == t.prefix && n.isEndpoint == t.isEnd && Complete(n)
    requires t.kids == map[] ==> n.first == CHILDMAX && n.last == 0
    requires t.kids != map[] ==> var q := AfterPrefix(offset, t);
      && 0 <= q && q + 2 <= |file| && n.first == file[q] && n.last == file[q + 1]
      && forall i :: 0 <= i < |n.children| ==>
           q + 2 + 4 * i + 4 <= |file| && n.children[i] == WordAt(file, q + 2 + 4 * i)
    ensures Matches(file, n, t)
  {
    hide Stored, WordAt, Span, KidMatches;
    StoredParts(file, offset, t);
    if t.kids == map[] {
      NoKids(t, n);
    } else {
      StoredSpan(file, offset, t);
      forall k: int | n.first <= k <= n.last ensures KidMatches(file, n, t, k) {
        KidRead(file, offset, t, n, k);
      }
    }
  }

  lemma KidRead<A>(file: seq<Byte>, offset: int, t: Trie<A>, n: NodeF, k: int)
    requires Stored(file, offset, t) && t.kids != map[] && Complete(n) && n.first <= k <= n.last
    requires var q := AfterPrefix(offset, t);
      && 0 <= q && q + 2 <= |file| && n.first == file[q] && n.last == file[q + 1]
      && q + 2 + 4 * (k - n.first) + 4 <= |file| && n.children[k - n.first] == WordAt(file, q + 2 + 4 * (k - n.first))
    ensures KidMatches(file, n, t, k)
  {
    hide WordAt, Span;
    StoredParts(file, offset, t);
    assert KidStored(file, offset, t, k);
    assert n.children[k - n.first] == KidOffset(file, offset, t, k);
  }

  lemma StoredSpan<A>(file: seq<Byte>, offset: int, t: Trie<A>)
    requires StoredNode(file, offset, t) && t.kids != map[]
    ensures var q := AfterPrefix(offset, t);
      0 <= q && q + 2 <= |file| && Span(t.kids.Keys, file[q], file[q + 1])
  {}

  lemma NoKids<A>(t: Trie<A>, n: NodeF)
    requires t.kids == map[] && n.first == CHILDMAX && n.last == 0
    ensures Span(t.kids.Keys, n.first, n.last)
  {}

  /** The first NUL from a position on; behind the file if there is none. */
  function NulAt(file: seq<Byte>, pos: nat): (n: nat)
    ensures n >= pos
    decreases |file| - pos
  {
    if pos >= |file| || file[pos] == 0 then pos else NulAt(file, pos + 1)
  }

  lemma {:induction false} NulIs(file: seq<Byte>, pos: nat, n: nat)
    requires pos <= n && forall i :: pos <= i < n && i < |file| ==> file[i] != 0
    ensures n < |file| && file[n] == 0 ==> NulAt(file, pos) == n
    ensures |file| <= n ==> NulAt(file, pos) >= |file|
    decreases n - pos
  {
    if pos < n && pos < |file| { NulIs(file, pos + 1, n); }
  }

  lemma ScannedNul(file: seq<Byte>, start: nat, ok: bool, s: seq<int>, pos: nat)
    requires Scanned(file, start, ok, s, pos)
    ensures ok <==> NulAt(file, start) < |file|
    ensures ok ==> pos == NulAt(file, start) + 1
  {
    if ok { NulIs(file, start, pos - 1); } else { NulIs(file, start, if start < |file| then |file| else start); }
  }

  /** The table of child offsets at a position is not all there. */
  predicate TableCut(file: seq<Byte>, pos: nat) {
    pos + 2 > |file| || (
      var first: int, last: int := file[pos], file[pos + 1];
      first <= last && pos + 2 + 4 * (last - first + 1) > |file|)
  }

  /** The file ends within the node at the offset. */
  predicate Truncated(file: seq<Byte>, offset: nat) {
    var o := offset % OFFSET_LIMIT;
    if Bit(offset, NODE_PREFIX) && NulAt(file, o) >= |file| then true
    else Bit(offset, NODE_CHILDS) && TableCut(file, if Bit(offset, NODE_PREFIX) then NulAt(file, o) + 1 else o)
  }

  /**
    Reads the node at an offset; offset 0 stands for no node, and a node that the file does not
    hold completely is an error.
   */
  method IndexRead<A>(file: seq<Byte>, offset: nat, ghost t: Trie<A>) returns (r: ReadResult)
    ensures r.Null? <==> offset % OFFSET_LIMIT == 0
    ensures r.Fatal? <==> offset % OFFSET_LIMIT != 0 && Truncated(file, offset)
    ensures r.Node? ==> Complete(r.node)
    ensures Stored(file, offset, t) ==> r.Node? && Matches(file, r.node, t)
  {
    hide Stored, Bit, Matches, Span, Scanned, NulAt;
    ghost var stored, q := Stored(file, offset, t), AfterPrefix(offset, t);
    if stored { StoredParts(file, offset, t); }
    if offset % OFFSET_LIMIT == 0 {
      return Null;
    }
    var pos := offset % OFFSET_LIMIT;
    var prefix: seq<int> := [];
    if Bit(offset, NODE_PREFIX) {
      var ok;
      ghost var start := pos;
      ok, prefix, pos := ReadChars(file, pos);
      ScannedNul(file, start, ok, prefix, pos);
      if stored { CharsAre(file, start, q, t.prefix, ok, prefix, pos); }
      if !ok {
        return Fatal;
      }
    }
    assert stored ==> prefix == t.prefix && pos == q;
    var first, last, children := CHILDMAX, 0, [];
    if Bit(offset, NODE_CHILDS) {
      if pos + 2 > |file| {
        return Fatal;
      }
      first, last := file[pos], file[pos + 1];
      var ok;
      ok, children := ReadWords(file, pos + 2, last - first + 1);
      if !ok {
        return Fatal;
      }
    }
    var n := NodeF(prefix, Bit(offset, NODE_ENDPOINT), first, last, children);
    if stored { ReadMatches(file, offset, t, n); }
    r := Node(n);
  }
}
