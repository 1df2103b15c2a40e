/**
  The rtime compressor of JFFS2 (compr_rtime.c): each pair of bytes is a literal and the number
  of bytes to repeat from behind the literal's previous occurrence.
 */
module Rtime {
  import opened Sequences

  // ----- what a pair means -----

  /** n bytes copied one at a time, so that the copy may overlap its source. */
  function Copied(out: seq<Byte>, back: nat, n: nat): (r: seq<Byte>)
    requires back < |out|
    ensures |r| == |out| + n && out <= r
    decreases n
  {
    if n == 0 then out else Copied(out + [out[back]], back + 1, n - 1)
  }

  /** For every byte, the position behind its last literal occurrence. */
  type Positions = p: seq<nat> | |p| == 256 witness seq(256, _ => 0)

  datatype State = State(out: seq<Byte>, positions: Positions)

  predicate Behind(s: State) {
    forall v :: 0 <= v < 256 ==> s.positions[v] <= |s.out|
  }

  function Start(): State { State([], seq(256, _ => 0)) }

  /** One literal and its run. */
  function Step(s: State, value: Byte, run: Byte): (s': State)
    requires Behind(s)
    ensures Behind(s') && |s'.out| == |s.out| + 1 + run
  {
    var out := s.out + [value];
    State(Copied(out, s.positions[value], run), s.positions[value := |out|])
  }

  /** The pairs in order. */
  ghost function Expand(data: seq<Byte>): (s: State)
    requires |data| % 2 == 0
    ensures Behind(s)
  {
    if data == [] then Start()
    else
      var n := |data| - 2;
      Step(Expand(data[..n]), data[n], data[n + 1])
  }

  lemma ExpandPair(data: seq<Byte>, value: Byte, run: Byte)
    requires |data| % 2 == 0
    ensures Expand(data + [value, run]) == Step(Expand(data), value, run)
  {
    assert (data + [value, run])[..|data|] == data;
  }

  lemma {:induction false} ExpandGrows(data: seq<Byte>, k: nat)
    requires |data| % 2 == 0 && k % 2 == 0 && k <= |data|
    ensures |Expand(data[..k]).out| <= |Expand(data).out|
    ensures k < |data| ==> |Expand(data[..k]).out| < |Expand(data).out|
    decreases |data|
  {
    if k < |data| {
      var n := |data| - 2;
      assert data[..n][..k] == data[..k];
      ExpandGrows(data[..n], k);
    } else {
      assert data[..k] == data;
    }
  }

  /** Copying what is there anyway: a run found in the source is reproduced. */
  lemma {:induction false} CopiedRun(src: seq<Byte>, pos: nat, back: nat, n: nat)
    requires back < pos && pos + n <= |src| && src[pos..pos + n] == src[back..back + n]
    ensures Copied(src[..pos], back, n) == src[..pos + n]
    decreases n
  {
    if n > 0 {
      assert src[pos] == src[pos..pos + n][0] == src[back..back + n][0] == src[back];
      assert src[..pos] + [src[..pos][back]] == src[..pos + 1];
      assert src[pos + 1..pos + n] == src[pos..pos + n][1..] == src[back..back + n][1..] == src[back + 1..back + n];
      CopiedRun(src, pos + 1, back + 1, n - 1);
    }
  }

  lemma LongerRun(src: seq<Byte>, pos: nat, back: nat, n: nat)
    requires back < pos && pos + n < |src| && src[pos..pos + n] == src[back..back + n] && src[pos + n] == src[back + n]
    ensures src[pos..pos + n + 1] == src[back..back + n + 1]
  {
    assert src[pos..pos + n + 1] == src[pos..pos + n] + [src[pos + n]];
    assert src[back..back + n + 1] == src[back..back + n] + [src[back + n]];
  }

  /** Without overlap the copy is a block. */
  lemma {:induction false} CopiedBlock(out: seq<Byte>, back: nat, n: nat)
    requires back + n <= |out| && back < |out|
    ensures Copied(out, back, n) == out + out[back..back + n]
    decreases n
  {
    if n > 0 {
      var out1 := out + [out[back]];
      CopiedBlock(out1, back + 1, n - 1);
      assert out1[back + 1..back + n] == out[back + 1..back + n];
      assert out[back..back + n] == [out[back]] + out[back + 1..back + n];
      assert out1 + out[back + 1..back + n] == out + out[back..back + n];
    } else {
      assert out + out[back..back] == out;
    }
  }

  // ----- compression -----

  datatype Result = Failed | Packed(sourceLen: nat, data: seq<Byte>)

  /** The run cannot be longer. */
  ghost predicate Longest(src: seq<Byte>, first: nat, start: nat, run: nat)
    requires start < first && first + run <= |src|
  {
    run >= 255 || first + run == |src| || src[first + run] != src[start + run]
  }

  /** The pair at k repeats as many bytes of the source as it can. */
  ghost predicate Greedy(src: seq<Byte>, data: seq<Byte>, k: nat)
    requires |data| % 2 == 0 && k % 2 == 0 && k + 2 <= |data|
  {
    var s := Expand(data[..k]);
    var first, run := |s.out| + 1, data[k + 1];
    first + run <= |src| && Longest(src, first, s.positions[data[k]], run)
  }

  /** Pairs that stand for the first `taken` source bytes, each run as long as possible, as far as there is room. */
  ghost predicate Packing(src: seq<Byte>, dstlen: nat, data: seq<Byte>, taken: nat) {
    && taken <= |src| && |data| % 2 == 0 && |data| <= dstlen && Expand(data).out == src[..taken]
    && (forall k :: 0 <= k < |data| && k % 2 == 0 ==> Greedy(src, data, k))
  }

  /** A packing that cannot go on, and what the compressor makes of it. */
  ghost predicate Outcome(src: seq<Byte>, dstlen: nat, data: seq<Byte>, taken: nat, r: Result) {
    && Packing(src, dstlen, data, taken) && (taken == |src| || |data| + 2 > dstlen)
    && r == if |data| >= taken then Failed else Packed(taken, data)
  }

  lemma GreedyNext(src: seq<Byte>, data: seq<Byte>, value: Byte, run: Byte)
    requires |data| % 2 == 0 && forall k :: 0 <= k < |data| && k % 2 == 0 ==> Greedy(src, data, k)
    requires var s := Expand(data);
      |s.out| + 1 + run <= |src| && Longest(src, |s.out| + 1, s.positions[value], run)
    ensures forall k :: 0 <= k < |data| + 2 && k % 2 == 0 ==> Greedy(src, data + [value, run], k)
  {
    hide Greedy;
    forall k | 0 <= k < |data| + 2 && k % 2 == 0 ensures Greedy(src, data + [value, run], k) {
      if k < |data| {
        assert Greedy(src, data, k);
        GreedyBefore(src, data, value, run, k);
      } else {
        GreedyLast(src, data, value, run);
      }
    }
  }

  lemma GreedyBefore(src: seq<Byte>, data: seq<Byte>, value: Byte, run: Byte, k: nat)
    requires |data| % 2 == 0 && k % 2 == 0 && k + 2 <= |data| && Greedy(src, data, k)
    ensures Greedy(src, data + [value, run], k)
  {
    hide Expand, Longest;
    assert (data + [value, run])[..k] == data[..k];
  }

  lemma GreedyLast(src: seq<Byte>, data: seq<Byte>, value: Byte, run: Byte)
    requires |data| % 2 == 0
    requires var s := Expand(data);
      |s.out| + 1 + run <= |src| && Longest(src, |s.out| + 1, s.positions[value], run)
    ensures Greedy(src, data + [value, run], |data|)
  {
    hide Expand, Longest;
    assert (data + [value, run])[..|data|] == data;
  }

  /** How far the bytes from pos on repeat those from backpos on, at most 255. */
  method RunLength(data_in: seq<Byte>, first: nat, start: nat) returns (runlen: nat)
    requires start < first <= |data_in|
    ensures runlen <= 255 && first + runlen <= |data_in|
    ensures data_in[first..first + runlen] == data_in[start..start + runlen]
    ensures Longest(data_in, first, start, runlen)
  {
    var pos, backpos := first, start;
    runlen := 0;
    while backpos < pos && pos < |data_in| && data_in[pos] == data_in[backpos] && runlen < 255
      invariant runlen <= 255 && pos == first + runlen <= |data_in| && backpos == start + runlen
      invariant data_in[first..first + runlen] == data_in[start..start + runlen]
      decreases |data_in| - pos
    {
      LongerRun(data_in, first, start, runlen);
      backpos := backpos + 1;
      pos := pos + 1;
      runlen := runlen + 1;
    }
  }

  /** A literal and its run stand for the bytes they were made from. */
  lemma PairStands(src: seq<Byte>, data: seq<Byte>, positions: Positions, pos: nat, back: nat, run: Byte)
    requires |data| % 2 == 0 && 1 <= pos && pos + run <= |src| && Expand(data) == State(src[..pos - 1], positions)
    requires back == positions[src[pos - 1]] < pos && src[pos..pos + run] == src[back..back + run]
    ensures Expand(data + [src[pos - 1], run]) == State(src[..pos + run], positions[src[pos - 1] := pos])
  {
    hide Expand, Copied, Step, Behind;
    var value := src[pos - 1];
    var before, after := src[..pos - 1], src[..pos];
    assert after == before + [value];
    StepIs(before, after, positions, value, run, back);
    CopiedRun(src, pos, back, run);
    ExpandPair(data, value, run);
  }

  lemma StepIs(before: seq<Byte>, after: seq<Byte>, positions: Positions, value: Byte, run: Byte, back: nat)
    requires Behind(State(before, positions)) && after == before + [value] && back == positions[value]
    ensures Step(State(before, positions), value, run) == State(Copied(after, back, run), positions[value := |after|])
  {}

  lemma PositionBehind(data: seq<Byte>, value: Byte)
    requires |data| % 2 == 0
    ensures Expand(data).positions[value] <= |Expand(data).out|
  {}

  /**
    jffs2_rtime_compress.  The pairs are a greedy packing that stops for lack of source or of room;
    the result is a failure exactly when they do not take less than what they stand for.
   */
  method Compress(data_in: seq<Byte>, dstlen: nat) returns (r: Result)
    requires |data_in| <= 32767 && dstlen >= 2
    ensures exists data, taken :: Outcome(data_in, dstlen, data, taken, r)
    ensures r.Packed? ==> |r.data| < r.sourceLen && Packing(data_in, dstlen, r.data, r.sourceLen)
  {
    hide Expand, Step, Greedy, Longest;
    var positions: Positions := seq(256, _ => 0);
    var cpage_out: seq<Byte> := [];
    var pos := 0;
    ExpandNone();
    assert data_in[..0] == [];
    while pos < |data_in| && |cpage_out| + 2 <= dstlen
      invariant 0 <= pos <= |data_in| && |cpage_out| % 2 == 0 && |cpage_out| <= dstlen
      invariant Expand(cpage_out) == State(data_in[..pos], positions)
      invariant forall k :: 0 <= k < |cpage_out| && k % 2 == 0 ==> Greedy(data_in, cpage_out, k)
    {
      var value := data_in[pos];
      pos := pos + 1;
      var backpos := positions[value];
      PositionBehind(cpage_out, value);
      ghost var before := positions;
      positions := positions[value := pos];
      var runlen := RunLength(data_in, pos, backpos);
      PairStands(data_in, cpage_out, before, pos, backpos, runlen);
      GreedyNext(data_in, cpage_out, value, runlen);
      pos := pos + runlen;
      cpage_out := cpage_out + [value, runlen];
    }
    if |cpage_out| >= pos {
      r := Failed;
    } else {
      r := Packed(pos, cpage_out);
    }
    assert Outcome(data_in, dstlen, cpage_out, pos, r);
  }

  lemma ExpandNone()
    ensures Expand([]) == State([], seq(256, _ => 0))
  {}

  // ----- the same with all names spelt out -----

  /** No longer run would have been possible: the bytes from `first` on repeat those from `start` on no further. */
  lemma GreedyMeans(src: seq<Byte>, data: seq<Byte>, k: nat, longer: nat)
    requires |data| % 2 == 0 && k % 2 == 0 && k + 2 <= |data| && Greedy(src, data, k)
    requires var s := Expand(data[..k]);
      data[k + 1] < longer <= 255 && |s.out| + 1 + longer <= |src|
    ensures var s := Expand(data[..k]);
      var first, start := |s.out| + 1, s.positions[data[k]];
      start < first && first + data[k + 1] <= |src| && src[first..first + longer] != src[start..start + longer]
  {
    hide Expand;
    var s := Expand(data[..k]);
    var first, start, run := |s.out| + 1, s.positions[data[k]], data[k + 1];
    assert src[first + run] != src[start + run];
    SliceAt(src, first, longer, run);
    SliceAt(src, start, longer, run);
  }

  lemma SliceAt(src: seq<Byte>, at: nat, n: nat, i: nat)
    requires at + n <= |src| && i < n
    ensures src[at..at + n][i] == src[at + i]
  {}

  /** The compressor stops for lack of source or of room, and fails if it did not save anything. */
  lemma OutcomeMeans(src: seq<Byte>, dstlen: nat, data: seq<Byte>, taken: nat, r: Result)
    requires Outcome(src, dstlen, data, taken, r)
    ensures taken <= |src| && |data| % 2 == 0 && |data| <= dstlen && Expand(data).out == src[..taken]
    ensures taken == |src| || |data| + 2 > dstlen
    ensures |data| < taken ==> r == Packed(taken, data)
    ensures |data| >= taken ==> r.Failed?
    ensures forall k :: 0 <= k < |data| && k % 2 == 0 ==> Greedy(src, data, k)
  {
    hide Greedy, Expand;
  }

  lemma ExpandExamples()
    ensures Expand([97, 3]).out == [97, 97, 97, 97]
    ensures Expand([97, 0, 98, 0, 97, 2]).out == [97, 98, 97, 98, 97]
  {
    var p: Positions := seq(256, _ => 0);
    ExpandNone();
    StepsAre(p);
    hide Step, Expand;
    ExpandPair([], 97, 3);
    ExpandPair([], 97, 0);
    ExpandPair([97, 0], 98, 0);
    ExpandPair([97, 0, 98, 0], 97, 2);
    assert [] + [97, 3] == [97, 3] && [] + [97, 0] == [97, 0];
    assert [97, 0] + [98, 0] == [97, 0, 98, 0] && [97, 0, 98, 0] + [97, 2] == [97, 0, 98, 0, 97, 2];
  }

  lemma StepsAre(p: Positions)
    requires p == seq(256, _ => 0)
    ensures Step(State([], p), 97, 3).out == [97, 97, 97, 97]
    ensures Step(State([], p), 97, 0) == State([97], p[97 := 1])
    ensures Step(State([97], p[97 := 1]), 98, 0) == State([97, 98], p[97 := 1][98 := 2])
    ensures Step(State([97, 98], p[97 := 1][98 := 2]), 97, 2).out == [97, 98, 97, 98, 97]
  {
    CopiedThrice();
    assert Copied([97], 0, 0) == [97] && Copied([97, 98], 0, 0) == [97, 98];
    hide Copied;
    assert [] + [97] == [97] && [97] + [98] == [97, 98] && [97, 98] + [97] == [97, 98, 97];
  }

  lemma CopiedThrice()
    ensures Copied([97], 0, 3) == [97, 97, 97, 97]
    ensures Copied([97, 98, 97], 1, 2) == [97, 98, 97, 98, 97]
  {
    assert [97] + [97] == [97, 97] && [97, 97] + [97] == [97, 97, 97] && [97, 97, 97] + [97] == [97, 97, 97, 97];
    assert Copied([97, 97, 97, 97], 3, 0) == [97, 97, 97, 97];
    assert Copied([97, 97, 97], 2, 1) == [97, 97, 97, 97];
    assert Copied([97, 97], 1, 2) == [97, 97, 97, 97];
    assert [97, 98, 97] + [98] == [97, 98, 97, 98] && [97, 98, 97, 98] + [97] == [97, 98, 97, 98, 97];
    assert Copied([97, 98, 97, 98], 2, 1) == [97, 98, 97, 98, 97];
  }

  // ----- equal bytes -----

  predicate Equal(src: seq<Byte>, value: Byte) {
    forall i :: 0 <= i < |src| ==> src[i] == value
  }

  /** Of equal bytes every pair takes 256, or all that are left. */
  lemma {:induction false} EqualTaken(src: seq<Byte>, value: Byte, data: seq<Byte>, k: nat)
    requires Equal(src, value) && |data| % 2 == 0 && k % 2 == 0 && k <= |data|
    requires forall j :: 0 <= j < |data| && j % 2 == 0 ==> Greedy(src, data, j)
    ensures |Expand(data[..k]).out| == if 128 * k <= |src| then 128 * k else |src|
    decreases k
  {
    hide Step;
    if k == 0 {
      ExpandNone();
      assert data[..0] == [];
    } else {
      var j := k - 2;
      EqualTaken(src, value, data, j);
      assert Greedy(src, data, j);
      assert data[..j] + [data[j], data[j + 1]] == data[..k];
      hide Expand;
      ExpandPair(data[..j], data[j], data[j + 1]);
    }
  }

  /** n equal bytes take two bytes for every 256, or part of 256, of them. */
  lemma EqualPacked(src: seq<Byte>, value: Byte, dstlen: nat, data: seq<Byte>, taken: nat, r: Result)
    requires Equal(src, value) && dstlen >= 2 * ((|src| + 255) / 256) && Outcome(src, dstlen, data, taken, r)
    ensures taken == |src| && |data| == 2 * ((|src| + 255) / 256)
  {
    hide Greedy, Expand;
    var n := |data|;
    assert data[..n] == data;
    EqualTaken(src, value, data, n);
    if n >= 2 {
      EqualTaken(src, value, data, n - 2);
      ExpandGrows(data, n - 2);
    }
  }

  /** Equal bytes are packed if that saves anything. */
  method CompressEqual(value: Byte, n: nat, dstlen: nat) returns (r: Result)
    requires n <= 32767 && dstlen >= 2 && dstlen >= 2 * ((n + 255) / 256)
    ensures r.Packed? <==> 2 * ((n + 255) / 256) < n
    ensures r.Packed? ==> r.sourceLen == n && |r.data| == 2 * ((n + 255) / 256)
  {
    hide Outcome, Packing;
    var src := seq(n, _ => value);
    r := Compress(src, dstlen);
    ghost var data, taken :| Outcome(src, dstlen, data, taken, r);
    OutcomeMeans(src, dstlen, data, taken, r);
    EqualPacked(src, value, dstlen, data, taken, r);
  }

  // ----- decompression -----

  /** One byte at a time, from where source and destination touch. */
  method CopyBytes(cpage_out: array<Byte>, outpos0: nat, backoffs0: nat, repeat0: nat, destlen: nat)
    requires backoffs0 < outpos0 && outpos0 + repeat0 <= destlen <= cpage_out.Length
    modifies cpage_out
    ensures cpage_out[..outpos0 + repeat0] == Copied(old(cpage_out[..outpos0]), backoffs0, repeat0)
    ensures cpage_out[destlen..] == old(cpage_out[destlen..])
  {
    var outpos, backoffs, repeat := outpos0, backoffs0, repeat0;
    ghost var target, tail := Copied(cpage_out[..outpos], backoffs, repeat), cpage_out[destlen..];
    while repeat != 0
      invariant 0 <= repeat && outpos + repeat == outpos0 + repeat0 && 0 <= backoffs < outpos
      invariant Copied(cpage_out[..outpos], backoffs, repeat) == target
      invariant cpage_out[destlen..] == tail
      decreases repeat
    {
      ghost var out := cpage_out[..outpos];
      cpage_out[outpos] := cpage_out[backoffs];
      assert cpage_out[..outpos + 1] == out + [out[backoffs]];
      outpos := outpos + 1;
      backoffs := backoffs + 1;
      repeat := repeat - 1;
    }
  }

  /** The repeated bytes: one at a time when source and destination touch, as a block otherwise. */
  method CopyRun(cpage_out: array<Byte>, outpos: nat, backoffs: nat, repeat: nat, destlen: nat)
    requires backoffs < outpos && outpos + repeat <= destlen <= cpage_out.Length
    modifies cpage_out
    ensures cpage_out[..outpos + repeat] == Copied(old(cpage_out[..outpos]), backoffs, repeat)
    ensures cpage_out[destlen..] == old(cpage_out[destlen..])
  {
    hide Copied;
    if backoffs + repeat >= outpos {
      CopyBytes(cpage_out, outpos, backoffs, repeat, destlen);
    } else {
      ghost var before := cpage_out[..];
      CopiedBlock(cpage_out[..outpos], backoffs, repeat);
      forall i | 0 <= i < repeat {
        cpage_out[outpos + i] := cpage_out[backoffs + i];
      }
      assert cpage_out[..outpos + repeat] == before[..outpos] + before[backoffs..backoffs + repeat];
    }
  }

  /** Writes what one pair stands for. */
  method WritePair(cpage_out: array<Byte>, outpos0: nat, positions0: Positions, value: Byte, repeat: Byte, destlen: nat)
    returns (outpos: nat, positions: Positions)
    requires outpos0 + 1 + repeat <= destlen <= cpage_out.Length && Behind(State(cpage_out[..outpos0], positions0))
    modifies cpage_out
    ensures outpos == outpos0 + 1 + repeat
    ensures State(cpage_out[..outpos], positions) == Step(State(old(cpage_out[..outpos0]), positions0), value, repeat)
    ensures cpage_out[destlen..] == old(cpage_out[destlen..])
  {
    outpos := outpos0;
    ghost var out, tail := cpage_out[..outpos] + [value], cpage_out[destlen..];
    cpage_out[outpos] := value;
    outpos := outpos + 1;
    assert cpage_out[..outpos] == out && cpage_out[destlen..] == tail;
    var backoffs := positions0[value];
    positions := positions0[value := outpos];
    if repeat != 0 {
      CopyRun(cpage_out, outpos, backoffs, repeat, destlen);
      outpos := outpos + repeat;
    }
  }

  /** The first n bytes of the data are pairs that stand for at least destlen bytes. */
  ghost predicate Reaches(data: seq<Byte>, n: nat, destlen: nat) {
    n % 2 == 0 && n <= |data| && |Expand(data[..n]).out| >= destlen
  }

  /** What a pair stands for that is read while bytes are missing ends at most at `room`. */
  ghost predicate PairsFit(data: seq<Byte>, destlen: nat, room: nat) {
    forall k :: 0 <= k && k + 2 <= |data| && k % 2 == 0 && !Reaches(data, k, destlen) ==>
      |Expand(data[..k + 2]).out| <= room
  }

  /** The pair at pos, and that there is one as long as output is missing. */
  lemma NextPair(data: seq<Byte>, pos: nat, n: nat, destlen: nat)
    requires pos % 2 == 0 && pos <= |data| && !Reaches(data, pos, destlen) && Reaches(data, n, destlen)
    ensures pos + 2 <= n && Expand(data[..pos + 2]) == Step(Expand(data[..pos]), data[pos], data[pos + 1])
  {
    hide Expand, Step;
    if n <= pos {
      assert data[..pos][..n] == data[..n];
      ExpandGrows(data[..pos], n);
    }
    assert data[..pos] + [data[pos], data[pos + 1]] == data[..pos + 2];
    ExpandPair(data[..pos], data[pos], data[pos + 1]);
  }

  /**
    jffs2_rtime_decompress: reads pairs until they stand for destlen bytes or more and writes what
    they stand for.  The data has to have that many, and the last one may write behind destlen.
   */
  method Decompress(data_in: seq<Byte>, cpage_out: array<Byte>, destlen: nat) returns (pos: nat)
    requires destlen <= 32767
    requires (exists n :: Reaches(data_in, n, destlen)) && PairsFit(data_in, destlen, cpage_out.Length)
    modifies cpage_out
    ensures Reaches(data_in, pos, destlen)
    ensures forall k :: 0 <= k < pos && k % 2 == 0 ==> !Reaches(data_in, k, destlen)
    ensures var out := Expand(data_in[..pos]).out;
      |out| <= cpage_out.Length && cpage_out[..] == out + old(cpage_out[|out|..])
  {
    hide Expand, Step;
    ghost var n :| Reaches(data_in, n, destlen);
    var positions: Positions := seq(256, _ => 0);
    var outpos := 0;
    pos := 0;
    ExpandNone();
    assert data_in[..0] == [] && cpage_out[..0] == [];
    while outpos < destlen
      invariant 0 <= pos <= |data_in| && pos % 2 == 0 && 0 <= outpos <= cpage_out.Length
      invariant Expand(data_in[..pos]) == State(cpage_out[..outpos], positions)
      invariant cpage_out[outpos..] == old(cpage_out[outpos..])
      invariant forall k :: 0 <= k < pos && k % 2 == 0 ==> !Reaches(data_in, k, destlen)
      decreases |data_in| - pos
    {
      assert !Reaches(data_in, pos, destlen);
      NextPair(data_in, pos, n, destlen);
      var value := data_in[pos];
      var repeat := data_in[pos + 1];
      ghost var before, tail := outpos, cpage_out[outpos..];
      pos := pos + 2;
      outpos, positions := WritePair(cpage_out, outpos, positions, value, repeat, outpos + 1 + repeat);
      TailOf(old(cpage_out[..]), before, outpos);
    }
    assert cpage_out[..] == cpage_out[..outpos] + cpage_out[outpos..];
  }

  /** Data that stands for exactly len bytes is read completely. */
  lemma AllPairs(data: seq<Byte>, len: nat)
    requires |data| % 2 == 0 && |Expand(data).out| == len
    ensures Reaches(data, |data|, len) && PairsFit(data, len, len)
    ensures forall pos: nat :: Reaches(data, pos, len) ==> pos == |data| && data[..pos] == data
  {
    hide Expand;
    assert data[..|data|] == data;
    forall k: nat | k <= |data| && k % 2 == 0
      ensures |Expand(data[..k]).out| <= len && (k < |data| ==> |Expand(data[..k]).out| < len)
    {
      ExpandGrows(data, k);
    }
  }

  lemma TailOf(a: seq<Byte>, m: nat, n: nat)
    requires m <= n <= |a|
    ensures a[m..][n - m..] == a[n..]
  {}

  /** Round trip: what was compressed comes back. */
  method RoundTrip(data: seq<Byte>, dstlen: nat) returns (r: Result, back: array<Byte>)
    requires |data| <= 32767 && dstlen >= 2
    ensures r.Packed? ==> |r.data| < r.sourceLen <= |data| && |r.data| <= dstlen
    ensures r.Packed? ==> back.Length == r.sourceLen && back[..] == data[..r.sourceLen]
  {
    r := Compress(data, dstlen);
    back := new Byte[if r.Packed? then r.sourceLen else 0];
    if r.Packed? {
      AllPairs(r.data, r.sourceLen);
      var read := Decompress(r.data, back, r.sourceLen);
      assert back[..] == data[..r.sourceLen];
    }
  }
}
