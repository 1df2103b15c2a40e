/**
  The receive loop of recv_image.c on values: which packets each block has recorded after which
  packets have arrived, when the receiver gives up, and when it has everything.
 */
module Reception {
  import opened Sequences
  import opened Multicast
  import opened FlashDevice
  import Crc32

  predicate CrcOk(p: Packet) {
    Crc32.Crc(0xffffffff, p.data) == p.hdr.thiscrc
  }

  /** A packet of another image, or for a block there is not. */
  predicate Foreign(p: Packet, totcrc: bv32, nr: nat) {
    p.hdr.totcrc != totcrc || p.hdr.block_nr >= nr
  }

  /** What makes the receiver give up although no write fails. */
  ghost predicate Refused(d: Device, input: seq<Packet>, nr: nat)
    requires d.erasesize > 0
  {
    && |input| > 0
    && (d.erasesize != input[0].hdr.blocksize || !Room(d, nr)
        || exists p :: p in input && Foreign(p, input[0].hdr.totcrc, nr))
  }

  // ----- one packet after another -----

  /** Per block the packets recorded; the writes so far, and how many of them failed. */
  datatype Progress = Progress(taken: seq<seq<nat>>, writes: nat, failed: nat)

  datatype Run = GivenUp | Going(progress: Progress)

  /** A sound packet that a block has not recorded yet and still needs. */
  predicate Wanted(cur: seq<nat>, p: Packet, k: nat) {
    |cur| < k && p.hdr.pkt_nr !in cur && CrcOk(p)
  }

  /** The packet after the first m of a block fills the write buffer. */
  predicate Due(m: nat) {
    Pending(m) + PKT_SIZE >= WBUF_SIZE
  }

  /** The packet makes the receiver write, and the write fails. */
  predicate Fatal(d: Device, k: nat, g: Progress, p: Packet)
    requires p.hdr.block_nr < |g.taken|
  {
    var cur := g.taken[p.hdr.block_nr];
    Wanted(cur, p, k) && Due(|cur|) && d.write_fails(g.writes)
  }

  /** One packet: after a failed write its block starts over with this packet as its first, where it can. */
  function Step(d: Device, k: nat, g: Progress, p: Packet): Run
    requires d.erasesize > 0
  {
    var b := p.hdr.block_nr;
    if b >= |g.taken| || !Wanted(g.taken[b], p, k) then Going(g)
    else
      var writes := if Due(|g.taken[b]|) then g.writes + 1 else g.writes;
      if !Fatal(d, k, g, p) then Going(Progress(g.taken[b := g.taken[b] + [p.hdr.pkt_nr]], writes, g.failed))
      else if Hopeless(d, g.failed, |g.taken|) then GivenUp
      else Going(Progress(g.taken[b := [p.hdr.pkt_nr]], writes, g.failed + 1))
  }

  lemma StepIs(d: Device, k: nat, g: Progress, p: Packet, g': Progress)
    requires d.erasesize > 0 && p.hdr.block_nr < |g.taken| && Wanted(g.taken[p.hdr.block_nr], p, k)
    requires var cur := g.taken[p.hdr.block_nr];
      var failed := Due(|cur|) && d.write_fails(g.writes);
      && !(failed && Hopeless(d, g.failed, |g.taken|))
      && g'.taken == g.taken[p.hdr.block_nr := (if failed then [] else cur) + [p.hdr.pkt_nr]]
      && g'.writes == g.writes + (if Due(|cur|) then 1 else 0)
      && g'.failed == g.failed + (if failed then 1 else 0)
    ensures Step(d, k, g, p) == Going(g')
  {
    hide Wanted, Due, Hopeless;
    assert [] + [p.hdr.pkt_nr] == [p.hdr.pkt_nr];
  }

  function Begin(nr: nat): (g: Progress)
    ensures |g.taken| == nr
  {
    Progress(seq(nr, _ => []), 0, 0)
  }

  /** All packets, one after another. */
  function After(d: Device, k: nat, input: seq<Packet>, nr: nat): Run
    requires d.erasesize > 0
  {
    if |input| == 0 then Going(Begin(nr))
    else
      var before := After(d, k, input[..|input| - 1], nr);
      if before.GivenUp? then GivenUp else Step(d, k, before.progress, input[|input| - 1])
  }

  /** Every block has all its packets. */
  predicate Done(g: Progress, k: nat) {
    forall b :: 0 <= b < |g.taken| ==> |g.taken[b]| >= k
  }

  /** The loop has handled the first m packets and goes on. */
  ghost predicate Handled(d: Device, k: nat, input: seq<Packet>, m: nat, nr: nat)
    requires d.erasesize > 0 && m <= |input|
  {
    forall i :: 0 <= i < m ==> StillGoing(d, k, input, i, nr)
  }

  ghost predicate StillGoing(d: Device, k: nat, input: seq<Packet>, i: nat, nr: nat)
    requires d.erasesize > 0 && i < |input|
  {
    var run := After(d, k, input[..i + 1], nr);
    !Foreign(input[i], input[0].hdr.totcrc, nr) && run.Going? && !Done(run.progress, k)
  }

  lemma {:induction false} AfterShape(d: Device, k: nat, input: seq<Packet>, nr: nat)
    requires d.erasesize > 0
    ensures var run := After(d, k, input, nr);
      run.Going? ==>
        && |run.progress.taken| == nr && run.progress.writes <= |input|
        && run.progress.failed == Fails(d, run.progress.writes)
  {
    hide Wanted, Due;
    if |input| > 0 { AfterShape(d, k, input[..|input| - 1], nr); }
  }

  /** As long as failures can be made up for, the receiver goes on. */
  lemma {:induction false} GoesOn(d: Device, k: nat, input: seq<Packet>, nr: nat, m: nat)
    requires d.erasesize > 0 && Recoverable(d, nr, m) && |input| <= m
    ensures After(d, k, input, nr).Going?
  {
    hide Wanted, Due, Hopeless;
    if |input| > 0 {
      var prev := input[..|input| - 1];
      GoesOn(d, k, prev, nr, m);
      AfterShape(d, k, prev, nr);
      FailsMono(d, After(d, k, prev, nr).progress.writes, m);
    }
  }

  // ----- what a block has recorded -----

  /** What packet p adds to the packets recorded for block b. */
  function Recorded(cur: seq<nat>, p: Packet, b: nat, k: nat): seq<nat> {
    if p.hdr.block_nr == b && Wanted(cur, p, k) then cur + [p.hdr.pkt_nr] else cur
  }

  /** The first k different sound packets for block b, in order of arrival. */
  function Arrived(input: seq<Packet>, b: nat, k: nat): seq<nat> {
    if |input| == 0 then []
    else Recorded(Arrived(input[..|input| - 1], b, k), input[|input| - 1], b, k)
  }

  /** The last packet makes block b start over. */
  predicate StartsOver(d: Device, k: nat, input: seq<Packet>, nr: nat, b: nat)
    requires d.erasesize > 0 && |input| > 0
  {
    var before, p := After(d, k, input[..|input| - 1], nr), input[|input| - 1];
    before.Going? && p.hdr.block_nr == b < |before.progress.taken| && Fatal(d, k, before.progress, p)
  }

  /** The packet with which block b last started. */
  function Since(d: Device, k: nat, input: seq<Packet>, nr: nat, b: nat): (i: nat)
    requires d.erasesize > 0
    ensures i <= |input|
  {
    if |input| == 0 then 0
    else if StartsOver(d, k, input, nr, b) then |input| - 1
    else Since(d, k, input[..|input| - 1], nr, b)
  }

  /** How often it has started over. */
  function Restarts(d: Device, k: nat, input: seq<Packet>, nr: nat, b: nat): nat
    requires d.erasesize > 0
  {
    if |input| == 0 then 0
    else Restarts(d, k, input[..|input| - 1], nr, b) + if StartsOver(d, k, input, nr, b) then 1 else 0
  }

  lemma {:induction false} RestartsFail(d: Device, k: nat, input: seq<Packet>, nr: nat, b: nat)
    requires d.erasesize > 0 && After(d, k, input, nr).Going?
    ensures Restarts(d, k, input, nr, b) <= After(d, k, input, nr).progress.failed
  {
    hide Wanted, Due;
    if |input| > 0 { RestartsFail(d, k, input[..|input| - 1], nr, b); }
  }

  /** What one packet does to one block. */
  lemma NextTaken(d: Device, k: nat, g: Progress, p: Packet, b: nat)
    requires d.erasesize > 0 && k >= 1 && b < |g.taken| && Step(d, k, g, p).Going?
    ensures var g' := Step(d, k, g, p).progress;
      |g'.taken| == |g.taken| && g'.taken[b] ==
        if p.hdr.block_nr == b && Fatal(d, k, g, p) then Recorded([], p, b, k) else Recorded(g.taken[b], p, b, k)
  {
    hide Due, CrcOk, Hopeless;
  }

  lemma ArrivedNext(input: seq<Packet>, p: Packet, b: nat, k: nat)
    ensures Arrived(input + [p], b, k) == Recorded(Arrived(input, b, k), p, b, k)
    ensures Arrived([p], b, k) == Recorded([], p, b, k)
  {
    assert (input + [p])[..|input|] == input;
    assert Arrived([], b, k) == [] && [p][..0] == [];
  }

  /** A block has recorded the packets for it that have arrived since it last started. */
  lemma {:induction false} TakenIs(d: Device, k: nat, input: seq<Packet>, nr: nat, b: nat)
    requires d.erasesize > 0 && k >= 1 && After(d, k, input, nr).Going? && b < nr
    ensures var g := After(d, k, input, nr).progress;
      |g.taken| == nr && g.taken[b] == Arrived(input[Since(d, k, input, nr, b)..], b, k)
  {
    hide Wanted, Fatal, Step, Recorded, Arrived;
    if |input| > 0 {
      var n := |input| - 1;
      var prev, p := input[..n], input[n];
      var s := Since(d, k, prev, nr, b);
      TakenIs(d, k, prev, nr, b);
      NextTaken(d, k, After(d, k, prev, nr).progress, p, b);
      ArrivedNext(prev[s..], p, b, k);
      assert input[n..] == [p];
      assert input[s..] == prev[s..] + [p];
    } else {
      NothingArrived(b, k);
    }
  }

  /** When a block starts over, it is incomplete. */
  lemma {:induction false} SinceRestart(d: Device, k: nat, input: seq<Packet>, nr: nat, b: nat)
    requires d.erasesize > 0 && After(d, k, input, nr).Going? && Since(d, k, input, nr, b) > 0
    ensures var pre := input[..Since(d, k, input, nr, b)];
      && After(d, k, pre, nr).Going? && b < |After(d, k, pre, nr).progress.taken|
      && |After(d, k, pre, nr).progress.taken[b]| < k
      && Restarts(d, k, input, nr, b) == Restarts(d, k, pre, nr, b) + 1
  {
    hide Due, CrcOk, Step;
    if |input| > 0 && !StartsOver(d, k, input, nr, b) {
      var prev := input[..|input| - 1];
      SinceRestart(d, k, prev, nr, b);
      assert prev[..Since(d, k, prev, nr, b)] == input[..Since(d, k, prev, nr, b)];
    }
  }

  lemma NothingArrived(b: nat, k: nat)
    ensures Arrived([], b, k) == []
  {}

  // ----- enough packets -----

  /** The sound packets for block b in the input have at least k different numbers. */
  ghost predicate Enough(input: seq<Packet>, b: nat, k: nat) {
    exists js: seq<nat> :: |js| == k && Distinct(js) && forall i :: 0 <= i < k ==> Offered(input, b, js[i])
  }

  ghost predicate Offered(input: seq<Packet>, b: nat, j: nat) {
    exists i :: 0 <= i < |input| && input[i].hdr.block_nr == b && input[i].hdr.pkt_nr == j && CrcOk(input[i])
  }

  /** Until a block is complete, every sound packet offered for it has been recorded. */
  lemma {:induction false} ArrivedCovers(input: seq<Packet>, b: nat, k: nat, j: nat)
    requires |Arrived(input, b, k)| < k && Offered(input, b, j)
    ensures j in Arrived(input, b, k)
  {
    hide CrcOk;
    var n := |input| - 1;
    var i :| 0 <= i < |input| && input[i].hdr.block_nr == b && input[i].hdr.pkt_nr == j && CrcOk(input[i]);
    if i < n {
      assert input[..n][i] == input[i];
      ArrivedCovers(input[..n], b, k, j);
    }
  }

  /** k different offers complete a block. */
  lemma EnoughCompletes(input: seq<Packet>, b: nat, k: nat)
    requires Enough(input, b, k)
    ensures |Arrived(input, b, k)| >= k
  {
    hide Arrived, Offered;
    var cur := Arrived(input, b, k);
    var js :| |js| == k && Distinct(js) && forall i :: 0 <= i < k ==> Offered(input, b, js[i]);
    if |cur| < k {
      forall i | 0 <= i < k
        ensures js[i] in cur
      {
        ArrivedCovers(input, b, k, js[i]);
      }
      DistinctFit(js, cur);
    }
  }

  /** The input has c parts, one after another, with k different packets for block b each. */
  ghost predicate EnoughTimes(input: seq<Packet>, b: nat, k: nat, c: nat) {
    exists cuts: seq<nat> :: EnoughParts(input, b, k, cuts) && |cuts| == c + 1
  }

  ghost predicate Ample(input: seq<Packet>, k: nat, nr: nat, c: nat) {
    forall b :: 0 <= b < nr ==> EnoughTimes(input, b, k, c)
  }

  ghost predicate EnoughParts(input: seq<Packet>, b: nat, k: nat, cuts: seq<nat>) {
    && (forall i :: 0 <= i < |cuts| ==> cuts[i] <= |input|)
    && (forall i :: 0 <= i < |cuts| - 1 ==> EnoughPart(input, b, k, cuts[i], cuts[i + 1]))
  }

  ghost predicate EnoughPart(input: seq<Packet>, b: nat, k: nat, x: nat, y: nat) {
    x <= y <= |input| && Enough(input[x..y], b, k)
  }

  lemma OfferedWider(input: seq<Packet>, b: nat, j: nat, x: nat, y: nat)
    requires x <= y <= |input| && Offered(input[x..y], b, j)
    ensures Offered(input, b, j)
  {
    hide CrcOk;
    var part := input[x..y];
    var n :| 0 <= n < |part| && part[n].hdr.block_nr == b && part[n].hdr.pkt_nr == j && CrcOk(part[n]);
    assert input[x + n] == part[n];
  }

  lemma EnoughWider(input: seq<Packet>, b: nat, k: nat, x: nat, y: nat, s: nat)
    requires EnoughPart(input, b, k, x, y) && s <= x
    ensures |Arrived(input[s..], b, k)| >= k
  {
    hide Arrived, Offered;
    var part, all := input[x..y], input[s..];
    var js: seq<nat> :| |js| == k && Distinct(js) && forall i :: 0 <= i < k ==> Offered(part, b, js[i]);
    assert part == all[x - s..y - s];
    forall i | 0 <= i < k ensures Offered(all, b, js[i]) { OfferedWider(all, b, js[i], x - s, y - s); }
    EnoughCompletes(all, b, k);
  }

  lemma CutsRise(input: seq<Packet>, b: nat, k: nat, cuts: seq<nat>, i: nat)
    requires EnoughParts(input, b, k, cuts) && i < |cuts|
    ensures cuts[i] <= cuts[|cuts| - 1]
    decreases |cuts| - i
  {
    if i < |cuts| - 1 {
      assert EnoughPart(input, b, k, cuts[i], cuts[i + 1]);
      CutsRise(input, b, k, cuts, i + 1);
    }
  }

  /** The parts before the last one, in the input up to some packet behind them. */
  lemma PartsBefore(input: seq<Packet>, b: nat, k: nat, cuts: seq<nat>, s: nat)
    requires EnoughParts(input, b, k, cuts) && |cuts| >= 2 && cuts[|cuts| - 2] <= s <= |input|
    ensures EnoughParts(input[..s], b, k, cuts[..|cuts| - 1])
  {
    hide Enough;
    var pre := cuts[..|cuts| - 1];
    forall i | 0 <= i < |pre| ensures pre[i] <= s {
      PartsShorter(input, b, k, cuts);
      CutsRise(input, b, k, pre, i);
    }
    forall i | 0 <= i < |pre| - 1 ensures EnoughPart(input[..s], b, k, pre[i], pre[i + 1]) {
      assert EnoughPart(input, b, k, cuts[i], cuts[i + 1]);
      assert pre[i + 1] <= s;
      assert input[..s][pre[i]..pre[i + 1]] == input[pre[i]..pre[i + 1]];
    }
  }

  lemma PartsShorter(input: seq<Packet>, b: nat, k: nat, cuts: seq<nat>)
    requires EnoughParts(input, b, k, cuts) && |cuts| >= 1
    ensures EnoughParts(input, b, k, cuts[..|cuts| - 1])
  {
    var pre := cuts[..|cuts| - 1];
    forall i | 0 <= i < |pre| - 1 ensures EnoughPart(input, b, k, pre[i], pre[i + 1]) {
      assert EnoughPart(input, b, k, cuts[i], cuts[i + 1]);
    }
  }

  /** An incomplete block has started over at least once for every part with enough packets for it. */
  lemma {:induction false} PartsCost(d: Device, k: nat, input: seq<Packet>, nr: nat, b: nat, cuts: seq<nat>)
    requires d.erasesize > 0 && k >= 1 && After(d, k, input, nr).Going? && b < nr
    requires |After(d, k, input, nr).progress.taken| == nr && |After(d, k, input, nr).progress.taken[b]| < k
    requires EnoughParts(input, b, k, cuts) && |cuts| >= 1
    ensures |cuts| - 1 <= Restarts(d, k, input, nr, b)
    decreases |input|
  {
    hide After, Restarts, Since, EnoughParts, Arrived;
    if |cuts| >= 2 {
      var c := |cuts| - 2;
      var s := Since(d, k, input, nr, b);
      LastPart(input, b, k, cuts);
      TakenIs(d, k, input, nr, b);
      if s <= cuts[c] {
        EnoughWider(input, b, k, cuts[c], cuts[c + 1], s);
        assert false;
      }
      SinceRestart(d, k, input, nr, b);
      AfterShape(d, k, input[..s], nr);
      PartsBefore(input, b, k, cuts, s);
      SinceShorter(d, k, input, nr, b);
      PartsCost(d, k, input[..s], nr, b, cuts[..c + 1]);
    }
  }

  lemma LastPart(input: seq<Packet>, b: nat, k: nat, cuts: seq<nat>)
    requires EnoughParts(input, b, k, cuts) && |cuts| >= 2
    ensures EnoughPart(input, b, k, cuts[|cuts| - 2], cuts[|cuts| - 1])
  {}

  lemma {:induction false} SinceShorter(d: Device, k: nat, input: seq<Packet>, nr: nat, b: nat)
    requires d.erasesize > 0
    ensures |input| > 0 ==> Since(d, k, input, nr, b) < |input|
  {}

  /** Failed writes can be made up for, and every block is sent enough packets once more often than writes fail. */
  ghost predicate Sufficient(d: Device, k: nat, input: seq<Packet>, nr: nat)
    requires d.erasesize > 0
  {
    Recoverable(d, nr, |input|) && Ample(input, k, nr, Fails(d, |input|) + 1)
  }

  /**
    Every failed write costs at most one more set of packets: if all failures can be made up for and
    every block is sent enough packets once more often than writes fail, the receiver gets everything.
   */
  lemma Completes(d: Device, k: nat, input: seq<Packet>, nr: nat)
    requires d.erasesize > 0 && k >= 1 && Sufficient(d, k, input, nr)
    ensures After(d, k, input, nr).Going? && Done(After(d, k, input, nr).progress, k)
  {
    hide After, EnoughParts;
    GoesOn(d, k, input, nr, |input|);
    AfterShape(d, k, input, nr);
    var g := After(d, k, input, nr).progress;
    FailsMono(d, g.writes, |input|);
    forall b | 0 <= b < nr ensures |g.taken[b]| >= k {
      if |g.taken[b]| < k {
        assert EnoughTimes(input, b, k, Fails(d, |input|) + 1);
        var cuts: seq<nat> :| EnoughParts(input, b, k, cuts) && |cuts| == Fails(d, |input|) + 2;
        PartsCost(d, k, input, nr, b, cuts);
        RestartsFail(d, k, input, nr, b);
      }
    }
  }
}
