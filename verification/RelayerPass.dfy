/** One relayer daemon running alone: the two halves of `submit_checkpoint` as loops over remote calls,
    each call being one action of the step protocol, and what a pass achieves.

    The step protocol lets a transaction that was mined and rejected pass for a success. The daemon here is
    one whose submission fails when its gas is estimated, so nothing that would be rejected is ever sent;
    that an event can wedge it is a property of this daemon. */
module RelayerPass {
  import opened CheckpointChains
  import opened RelayerProtocol

  /** What goes wrong with the next remote call. `Stalled` and `ReceiptLost` only matter to a submission:
      the transaction is left in the pool, or is executed, while the daemon sees an error. */
  datatype Fault = Fine | Broken | Stalled | ReceiptLost

  /** How many of the calls go wrong. */
  function FaultsIn(faults: seq<Fault>): nat {
    if faults == [] then 0 else (if faults[0].Fine? then 0 else 1) + FaultsIn(faults[1..])
  }

  function HeightsOf(txs: seq<Tx>): (hs: seq<int>) {
    if txs == [] then [] else HeightsOf(txs[..|txs| - 1]) + [txs[|txs| - 1].bundle.checkpoint.height]
  }

  lemma Appended(before: seq<Tx>, t: Tx)
    ensures HeightsOf(before + [t]) == HeightsOf(before) + [t.bundle.checkpoint.height]
  {
    assert (before + [t])[..|before|] == before;
  }

  /** The parent's last height before the i-th of `hs` is delivered, all earlier ones being accepted. */
  function LastBefore(last: int, hs: seq<int>, i: nat): int
    requires i <= |hs|
  {
    if i == 0 then last else hs[i - 1]
  }

  function LastOf(last: int, hs: seq<int>): int {
    LastBefore(last, hs, |hs|)
  }

  /** Delivered in this order to a parent whose last height is `last`, every height is accepted. */
  ghost predicate Climbs(c: Config, last: int, hs: seq<int>) {
    forall i {:trigger LastBefore(last, hs, i)} :: 0 <= i < |hs| ==> Accepts(LastBefore(last, hs, i), c.period, hs[i])
  }

  /** `sent` is what a parent at `last` takes from `all` before it rejects something. */
  ghost predicate LongestClimb(c: Config, last: int, sent: seq<int>, all: seq<int>) {
    && sent <= all
    && Climbs(c, last, sent)
    && (sent != all ==> !Accepts(LastOf(last, sent), c.period, all[|sent|]))
  }

  lemma ClimbExtends(c: Config, last: int, hs: seq<int>, h: int)
    requires Climbs(c, last, hs)
    ensures Climbs(c, last, hs + [h]) <==> Accepts(LastOf(last, hs), c.period, h)
  {
    var more := hs + [h];
    assert LastBefore(last, more, |hs|) == LastOf(last, hs) && more[|hs|] == h;
    forall i | 0 <= i < |hs| ensures LastBefore(last, more, i) == LastBefore(last, hs, i) && more[i] == hs[i] {
    }
  }

  /** What is delivered is everything exactly when everything climbs. */
  lemma LongestClimbIsAll(c: Config, last: int, sent: seq<int>, all: seq<int>)
    requires LongestClimb(c, last, sent, all)
    ensures sent == all <==> Climbs(c, last, all)
  {
    if sent != all {
      assert !Accepts(LastBefore(last, all, |sent|), c.period, all[|sent|]);
    }
  }

  /** One climb after another. */
  lemma ClimbsChain(c: Config, last: int, done: seq<int>, sent: seq<int>)
    requires Climbs(c, last, done) && Climbs(c, LastOf(last, done), sent)
    ensures Climbs(c, last, done + sent)
    ensures LastOf(last, done + sent) == LastOf(LastOf(last, done), sent)
  {
    var hs := done + sent;
    forall i | 0 <= i < |hs| ensures Accepts(LastBefore(last, hs, i), c.period, hs[i]) {
      if i < |done| {
        assert LastBefore(last, hs, i) == LastBefore(last, done, i);
      } else {
        assert LastBefore(last, hs, i) == LastBefore(LastOf(last, done), sent, i - |done|);
      }
    }
  }

  /** Sending `all` in order to a parent at `last`. If no remote call failed (`fair`) the pass stops only when
      the parent rejects something, and goes on (`ok`) exactly if everything was sent and taken. A failed call
      ends the pass: what was sent by then is acceptable, and was executed except perhaps for the last. */
  ghost predicate Delivery(c: Config, fair: bool, ok: bool, last: int, last': int, sent: seq<int>, all: seq<int>) {
    match fair
    case true => LongestClimb(c, last, sent, all) && last' == LastOf(last, sent) && (ok <==> sent == all)
    case false => !ok && sent <= all && Climbs(c, last, sent) && Executed(last, last', sent)
  }

  /** Everything sent was executed, or everything but the last. */
  predicate Executed(last: int, last': int, sent: seq<int>) {
    last' == LastOf(last, sent) || (sent != [] && last' == LastOf(last, sent[..|sent| - 1]))
  }

  lemma NothingSent(c: Config, last: int, all: seq<int>)
    ensures Delivery(c, false, false, last, last, [], all)
    ensures all == [] ==> Delivery(c, true, true, last, last, [], all)
  {
  }

  /** All of `all` was sent and taken, told one height at a time. */
  ghost predicate Took(c: Config, last: int, last': int, all: seq<int>)
    decreases |all|
  {
    if all == [] then last' == last
    else
      var n := |all| - 1;
      var mid := LastBefore(last, all, n);
      last' == all[n] && Accepts(mid, c.period, last') && Took(c, last, mid, all[..n])
  }

  lemma {:induction false} TookAll(c: Config, last: int, last': int, all: seq<int>)
    ensures Took(c, last, last', all) <==> Climbs(c, last, all) && last' == LastOf(last, all)
    ensures Took(c, last, last', all) ==> Delivery(c, true, true, last, last', all, all)
    decreases |all|
  {
    if all != [] {
      var n := |all| - 1;
      TookAll(c, last, LastBefore(last, all, n), all[..n]);
      ClimbSnoc(c, last, all);
    }
  }

  lemma ClimbSnoc(c: Config, last: int, all: seq<int>)
    requires all != []
    ensures var n := |all| - 1;
            Climbs(c, last, all) <==> Climbs(c, last, all[..n]) && Accepts(LastBefore(last, all, n), c.period, all[n])
  {
    var n := |all| - 1;
    forall i | 0 <= i < n ensures LastBefore(last, all[..n], i) == LastBefore(last, all, i) && all[..n][i] == all[i] {
    }
  }

  /** The next stretch `next` of `all`, after `done`. */
  lemma DeliveriesChain(c: Config, fair: bool, ok: bool, last: int, mid: int, last': int,
                        done: seq<int>, sent: seq<int>, next: seq<int>, all: seq<int>)
    requires Took(c, last, mid, done) && Delivery(c, fair, ok, mid, last', sent, next) && done + next <= all
    ensures ok ==> fair && Took(c, last, last', done + next)
    ensures !ok ==> Delivery(c, fair, false, last, last', done + sent, all)
  {
    TookAll(c, last, mid, done);
    TookAll(c, last, last', done + next);
    ClimbsChain(c, last, done, sent);
    ExecutedChain(last, last', done, sent);
    assert forall i :: 0 <= i < |next| ==> all[|done| + i] == (done + next)[|done| + i] == next[i];
  }

  lemma ExecutedChain(last: int, last': int, done: seq<int>, sent: seq<int>)
    requires Executed(LastOf(last, done), last', sent)
    ensures Executed(last, last', done + sent)
  {
    if sent != [] {
      assert (done + sent)[..|done + sent| - 1] == done + sent[..|sent| - 1];
    }
  }

  // ---------------------------------------------------------------- when a pass catches up

  /** Checkpoint heights from the `from`-th to the `to`-th. */
  function Rungs(c: Config, from: nat, to: nat): (hs: seq<int>)
    requires from <= to + 1
    ensures |hs| == to + 1 - from
    ensures forall i :: 0 <= i < |hs| ==> hs[i] == c.Rung(from + i)
  {
    seq(to + 1 - from, i requires 0 <= i < to + 1 - from => c.Rung(from + i))
  }

  /** Quorum is reached for the checkpoints in order, none twice and none left out. */
  ghost predicate InOrder(c: Config, events: int -> seq<int>, finalized: int) {
    Named(events, 1, finalized) == Rungs(c, 1, |Named(events, 1, finalized)|)
  }

  /** Quorum for a checkpoint is reached after it is cut and no later than one period after. */
  ghost predicate OnTime(c: Config, events: int -> seq<int>, finalized: int) {
    forall b, h :: 1 <= b <= finalized && h in events(b) ==> h <= b <= h + c.period
  }

  /** How many checkpoints had their quorum event by block `b`. */
  ghost function Reached(events: int -> seq<int>, b: int): nat {
    |Named(events, 1, b)|
  }

  /** The heights a pass submits, in order, when nothing stops it: those named by events in the finalized
      blocks above the last accepted height, once the finalized height has reached the next checkpoint. */
  ghost function Met(c: Config, events: int -> seq<int>, last: int, finalized: int): seq<int> {
    if finalized < last + c.period then [] else Named(events, last + 1, finalized)
  }

  /** The scan starts right after the last accepted height, so what it meets are the checkpoints whose
      quorum came later than that block. */
  lemma ScanMeets(c: Config, events: int -> seq<int>, top: nat, finalized: int)
    requires c.Valid() && InOrder(c, events, finalized) && c.Rung(top) <= finalized
    ensures Reached(events, c.Rung(top)) <= Reached(events, finalized)
    ensures Named(events, c.Rung(top) + 1, finalized)
            == Rungs(c, Reached(events, c.Rung(top)) + 1, Reached(events, finalized))
  {
    NamedSplits(events, 1, c.Rung(top), finalized);
    var all := Named(events, 1, finalized);
    assert Named(events, c.Rung(top) + 1, finalized) == all[Reached(events, c.Rung(top))..];
    LaterRungs(c, Reached(events, c.Rung(top)), Reached(events, finalized));
  }

  lemma LaterRungs(c: Config, m: nat, n: nat)
    requires m <= n
    ensures Rungs(c, 1, n)[m..] == Rungs(c, m + 1, n)
  {
  }

  lemma RungAccepted(c: Config, top: nat, from: nat)
    requires c.Valid()
    ensures Accepts(c.Rung(top), c.period, c.Rung(from)) <==> top <= from <= top + 1
  {
  }

  lemma RungsClimb(c: Config, top: nat, from: nat, to: nat)
    requires c.Valid() && from <= to
    ensures Climbs(c, c.Rung(top), Rungs(c, from, to)) <==> top <= from <= top + 1
    ensures LastOf(c.Rung(top), Rungs(c, from, to)) == c.Rung(to)
  {
    var last, hs := c.Rung(top), Rungs(c, from, to);
    assert hs[|hs| - 1] == c.Rung(from + (|hs| - 1));
    RungAccepted(c, top, from);
    assert Accepts(LastBefore(last, hs, 0), c.period, hs[0]) <==> top <= from <= top + 1;
    forall i | 0 < i < |hs| ensures Accepts(LastBefore(last, hs, i), c.period, hs[i]) {
      NextRung(c, from + i);
    }
  }

  lemma NextRung(c: Config, k: nat)
    requires 0 < k
    ensures Accepts(c.Rung(k - 1), c.period, c.Rung(k))
  {
  }

  /** Exactly when a scan meets no rejection: nothing is left to submit, or by the block of the last
      accepted checkpoint quorum had been reached for exactly that checkpoint or the one before it.
      Otherwise the scan meets a stale checkpoint, or one too far ahead. */
  lemma ScanSucceedsExactly(c: Config, events: int -> seq<int>, top: nat, finalized: int)
    requires c.Valid() && InOrder(c, events, finalized) && c.Rung(top) <= finalized
    ensures Climbs(c, c.Rung(top), Named(events, c.Rung(top) + 1, finalized)) <==>
            (Reached(events, c.Rung(top)) == Reached(events, finalized)
             || top - 1 <= Reached(events, c.Rung(top)) <= top)
  {
    ScanMeets(c, events, top, finalized);
    var m, k := Reached(events, c.Rung(top)), Reached(events, finalized);
    if m < k {
      RungsClimb(c, top, m + 1, k);
    }
  }

  /** Timely quorums keep the number of checkpoints reached by any checkpoint block within one. */
  lemma OnTimeKeepsPace(c: Config, events: int -> seq<int>, top: nat, finalized: int)
    requires c.Valid() && InOrder(c, events, finalized) && OnTime(c, events, finalized)
    requires c.Rung(top) <= finalized
    ensures Reached(events, c.Rung(top)) <= top
    ensures Reached(events, c.Rung(top)) <= Reached(events, finalized)
    ensures Reached(events, c.Rung(top)) < Reached(events, finalized) ==> top - 1 <= Reached(events, c.Rung(top))
  {
    ScanMeets(c, events, top, finalized);
    NoneTooEarly(c, events, top, finalized);
    if Reached(events, c.Rung(top)) < Reached(events, finalized) {
      NoneTooLate(c, events, top, finalized);
    }
  }

  lemma NoneTooEarly(c: Config, events: int -> seq<int>, top: nat, finalized: int)
    requires c.Valid() && InOrder(c, events, finalized) && OnTime(c, events, finalized)
    requires c.Rung(top) <= finalized
    ensures Reached(events, c.Rung(top)) <= top
  {
    var block := c.Rung(top);
    var m := Reached(events, block);
    NamedSplits(events, 1, block, finalized);
    if 0 < m {
      var h := Named(events, 1, block)[m - 1];
      assert h == Named(events, 1, finalized)[m - 1] == c.Rung(m);
      NamedMembership(events, 1, block, h);
      c.RungOrder(top, m);
    }
  }

  lemma FirstRung(c: Config, from: nat, to: nat) returns (h: int)
    requires from <= to
    ensures h == c.Rung(from) && h in Rungs(c, from, to)
  {
    h := Rungs(c, from, to)[0];
  }

  lemma NoneTooLate(c: Config, events: int -> seq<int>, top: nat, finalized: int)
    requires c.Valid() && InOrder(c, events, finalized) && OnTime(c, events, finalized)
    requires c.Rung(top) <= finalized && Reached(events, c.Rung(top)) < Reached(events, finalized)
    ensures top - 1 <= Reached(events, c.Rung(top))
  {
    ScanMeets(c, events, top, finalized);
    var block := c.Rung(top);
    var m := Reached(events, block);
    var h := FirstRung(c, m + 1, Reached(events, finalized));
    NamedMembership(events, block + 1, finalized, h);
    assert block + 1 <= h + c.period == c.Rung(m + 2);
    c.RungOrder(top, m + 2);
  }

  /** A checkpoint block must exist before its quorum does. */
  lemma NothingBeforeTheGate(c: Config, events: int -> seq<int>, top: nat, finalized: int)
    requires c.Valid() && InOrder(c, events, finalized) && OnTime(c, events, finalized)
    requires finalized < c.Rung(top) + c.period
    ensures Reached(events, finalized) <= top
  {
    var k := Reached(events, finalized);
    if 0 < k {
      var h := Named(events, 1, finalized)[k - 1];
      assert h == Rungs(c, 1, k)[k - 1] == c.Rung(k);
      NamedMembership(events, 1, finalized, h);
      assert c.Rung(k) <= finalized;
      c.RungOrder(top, k);
    }
  }

  /** Catch-up: with ordered and timely quorums, what a pass meets after the last accepted checkpoint is
      all accepted, and the last one accepted is the newest checkpoint with quorum. */
  lemma TimelyQuorumsCatchUp(c: Config, events: int -> seq<int>, top: nat, finalized: int)
    requires c.Valid() && InOrder(c, events, finalized) && OnTime(c, events, finalized)
    requires top <= Reached(events, finalized)
    ensures Climbs(c, c.Rung(top), Met(c, events, c.Rung(top), finalized))
    ensures LastOf(c.Rung(top), Met(c, events, c.Rung(top), finalized)) == c.Rung(Reached(events, finalized))
  {
    if finalized < c.Rung(top) + c.period {
      NothingBeforeTheGate(c, events, top, finalized);
    } else {
      GateOpenClimbs(c, events, top, finalized);
      GateOpenReachesNewest(c, events, top, finalized);
    }
  }

  lemma GateOpenClimbs(c: Config, events: int -> seq<int>, top: nat, finalized: int)
    requires c.Valid() && InOrder(c, events, finalized) && OnTime(c, events, finalized)
    requires c.Rung(top) <= finalized
    ensures Climbs(c, c.Rung(top), Named(events, c.Rung(top) + 1, finalized))
  {
    OnTimeKeepsPace(c, events, top, finalized);
    ScanSucceedsExactly(c, events, top, finalized);
  }

  lemma GateOpenReachesNewest(c: Config, events: int -> seq<int>, top: nat, finalized: int)
    requires c.Valid() && InOrder(c, events, finalized) && OnTime(c, events, finalized)
    requires top <= Reached(events, finalized) && c.Rung(top) <= finalized
    ensures LastOf(c.Rung(top), Named(events, c.Rung(top) + 1, finalized)) == c.Rung(Reached(events, finalized))
  {
    var m, k := Reached(events, c.Rung(top)), Reached(events, finalized);
    ScanMeets(c, events, top, finalized);
    if m < k {
      RungsClimb(c, top, m + 1, k);
    } else {
      assert k == top by {
        OnTimeKeepsPace(c, events, top, finalized);
      }
    }
  }

  /** The first quorum event above the last accepted height names neither that height nor the next one. */
  ghost predicate Stale(c: Config, events: int -> seq<int>, last: int, block: int) {
    && last < block && Named(events, last + 1, block) != []
    && !Accepts(last, c.period, Named(events, last + 1, block)[0])
  }

  /** Then no later scan ever gets past it, however far the child has grown. */
  lemma StaleEventWedges(c: Config, events: int -> seq<int>, last: int, block: int, finalized: int, sent: seq<int>)
    requires Stale(c, events, last, block) && block <= finalized
    requires sent <= Named(events, last + 1, finalized) && Climbs(c, last, sent)
    ensures sent == []
  {
    NamedSplits(events, last + 1, block, finalized);
    assert LastBefore(last, sent, 0) == last;
  }

  /** The parent is stuck: such an event is final. */
  ghost predicate Wedged(c: Config, s: System) {
    exists block :: block <= c.Finalized(s.child.head) && Stale(c, s.child.events, s.parent.last, block)
  }

  lemma WedgedSurvives(c: Config, s: System, s': System)
    requires Wedged(c, s) && s'.parent.last == s.parent.last && Grows(c, s.child, s'.child)
    ensures Wedged(c, s')
  {
    var block :| block <= c.Finalized(s.child.head) && Stale(c, s.child.events, s.parent.last, block);
    NamedAgrees(s.child.events, s'.child.events, s.parent.last + 1, block);
    assert Stale(c, s'.child.events, s'.parent.last, block);
  }

  lemma DeliveryClimbs(c: Config, fair: bool, ok: bool, last: int, last': int, sent: seq<int>, all: seq<int>)
    requires Delivery(c, fair, ok, last, last', sent, all)
    ensures sent <= all && Climbs(c, last, sent) && (sent == [] ==> last' == last) && (ok ==> sent == all)
  {
  }

  lemma WedgedDelivers(c: Config, s: System, fair: bool, ok: bool, last': int, sent: seq<int>)
    requires Wedged(c, s)
    requires Delivery(c, fair, ok, s.parent.last, last', sent,
                      Met(c, s.child.events, s.parent.last, c.Finalized(s.child.head)))
    ensures last' == s.parent.last
  {
    var finalized := c.Finalized(s.child.head);
    var all := Met(c, s.child.events, s.parent.last, finalized);
    DeliveryClimbs(c, fair, ok, s.parent.last, last', sent, all);
    if all != [] {
      var block :| block <= finalized && Stale(c, s.child.events, s.parent.last, block);
      StaleEventWedges(c, s.child.events, s.parent.last, block, finalized, sent);
    }
  }

  /** Quorum for checkpoint 10 comes in block 25, more than a period late, and for 20 in block 26. */
  function LateEvents(block: int): seq<int> {
    if block == 25 then [10] else if block == 26 then [20] else if block == 35 then [30] else []
  }

  lemma LateBy26(lo: int)
    requires 0 < lo <= 25
    ensures Named(LateEvents, lo, 26) == [10, 20]
  {
    LateQuiet(lo, 24);
    assert Named(LateEvents, lo, 25) == [10];
  }

  lemma LateNamed(lo: int, hi: int)
    requires 0 < lo <= 25 && 35 <= hi
    ensures Named(LateEvents, lo, hi) == [10, 20, 30]
  {
    LateBy26(lo);
    NamedSplits(LateEvents, lo, 26, hi);
    assert Named(LateEvents, 27, hi) == [30] by {
      LateQuiet(27, 34);
      LateQuiet(36, hi);
      NamedSplits(LateEvents, 27, 35, hi);
    }
  }

  lemma {:induction false} LateQuiet(lo: int, hi: int)
    requires forall b :: lo <= b <= hi ==> LateEvents(b) == []
    ensures Named(LateEvents, lo, hi) == []
    decreases hi - lo
  {
    if lo <= hi {
      LateQuiet(lo, hi - 1);
    }
  }

  /** Timeliness is needed: here quorums come in order, a first pass takes the parent to 20, and from then
      on it is stuck at the event for 10, so checkpoint 30 is never submitted. */
  lemma LateQuorumWedgesRelayer(s: System)
    requires s.child.events == LateEvents && 35 <= s.child.head && s.parent.last == 20
    ensures InOrder(Config(10, 0), LateEvents, s.child.head)
    ensures Climbs(Config(10, 0), 0, Named(LateEvents, 1, 26))
    ensures LastOf(0, Named(LateEvents, 1, 26)) == 20
    ensures Wedged(Config(10, 0), s)
  {
    var c := Config(10, 0);
    LateBy26(1);
    LateNamed(1, s.child.head);
    assert c.Rung(1) == 10 && c.Rung(2) == 20 && c.Rung(3) == 30;
    assert Rungs(c, 1, 3) == [10, 20, 30];
    LateBy26(21);
    assert Stale(c, LateEvents, 20, 26);
  }

  /** The parent's last height is that of a checkpoint whose quorum is finalized. */
  lemma LastIsRung(c: Config, s: System) returns (top: nat)
    requires c.Valid() && Inv(c, s) && InOrder(c, s.child.events, c.Finalized(s.child.head))
    ensures s.parent.last == c.Rung(top) && top <= Reached(s.child.events, c.Finalized(s.child.head))
  {
    var finalized := c.Finalized(s.child.head);
    top := LadderIsGapless(c, s.parent.accepted, |s.parent.accepted|);
    if s.parent.last != 0 {
      LastWasReached(c, s);
      NamedMembership(s.child.events, 1, finalized, s.parent.last);
      var all := Named(s.child.events, 1, finalized);
      var rungs := Rungs(c, 1, |all|);
      var i :| 0 <= i < |rungs| && rungs[i] == s.parent.last;
      c.RungOrder(1 + i, top);
    } else {
      c.RungOrder(0, top);
    }
  }

  // ---------------------------------------------------------------- the daemon

  class Relayer {
    const c: Config
    const me: Submitter
    var sys: System
    var faults: seq<Fault>

    /** The state is one that the step protocol can reach. */
    ghost predicate Valid()
      reads this
    {
      c.Valid() && Reachable(c, sys)
    }

    constructor (c: Config, me: Submitter, child: Child, faults: seq<Fault>)
      requires c.Valid()
      ensures Valid() && this.c == c && this.me == me && this.faults == faults
      ensures sys == System(Parent(0, {}, []), child, map[], [])
    {
      this.c, this.me, this.faults := c, me, faults;
      sys := System(Parent(0, {}, []), child, map[], []);
      new;
      assert Initial(sys);
    }

    method Do(a: Action)
      requires Valid() && Enabled(c, sys, a)
      modifies this`sys
      ensures Valid() && sys == Apply(c, old(sys), a)
    {
      ReachableStep(c, sys, a);
      sys := Apply(c, sys, a);
    }

    /** Exactly `n` faults struck. */
    twostate predicate Uses(n: nat)
      reads this
    {
      FaultsIn(old(faults)) == FaultsIn(faults) + n
    }

    /** A remote call that only reads: it answers, or the pass is over. */
    method Call() returns (ok: bool)
      requires Valid()
      modifies this
      ensures Valid()
      ensures sys == if ok then old(sys) else old(sys).Goto(me, Start)
      ensures Uses(if ok then 0 else 1)
    {
      var fault := NextFault();
      ok := fault.Fine?;
      if !ok {
        Do(Fail(me));
      }
    }

    /** Takes the next entry off the fault schedule. */
    method NextFault() returns (fault: Fault)
      modifies this`faults
      ensures if old(faults) == [] then fault == Fine && faults == []
              else fault == old(faults)[0] && faults == old(faults)[1..]
      ensures Uses(if fault.Fine? then 0 else 1)
    {
      fault := Fine;
      if faults != [] {
        fault, faults := faults[0], faults[1..];
      }
    }

    /** This daemon has a vote in the parent's last checkpoint, if there is one. */
    ghost predicate Voted()
      reads this
    {
      sys.parent.last == 0 || me in sys.parent.voters
    }

    /** The transaction this daemon is about to send, mined or still pooled. */
    ghost function MyTx(status: Status): Tx
      requires sys.PcOf(me).SendLast? || sys.PcOf(me).SendNext?
      reads this
    {
      Tx(me, sys.PcOf(me).bundle, status)
    }

    /** Where a successful submission leads. */
    ghost function AfterReceipt(): Pc
      requires sys.PcOf(me).SendLast? || sys.PcOf(me).SendNext?
      reads this
    {
      match sys.PcOf(me)
      case SendNext(first, block, finalized, sent, pending, b) =>
        Drain(first, block, finalized, sent + [b.checkpoint.height], pending)
      case _ => ReadNext
    }

    /** A transaction the parent accepts reaches the pool, is mined, and is acknowledged, unless a fault
        interrupts the daemon on the way. */
    method Transact(fault: Fault) returns (ok: bool)
      requires Valid() && (sys.PcOf(me).SendLast? || sys.PcOf(me).SendNext?)
      requires Accepts(sys.parent.last, c.period, sys.PcOf(me).bundle.checkpoint.height)
      modifies this`sys
      ensures Valid() && sys.child == old(sys).child && ok == (fault != Stalled && fault != ReceiptLost)
      ensures sys.txs == old(sys).txs + [old(MyTx(if fault == Stalled then Pending else Accepted))]
      ensures sys.parent == if fault == Stalled then old(sys).parent
                            else Execute(c, old(sys).parent, me, old(sys).PcOf(me).bundle)
      ensures sys.PcOf(me) == if ok then old(AfterReceipt()) else Start
    {
      var tx := |sys.txs|;
      Do(Send(me));
      ok := fault != Stalled && fault != ReceiptLost;
      if fault != Stalled {
        Do(Mine(tx));
      }
      if ok {
        Do(Receipt(me));
      } else {
        Do(Fail(me));
      }
    }

    /** Submission and the wait for its receipt. A bundle the parent would reject is refused when its
        gas is estimated, before anything reaches the pool. */
    method Submit() returns (ok: bool)
      requires Valid() && (sys.PcOf(me).SendLast? || sys.PcOf(me).SendNext?)
      modifies this
      ensures Valid() && sys.child == old(sys).child
      ensures sys.PcOf(me) == if ok then old(AfterReceipt()) else Start
      ensures var h := old(sys).PcOf(me).bundle.checkpoint.height;
              && (sys.txs == old(sys).txs
                  || (Accepts(old(sys).parent.last, c.period, h)
                      && (sys.txs == old(sys).txs + [old(MyTx(Pending))]
                          || sys.txs == old(sys).txs + [old(MyTx(Accepted))])))
              && (sys.txs == old(sys).txs ==> sys.parent == old(sys).parent)
              && (sys.parent.last == old(sys).parent.last || sys.parent.last == h)
              && (ok ==> Uses(0) && sys.txs == old(sys).txs + [old(MyTx(Accepted))] && sys.parent.last == h)
              && (old(Voted()) || ok ==> Voted())
              && (Uses(0) || Uses(1))
              && (Uses(0) ==>
                    && (ok <==> Accepts(old(sys).parent.last, c.period, h))
                    && (!ok ==> sys.txs == old(sys).txs))
    {
      var fault := NextFault();
      if fault == Broken || !Accepts(sys.parent.last, c.period, sys.PcOf(me).bundle.checkpoint.height) {
        Do(Fail(me));
        return false;
      }
      ok := Transact(fault);
    }

    /** Only this daemon's program counter moved. */
    twostate predicate Answered()
      reads this
    {
      sys.parent == old(sys).parent && sys.child == old(sys).child && sys.txs == old(sys).txs
    }

    method HasSubmittedInLastCheckpointHeight() returns (ok: bool, voted: bool)
      requires Valid() && sys.PcOf(me) == Start
      modifies this
      ensures Valid() && Answered() && voted == (me in sys.parent.voters)
      ensures sys.PcOf(me) == if !ok then Start else if voted then ReadNext else ReadLast
      ensures Uses(if ok then 0 else 1)
    {
      ok := Call();
      voted := me in sys.parent.voters;
      if ok {
        Do(AnswerVoted(me));
      }
    }

    method LastBottomUpCheckpointHeight() returns (ok: bool, height: int)
      requires Valid() && (sys.PcOf(me).ReadLast? || sys.PcOf(me).ReadNext?)
      modifies this
      ensures Valid() && Answered() && height == sys.parent.last
      ensures sys.PcOf(me) == if !ok then Start
                              else if old(sys).PcOf(me).ReadNext? then ReadHead(height + c.period)
                              else if height == 0 then ReadNext
                              else FetchLast(height)
      ensures Uses(if ok then 0 else 1)
    {
      ok := Call();
      height := sys.parent.last;
      if ok {
        Do(AnswerLast(me));
      }
    }

    method CheckpointBundleAt(signatures: nat) returns (ok: bool)
      requires Valid() && (sys.PcOf(me).FetchLast? || (sys.PcOf(me).Drain? && sys.PcOf(me).pending != []))
      modifies this
      ensures Valid() && Answered()
      ensures !ok ==> sys.PcOf(me) == Start
      ensures ok && old(sys).PcOf(me).FetchLast? ==>
                sys.PcOf(me) == SendLast(sys.child.BundleAt(old(sys).PcOf(me).height, signatures))
      ensures ok && old(sys).PcOf(me).Drain? ==>
                var p := old(sys).PcOf(me);
                sys.PcOf(me) == SendNext(p.first, p.block, p.finalized, p.sent, p.pending[1..],
                                         sys.child.BundleAt(p.pending[0], signatures))
      ensures Uses(if ok then 0 else 1)
    {
      ok := Call();
      if ok {
        Do(AnswerBundle(me, signatures));
      }
    }

    method CurrentEpoch() returns (ok: bool, head: int)
      requires Valid() && sys.PcOf(me).ReadHead?
      modifies this
      ensures Valid() && Answered() && head == sys.child.head
      ensures var next := old(sys).PcOf(me).next;
              var first := next - c.period + 1;
              sys.PcOf(me) == if !ok || c.Finalized(head) < next then Start
                              else Scan(first, first, c.Finalized(head), [])
      ensures Uses(if ok then 0 else 1)
    {
      ok := Call();
      head := sys.child.head;
      if ok {
        Do(AnswerHead(me));
      }
    }

    method QuorumReachedEvents(block: int) returns (ok: bool, heights: seq<int>)
      requires Valid() && sys.PcOf(me).Scan? && sys.PcOf(me).block == block <= sys.PcOf(me).finalized
      modifies this
      ensures Valid() && Answered() && heights == sys.child.events(block)
      ensures var p := old(sys).PcOf(me);
              sys.PcOf(me) == if !ok then Start else Drain(p.first, block, p.finalized, p.sent, heights)
      ensures Uses(if ok then 0 else 1)
    {
      ok := Call();
      heights := sys.child.events(block);
      if ok {
        Do(AnswerEvents(me));
      }
    }

    /** Repeats the last accepted checkpoint if this submitter has no vote in it yet, so that it has one. */
    method SubmitLastEpoch() returns (ok: bool)
      requires Valid() && sys.PcOf(me) == Start
      modifies this
      ensures Valid() && sys.child == old(sys).child && sys.parent.last == old(sys).parent.last
      ensures sys.PcOf(me) == if ok then ReadNext else Start
      ensures Uses(if ok then 0 else 1) && (old(Voted()) || ok ==> Voted())
    {
      var voted, height;
      ok, voted := HasSubmittedInLastCheckpointHeight();
      if !ok || voted { return; }
      ok, height := LastBottomUpCheckpointHeight();
      if !ok || height == 0 { return; }
      ok := CheckpointBundleAt(0);
      if !ok { return; }
      ok := Submit();
    }

    /** The heights of all transactions sent so far. */
    ghost function Heights(): seq<int>
      reads this
    {
      HeightsOf(sys.txs)
    }

    /** Since the heights `base` were sent, the parent was at `last` and `left` faults were to come, the heights
        `all` were to be sent; at most one fault struck. */
    ghost predicate Sent(ok: bool, base: seq<int>, last: int, left: nat, all: seq<int>)
      reads this
    {
      && base <= Heights()
      && FaultsIn(faults) <= left <= FaultsIn(faults) + 1
      && Delivery(c, FaultsIn(faults) == left, ok, last, sys.parent.last, Heights()[|base|..], all)
    }

    twostate predicate SentInOrder(ok: bool, all: seq<int>)
      reads this
    {
      Sent(ok, old(Heights()), old(sys).parent.last, FaultsIn(old(faults)), all)
    }

    /** All of `done` was sent and taken, and no fault struck. */
    ghost predicate SoFar(base: seq<int>, last: int, left: nat, done: seq<int>)
      reads this
    {
      Heights() == base + done && FaultsIn(faults) == left && Took(c, last, sys.parent.last, done)
    }

    lemma AllSent(base: seq<int>, last: int, left: nat, all: seq<int>)
      requires SoFar(base, last, left, all)
      ensures Sent(true, base, last, left, all)
    {
      TookAll(c, last, sys.parent.last, all);
    }

    /** The delivery of `all` goes on, `done` being through by now, or it ends here. */
    ghost predicate GoesOn(ok: bool, base: seq<int>, last: int, left: nat, done: seq<int>, all: seq<int>)
      reads this
    {
      match ok
      case true => SoFar(base, last, left, done)
      case false => Sent(false, base, last, left, all)
    }

    /** The daemon is about to submit `pending`, named by events of block `h`. */
    ghost predicate AtEvent(h: int, finalized: int, pending: seq<int>)
      reads this
    {
      && sys.PcOf(me).Drain? && sys.PcOf(me).block == h && sys.PcOf(me).finalized == finalized
      && sys.PcOf(me).pending == pending
    }

    /** Fetches and submits the bundle of the i-th event. */
    method SubmitEvent(heights: seq<int>, i: nat, ghost h: int, ghost finalized: int,
                       ghost base: seq<int>, ghost last: int, ghost left: nat) returns (ok: bool)
      requires i < |heights| && Valid() && AtEvent(h, finalized, heights[i..])
      requires SoFar(base, last, left, heights[..i])
      modifies this
      ensures Valid() && sys.child == old(sys).child
      ensures if ok then AtEvent(h, finalized, heights[i + 1..]) else sys.PcOf(me) == Start
      ensures GoesOn(ok, base, last, left, heights[..i + 1], heights) && (old(Voted()) ==> Voted())
    {
      ghost var mid := sys.parent.last;
      assert heights[..i + 1] == heights[..i] + [heights[i]];
      ok := FetchAndSubmit(h, finalized, heights[i..]);
      Turn(c, FaultsIn(faults) == left, ok, last, mid, sys.parent.last, base, Heights(),
           heights[..i], [heights[i]], heights);
    }

    method FetchAndSubmit(ghost h: int, ghost finalized: int, ghost pending: seq<int>) returns (ok: bool)
      requires Valid() && AtEvent(h, finalized, pending) && pending != []
      modifies this
      ensures Valid() && sys.child == old(sys).child
      ensures if ok then AtEvent(h, finalized, pending[1..]) else sys.PcOf(me) == Start
      ensures SentInOrder(ok, [pending[0]]) && (old(Voted()) ==> Voted())
    {
      ghost var before, last := sys.txs, sys.parent.last;
      ok := CheckpointBundleAt(0);
      if !ok { return; }
      ghost var tx := MyTx(Accepted);
      ok := Submit();
      Appended(before, tx);
      Appended(before, tx.(status := Pending));
      ClimbExtends(c, last, [], pending[0]);
    }

    /** Submits what the events of one block name, in order, up to the first failure. */
    method SubmitEvents(heights: seq<int>, ghost h: int, ghost finalized: int) returns (ok: bool)
      requires Valid() && AtEvent(h, finalized, heights)
      modifies this
      ensures Valid() && sys.child == old(sys).child
      ensures if ok then AtEvent(h, finalized, []) else sys.PcOf(me) == Start
      ensures SentInOrder(ok, heights) && (old(Voted()) ==> Voted())
    {
      ghost var base, last, left := Heights(), sys.parent.last, FaultsIn(faults);
      assert heights[0..] == heights;
      ok := true;
      var i := 0;
      while i < |heights|
        invariant 0 <= i <= |heights| && ok
        invariant Valid() && sys.child == old(sys).child
        invariant AtEvent(h, finalized, heights[i..]) && SoFar(base, last, left, heights[..i])
        invariant old(Voted()) ==> Voted()
      {
        ok := SubmitEvent(heights, i, h, finalized, base, last, left);
        if !ok { return; }
        i := i + 1;
      }
      assert heights[..i] == heights;
      AllSent(base, last, left, heights);
    }

    /** The daemon is about to scan block `h`. */
    ghost predicate AtBlock(h: int, finalized: int)
      reads this
    {
      sys.PcOf(me).Scan? && sys.PcOf(me).block == h && sys.PcOf(me).finalized == finalized
    }

    /** One turn of the scan from `first`. */
    method ScanBlock(h: int, first: int, finalized: int, ghost base: seq<int>, ghost last: int, ghost left: nat) returns (ok: bool)
      requires Valid() && first <= h <= finalized && AtBlock(h, finalized)
      requires SoFar(base, last, left, Named(sys.child.events, first, h - 1))
      modifies this
      ensures Valid() && sys.child == old(sys).child
      ensures if ok then AtBlock(h + 1, finalized) else sys.PcOf(me) == Start
      ensures GoesOn(ok, base, last, left, Named(sys.child.events, first, h), Named(sys.child.events, first, finalized))
      ensures old(Voted()) ==> Voted()
    {
      ghost var mid, events := sys.parent.last, sys.child.events;
      NamedPrefix(events, first, h, finalized);
      ok := SubmitBlock(h, finalized);
      Turn(c, FaultsIn(faults) == left, ok, last, mid, sys.parent.last, base, Heights(),
           Named(events, first, h - 1), events(h), Named(events, first, finalized));
    }

    method SubmitBlock(h: int, finalized: int) returns (ok: bool)
      requires Valid() && AtBlock(h, finalized) && h <= finalized
      modifies this
      ensures Valid() && sys.child == old(sys).child
      ensures if ok then AtBlock(h + 1, finalized) else sys.PcOf(me) == Start
      ensures SentInOrder(ok, sys.child.events(h)) && (old(Voted()) ==> Voted())
    {
      var heights;
      ok, heights := QuorumReachedEvents(h);
      if !ok { return; }
      ok := SubmitEvents(heights, h, finalized);
      if !ok { return; }
      Do(Advance(me));
    }

    method ScanBlocks(first: int, finalized: int) returns (ok: bool)
      requires Valid() && first <= finalized && AtBlock(first, finalized)
      modifies this
      ensures Valid() && sys.child == old(sys).child
      ensures if ok then AtBlock(finalized + 1, finalized) else sys.PcOf(me) == Start
      ensures SentInOrder(ok, Named(sys.child.events, first, finalized)) && (old(Voted()) ==> Voted())
    {
      ghost var base, last, left := Heights(), sys.parent.last, FaultsIn(faults);
      ok := true;
      var h := first;
      while h <= finalized
        invariant Valid() && sys.child == old(sys).child
        invariant first <= h <= finalized + 1 && ok && AtBlock(h, finalized)
        invariant SoFar(base, last, left, Named(sys.child.events, first, h - 1)) && (old(Voted()) ==> Voted())
        decreases finalized - h
      {
        ok := ScanBlock(h, first, finalized, base, last, left);
        if !ok { return; }
        h := h + 1;
      }
      AllSent(base, last, left, Named(sys.child.events, first, finalized));
    }

    method FinishScan()
      requires Valid() && sys.PcOf(me).Scan? && sys.PcOf(me).finalized < sys.PcOf(me).block
      modifies this`sys
      ensures Valid() && Answered() && sys.PcOf(me) == Start
    {
      Do(Advance(me));
      Do(Advance(me));
    }

    method ScanAll(first: int, finalized: int) returns (ok: bool)
      requires Valid() && first <= finalized && sys.PcOf(me) == Scan(first, first, finalized, [])
      modifies this
      ensures Valid() && sys.child == old(sys).child && sys.PcOf(me) == Start
      ensures SentInOrder(ok, Named(sys.child.events, first, finalized)) && (old(Voted()) ==> Voted())
    {
      ok := ScanBlocks(first, finalized);
      if ok {
        FinishScan();
      }
    }

    /** Scans the finalized blocks above the last accepted height and submits what their quorum events
        name, unless the finalized height has not reached the next checkpoint yet. Nothing is sent then, and
        at no time anything that is named only in blocks which are not deep enough. */
    method SubmitNextEpoch() returns (ok: bool)
      requires Valid() && sys.PcOf(me) == ReadNext
      modifies this
      ensures Valid() && sys.child == old(sys).child && sys.PcOf(me) == Start
      ensures SentInOrder(ok, Met(c, sys.child.events, old(sys).parent.last, c.Finalized(sys.child.head)))
      ensures var next := old(sys).parent.last + c.period;
              1 < next && sys.child.head < next + c.finalizationBlocks ==> Heights() == old(Heights())
      ensures forall i :: |old(Heights())| <= i < |Heights()| ==>
                            NamedDeep(c, sys.child, old(sys).parent.last, Heights()[i])
      ensures old(Voted()) ==> Voted()
    {
      ReachableInv(c, sys);
      ok := ScanIfDue();
      ghost var last, finalized := old(sys).parent.last, c.Finalized(sys.child.head);
      ghost var sent := Heights()[|old(Heights())|..];
      DeliveryClimbs(c, Uses(0), ok, last, sys.parent.last, sent, Met(c, sys.child.events, last, finalized));
      forall i | |old(Heights())| <= i < |Heights()| ensures NamedDeep(c, sys.child, last, Heights()[i]) {
        assert Heights()[i] == sent[i - |old(Heights())|];
        MetIsDeep(c, sys.child, last, sent[i - |old(Heights())|]);
      }
    }

    method ScanIfDue() returns (ok: bool)
      requires Valid() && sys.PcOf(me) == ReadNext
      modifies this
      ensures Valid() && sys.child == old(sys).child && sys.PcOf(me) == Start
      ensures SentInOrder(ok, Met(c, sys.child.events, old(sys).parent.last, c.Finalized(sys.child.head)))
      ensures old(Voted()) ==> Voted()
    {
      NothingSent(c, sys.parent.last, Met(c, sys.child.events, sys.parent.last, c.Finalized(sys.child.head)));
      assert Heights()[|Heights()|..] == [];
      var last, head;
      ok, last := LastBottomUpCheckpointHeight();
      if !ok { return; }
      var next := last + c.period;
      ok, head := CurrentEpoch();
      var finalized := c.Finalized(head);
      if !ok || finalized < next { return; }
      assert Met(c, sys.child.events, last, finalized) == Named(sys.child.events, last + 1, finalized);
      ok := ScanAll(next - c.period + 1, finalized);
    }

    /** A whole pass. With ordered, timely quorums it succeeds exactly if no fault strikes, and then leaves the
        parent caught up; at most one fault can strike, since it ends the pass. A wedged parent stays where
        it is, fault or no fault. */
    method SubmitCheckpoint() returns (ok: bool)
      requires Valid() && sys.PcOf(me) == Start
      modifies this
      ensures Valid() && sys.child == old(sys).child && sys.PcOf(me) == Start
      ensures (Uses(0) || Uses(1)) && (ok ==> Uses(0))
      ensures Timely(c, sys) ==> (ok <==> Uses(0)) && (ok ==> CaughtUp(c, sys) && ReachedAllDeep(c, sys))
      ensures old(Voted()) || ok ==> Voted()
      ensures old(Wedged(c, sys)) ==> sys.parent.last == old(sys).parent.last
    {
      ok := SubmitLastEpoch();
      if !ok { return; }
      ghost var before := sys;
      ReachableInv(c, sys);
      label next:
      ok := SubmitNextEpoch();
      ghost var sent := Heights()[|HeightsOf(before.txs)|..];
      if Timely(c, sys) && Uses@next(0) {
        var top := LastIsRung(c, before);
        PassCatchesUp(c, sys.child.events, top, c.Finalized(sys.child.head), sys.parent.last, sent, ok);
        CaughtUpMeans(c, sys);
      }
      if old(Wedged(c, sys)) {
        WedgedSurvives(c, old(sys), before);
        WedgedDelivers(c, before, Uses@next(0), ok, sys.parent.last, sent);
      }
    }

    /** What others do during the i-th sleep, and then a pass. */
    method SleepAndPass(i: nat, meanwhile: (nat, System) -> System)
      requires Valid() && sys.PcOf(me) == Start && NotMyDoing(c, me, meanwhile)
      modifies this
      ensures Valid() && sys.PcOf(me) == Start && PassOutcome(c, sys, FaultsIn(old(faults)), FaultsIn(faults))
      ensures old(Wedged(c, sys)) && LeavesParent(c, meanwhile) ==>
                Wedged(c, sys) && sys.parent.last == old(sys).parent.last
    {
      sys := meanwhile(i, sys);
      ghost var woken := sys;
      var _ := SubmitCheckpoint();
      if old(Wedged(c, sys)) && LeavesParent(c, meanwhile) {
        WedgedSurvives(c, old(sys), woken);
        WedgedSurvives(c, woken, sys);
      }
    }

    /** The daemon's loop, which ignores the outcome of each pass; `ends` are the states after them, and `left`
        the numbers of faults still to come before the first and after each. While it sleeps anything may happen
        that is not its own doing: the child grows, other daemons submit, stalled transactions get mined. A pass
        that no fault strikes ends caught up, so at most as many passes leave a timely parent behind as faults
        strike: everything a pass needs is re-read from the chains. But a wedged parent that is left alone
        between passes never moves again. */
    method Run(passes: nat, meanwhile: (nat, System) -> System) returns (ends: seq<System>, left: seq<nat>)
      requires Valid() && sys.PcOf(me) == Start && NotMyDoing(c, me, meanwhile)
      modifies this
      ensures Valid() && sys.PcOf(me) == Start
      ensures |ends| == passes && (0 < passes ==> ends[passes - 1] == sys)
      ensures |left| == passes + 1 && left[0] == FaultsIn(old(faults)) && left[passes] == FaultsIn(faults)
      ensures forall i {:trigger ends[i]} :: 0 <= i < passes ==> PassOutcome(c, ends[i], left[i], left[i + 1])
      ensures Behind(c, ends) + FaultsIn(faults) <= FaultsIn(old(faults))
      ensures old(Wedged(c, sys)) && LeavesParent(c, meanwhile) ==> sys.parent.last == old(sys).parent.last
    {
      ends, left := [], [FaultsIn(faults)];
      for i := 0 to passes
        invariant Valid() && sys.PcOf(me) == Start
        invariant |ends| == i && (0 < i ==> ends[i - 1] == sys)
        invariant |left| == i + 1 && left[0] == FaultsIn(old(faults)) && left[i] == FaultsIn(faults)
        invariant forall k {:trigger ends[k]} :: 0 <= k < i ==> PassOutcome(c, ends[k], left[k], left[k + 1])
        invariant Behind(c, ends) + FaultsIn(faults) <= FaultsIn(old(faults))
        invariant old(Wedged(c, sys)) && LeavesParent(c, meanwhile) ==>
                    Wedged(c, sys) && sys.parent.last == old(sys).parent.last
      {
        SleepAndPass(i, meanwhile);
        BehindStep(c, ends, sys, left[i], FaultsIn(faults));
        ends, left := ends + [sys], left + [FaultsIn(faults)];
      }
    }
  }

  /** One pass, before which `left` faults were to come and after which `left'` are: at most one strikes, and if
      none does and quorums are timely the parent is caught up. */
  ghost predicate PassOutcome(c: Config, end: System, left: nat, left': nat) {
    && left' <= left <= left' + 1
    && (left == left' && Timely(c, end) ==> CaughtUp(c, end) && ReachedAllDeep(c, end))
  }

  /** Quorums are reached in order and on time, as far as finalized. */
  ghost predicate Timely(c: Config, s: System) {
    var finalized := c.Finalized(s.child.head);
    InOrder(c, s.child.events, finalized) && OnTime(c, s.child.events, finalized)
  }

  /** The parent has accepted the newest checkpoint whose quorum is finalized. */
  ghost predicate CaughtUp(c: Config, s: System) {
    s.parent.last == c.Rung(Reached(s.child.events, c.Finalized(s.child.head)))
  }

  /** The parent has reached every checkpoint named in a deep enough block, and none but those. */
  ghost predicate ReachedAllDeep(c: Config, s: System) {
    && (forall b, h :: Deep(c, s.child.head, b) && h in s.child.events(b) ==> h <= s.parent.last)
    && (s.parent.last == 0 || exists b :: Deep(c, s.child.head, b) && s.parent.last in s.child.events(b))
  }

  lemma CaughtUpMeans(c: Config, s: System)
    requires c.Valid() && InOrder(c, s.child.events, c.Finalized(s.child.head)) && CaughtUp(c, s)
    ensures ReachedAllDeep(c, s)
  {
    var finalized := c.Finalized(s.child.head);
    var n := Reached(s.child.events, finalized);
    var rungs := Rungs(c, 1, n);
    forall b, h | Deep(c, s.child.head, b) && h in s.child.events(b) ensures h <= s.parent.last {
      FinalizedIsDeep(c, s.child.head, b);
      NamedMembership(s.child.events, 1, finalized, h);
      var i :| 0 <= i < |rungs| && rungs[i] == h;
      c.RungOrder(i + 1, n);
    }
    if 0 < n {
      assert rungs[n - 1] == s.parent.last;
      NamedMembership(s.child.events, 1, finalized, s.parent.last);
      var b :| 1 <= b <= finalized && s.parent.last in s.child.events(b);
      FinalizedIsDeep(c, s.child.head, b);
    }
  }

  /** Some deep enough block above height `last` names `h`. */
  ghost predicate NamedDeep(c: Config, child: Child, last: int, h: int) {
    exists b :: last < b && Deep(c, child.head, b) && h in child.events(b)
  }

  lemma MetIsDeep(c: Config, child: Child, last: int, h: int)
    requires 0 <= last && h in Met(c, child.events, last, c.Finalized(child.head))
    ensures NamedDeep(c, child, last, h)
  {
    NamedMembership(child.events, last + 1, c.Finalized(child.head), h);
    var b :| last + 1 <= b <= c.Finalized(child.head) && h in child.events(b);
    FinalizedIsDeep(c, child.head, b);
  }

  /** In how many of the states quorums are timely and yet the parent is not caught up. */
  ghost function Behind(c: Config, states: seq<System>): nat {
    if states == [] then 0
    else
      var s := states[|states| - 1];
      Behind(c, states[..|states| - 1]) + if Timely(c, s) && !CaughtUp(c, s) then 1 else 0
  }

  lemma BehindStep(c: Config, states: seq<System>, s: System, left: nat, left': nat)
    requires PassOutcome(c, s, left, left')
    ensures Behind(c, states + [s]) + left' <= Behind(c, states) + left
  {
    assert (states + [s])[..|states|] == states;
  }

  /** So if quorums are timely throughout, more passes than faults mean that one of them ended caught up. */
  lemma {:induction false} FewerFaultsThanPasses(c: Config, ends: seq<System>)
    requires forall i :: 0 <= i < |ends| ==> Timely(c, ends[i])
    requires Behind(c, ends) < |ends|
    ensures exists i :: 0 <= i < |ends| && CaughtUp(c, ends[i])
    decreases |ends|
  {
    var n := |ends| - 1;
    if !CaughtUp(c, ends[n]) {
      FewerFaultsThanPasses(c, ends[..n]);
      var i :| 0 <= i < n && CaughtUp(c, ends[..n][i]);
      assert CaughtUp(c, ends[i]);
    }
  }

  /** What happens during the i-th sleep leads from possible states to possible states and does not move
      the daemon `me`. */
  ghost predicate NotMyDoing(c: Config, me: Submitter, meanwhile: (nat, System) -> System) {
    forall i, s :: Reachable(c, s) ==> Reachable(c, meanwhile(i, s)) && meanwhile(i, s).PcOf(me) == s.PcOf(me)
  }

  /** It leaves the parent's last height alone, and the child grows as children do. */
  ghost predicate LeavesParent(c: Config, meanwhile: (nat, System) -> System) {
    forall i, s :: meanwhile(i, s).parent.last == s.parent.last && Grows(c, s.child, meanwhile(i, s).child)
  }

  /** The second half of a fault-free pass that starts at the `top`-th checkpoint. */
  lemma PassCatchesUp(c: Config, events: int -> seq<int>, top: nat, finalized: int, last': int, sent: seq<int>, ok: bool)
    requires c.Valid() && InOrder(c, events, finalized) && OnTime(c, events, finalized)
    requires top <= Reached(events, finalized)
    requires Delivery(c, true, ok, c.Rung(top), last', sent, Met(c, events, c.Rung(top), finalized))
    ensures ok && last' == c.Rung(Reached(events, finalized))
  {
    TimelyQuorumsCatchUp(c, events, top, finalized);
    LongestClimbIsAll(c, c.Rung(top), sent, Met(c, events, c.Rung(top), finalized));
  }

  lemma NamedPrefix(events: int -> seq<int>, first: int, h: int, finalized: int)
    requires first <= h <= finalized
    ensures Named(events, first, h) == Named(events, first, h - 1) + events(h) <= Named(events, first, finalized)
  {
    NamedSplits(events, first, h, finalized);
  }

  /** One more stretch adds to what was sent since `base`, or ends the sending. */
  lemma Turn(c: Config, fair: bool, ok: bool, last: int, mid: int, last': int, base: seq<int>, now: seq<int>,
             done: seq<int>, next: seq<int>, all: seq<int>)
    requires base + done <= now && done + next <= all
    requires Took(c, last, mid, done) && Delivery(c, fair, ok, mid, last', now[|base + done|..], next)
    ensures ok ==> fair && now == base + (done + next) && Took(c, last, last', done + next)
    ensures !ok ==> base <= now && Delivery(c, fair, false, last, last', now[|base|..], all)
  {
    var sent := now[|base + done|..];
    DeliveryClimbs(c, fair, ok, mid, last', sent, next);
    DeliveriesChain(c, fair, ok, last, mid, last', done, sent, next, all);
    assert now == (base + done) + sent == base + (done + sent);
    assert now[|base|..] == done + sent;
    if ok {
      assert sent == next;
    }
  }
}
