/** Catch-up among others: whatever other daemons do in the middle of a pass, a pass that finishes leaves the
    parent at least at the newest checkpoint whose quorum was final when the pass started to scan.

    A daemon takes a mined transaction for a success even if the parent rejected it. The argument below is
    that with ordered, timely quorums such a rejection only ever means that someone else was faster. */
module ConcurrentCatchUp {
  import opened CheckpointChains
  import opened RelayerProtocol
  import opened RelayerPass

  /** Quorums up to block `finalized` are reached in order and on time. */
  ghost predicate TimelyTo(c: Config, events: int -> seq<int>, finalized: int) {
    InOrder(c, events, finalized) && OnTime(c, events, finalized)
  }

  // ---------------------------------------------------------------- the invariant

  /** The pass was told that `last` was the parent's last height. */
  ghost predicate Told(c: Config, s: System, last: int) {
    last <= s.parent.last && (last == 0 || QuorumReached(c, s.child, last))
  }

  /** The scan starts above a height that the parent had reached, in blocks that are final. */
  ghost predicate ScanBase(c: Config, s: System, first: int, finalized: int) {
    && (first - 1 == 0 || first - 1 in Named(s.child.events, 1, finalized))
    && first - 1 + c.period <= finalized <= c.Finalized(s.child.head)
  }

  /** The parent has reached everything in `sent`. */
  ghost predicate Delivered(c: Config, s: System, first: int, finalized: int, sent: seq<int>) {
    && ScanBase(c, s, first, finalized)
    && (TimelyTo(c, s.child.events, finalized) ==> LastOf(first - 1, sent) <= s.parent.last)
  }

  /** What the daemon waits for. */
  ghost predicate Awaits(s: System, tx: nat, sent: seq<int>) {
    tx < |s.txs| && sent != [] && s.txs[tx].bundle.checkpoint.height == sent[|sent| - 1]
  }

  ghost predicate PcReach(c: Config, s: System, pc: Pc) {
    match pc
    case ReadHead(next) => Told(c, s, next - c.period)
    case Scan(first, _, finalized, sent) => Delivered(c, s, first, finalized, sent)
    case Drain(first, _, finalized, sent, _) => Delivered(c, s, first, finalized, sent)
    case SendNext(first, _, finalized, sent, _, _) => Delivered(c, s, first, finalized, sent)
    case AwaitNext(first, _, finalized, sent, _, tx) =>
      && Awaits(s, tx, sent)
      && Delivered(c, s, first, finalized, if s.txs[tx].status == Pending then sent[..|sent| - 1] else sent)
    case Finished(first, finalized, sent) => Delivered(c, s, first, finalized, sent)
    case _ => true
  }

  ghost predicate ReachInv(c: Config, s: System) {
    Inv(c, s) && forall r :: r in s.pcs ==> PcReach(c, s, s.pcs[r])
  }

  // ---------------------------------------------------------------- why a rejection is harmless

  /** Two checkpoint heights less than a period apart are the same. */
  lemma RungsApart(c: Config, a: nat, b: nat)
    requires c.Valid() && c.Rung(a) - c.period < c.Rung(b)
    ensures c.Rung(a) <= c.Rung(b)
  {
    c.RungOrder(b, a);
  }

  /** In a timely scan each height repeats or follows the one before it. */
  lemma NextFollows(c: Config, s: System, first: int, finalized: int, done: seq<int>, h: int)
    requires c.Valid() && ScanBase(c, s, first, finalized) && TimelyTo(c, s.child.events, finalized)
    requires done + [h] <= Named(s.child.events, first, finalized)
    ensures Accepts(LastOf(first - 1, done), c.period, h)
  {
    var top := BaseIsRung(c, s, first, finalized);
    TimelyQuorumsCatchUp(c, s.child.events, top, finalized);
    PrefixClimbs(c, first - 1, done, h, Named(s.child.events, first, finalized));
  }

  lemma PrefixClimbs(c: Config, last: int, done: seq<int>, h: int, all: seq<int>)
    requires Climbs(c, last, all) && done + [h] <= all
    ensures Accepts(LastOf(last, done), c.period, h)
  {
    assert all[|done|] == h && LastBefore(last, all, |done|) == LastOf(last, done);
  }

  /** Ordered quorums name checkpoint heights only. */
  lemma NamedIsRung(c: Config, events: int -> seq<int>, first: int, finalized: int, h: int) returns (k: nat)
    requires c.Valid() && InOrder(c, events, finalized) && 1 <= first && h in Named(events, first, finalized)
    ensures h == c.Rung(k)
  {
    NamedMembership(events, first, finalized, h);
    NamedMembership(events, 1, finalized, h);
    var rungs := Rungs(c, 1, Reached(events, finalized));
    var i :| 0 <= i < |rungs| && rungs[i] == h;
    k := i + 1;
  }

  lemma BaseIsRung(c: Config, s: System, first: int, finalized: int) returns (top: nat)
    requires c.Valid() && ScanBase(c, s, first, finalized) && InOrder(c, s.child.events, finalized)
    ensures first - 1 == c.Rung(top) && top <= Reached(s.child.events, finalized)
  {
    top := 0;
    if first - 1 != 0 {
      var rungs := Rungs(c, 1, Reached(s.child.events, finalized));
      var i :| 0 <= i < |rungs| && rungs[i] == first - 1;
      top := i + 1;
    }
  }

  /** Once the awaited transaction is executed the parent has reached its height, accepted or not. */
  lemma ExecutedMeansReached(c: Config, s: System, first: int, finalized: int, done: seq<int>, b: Bundle, who: Submitter)
    requires c.Valid() && Inv(c, s) && 1 <= first && ScanBase(c, s, first, finalized)
    requires TimelyTo(c, s.child.events, finalized) && LastOf(first - 1, done) <= s.parent.last
    requires done + [b.checkpoint.height] <= Named(s.child.events, first, finalized)
    ensures b.checkpoint.height <= Execute(c, s.parent, who, b).last
  {
    var h := b.checkpoint.height;
    NextFollows(c, s, first, finalized, done, h);
    assert h == Named(s.child.events, first, finalized)[|done|];
    var k := NamedIsRung(c, s.child.events, first, finalized, h);
    var top := LadderIsGapless(c, s.parent.accepted, |s.parent.accepted|);
    if !Accepts(s.parent.last, c.period, h) {
      RungsApart(c, k, top);
    }
  }

  // ---------------------------------------------------------------- every step keeps it

  /** A higher parent and more transactions hurt no daemon, as long as the awaited one did not change. */
  lemma PcReachFrame(c: Config, s: System, s': System, pc: Pc)
    requires PcReach(c, s, pc) && s.child == s'.child && s.parent.last <= s'.parent.last && |s.txs| <= |s'.txs|
    requires pc.AwaitNext? ==> s'.txs[pc.tx] == s.txs[pc.tx]
    ensures PcReach(c, s', pc)
  {
  }

  lemma MineKeepsPcReach(c: Config, s: System, tx: nat, pc: Pc)
    requires c.Valid() && Inv(c, s) && Enabled(c, s, Mine(tx)) && PcInv(c, s, pc) && PcReach(c, s, pc)
    ensures PcReach(c, Apply(c, s, Mine(tx)), pc)
  {
    var s' := Apply(c, s, Mine(tx));
    if pc.AwaitNext? && pc.tx == tx {
      var AwaitNext(first, block, finalized, sent, pending, _) := pc;
      var done, h := sent[..|sent| - 1], sent[|sent| - 1];
      assert done + [h] == sent;
      if TimelyTo(c, s.child.events, finalized) {
        PcSendsPrefix(c, s, pc);
        ExecutedMeansReached(c, s, first, finalized, done, s.txs[tx].bundle, s.txs[tx].who);
      }
    } else {
      PcReachFrame(c, s, s', pc);
    }
  }

  lemma TimelyAgrees(c: Config, events: int -> seq<int>, events': int -> seq<int>, finalized: int)
    requires forall b :: b <= finalized ==> events(b) == events'(b)
    ensures Named(events, 1, finalized) == Named(events', 1, finalized)
    ensures TimelyTo(c, events, finalized) <==> TimelyTo(c, events', finalized)
  {
    NamedAgrees(events, events', 1, finalized);
  }

  lemma DeliveredSurvivesGrowth(c: Config, s: System, child': Child, first: int, finalized: int, sent: seq<int>)
    requires Grows(c, s.child, child') && Delivered(c, s, first, finalized, sent)
    ensures Delivered(c, s.(child := child'), first, finalized, sent)
  {
    TimelyAgrees(c, s.child.events, child'.events, finalized);
  }

  lemma GrowKeepsPcReach(c: Config, s: System, child': Child, pc: Pc)
    requires Grows(c, s.child, child') && PcReach(c, s, pc)
    ensures PcReach(c, s.(child := child'), pc)
  {
    match pc
    case ReadHead(next) =>
      if next - c.period != 0 {
        QuorumSurvives(c, s.child, child', next - c.period);
      }
    case Scan(first, _, finalized, sent) => DeliveredSurvivesGrowth(c, s, child', first, finalized, sent);
    case Drain(first, _, finalized, sent, _) => DeliveredSurvivesGrowth(c, s, child', first, finalized, sent);
    case SendNext(first, _, finalized, sent, _, _) => DeliveredSurvivesGrowth(c, s, child', first, finalized, sent);
    case AwaitNext(first, _, finalized, sent, _, tx) =>
      DeliveredSurvivesGrowth(c, s, child', first, finalized, if s.txs[tx].status == Pending then sent[..|sent| - 1] else sent);
    case Finished(first, finalized, sent) => DeliveredSurvivesGrowth(c, s, child', first, finalized, sent);
    case _ =>
  }

  /** The daemon that moves. */
  lemma MoverReach(c: Config, s: System, a: Action)
    requires c.Valid() && ReachInv(c, s) && Enabled(c, s, a) && !a.Mine? && !a.Grow?
    ensures PcReach(c, Apply(c, s, a), Apply(c, s, a).PcOf(a.r))
  {
    match a
    case AnswerLast(r) => ToldReach(c, s, r);
    case AnswerHead(r) => ScannerReach(c, s, r);
    case Send(r) => SenderReach(c, s, r);
    case _ => TurnKeepsReach(c, s, a);
  }

  lemma ToldReach(c: Config, s: System, r: Submitter)
    requires c.Valid() && ReachInv(c, s) && Enabled(c, s, AnswerLast(r))
    ensures PcReach(c, Apply(c, s, AnswerLast(r)), Apply(c, s, AnswerLast(r)).PcOf(r))
  {
    if s.parent.last != 0 {
      LastWasReached(c, s);
    }
  }

  lemma ScannerReach(c: Config, s: System, r: Submitter)
    requires c.Valid() && ReachInv(c, s) && Enabled(c, s, AnswerHead(r))
    ensures PcReach(c, Apply(c, s, AnswerHead(r)), Apply(c, s, AnswerHead(r)).PcOf(r))
  {
    assert PcReach(c, s, s.pcs[r]);
    NamedMembership(s.child.events, 1, c.Finalized(s.child.head), s.PcOf(r).next - c.period);
  }

  /** The other steps deliver nothing, or learn that something was delivered. */
  lemma TurnKeepsReach(c: Config, s: System, a: Action)
    requires a.Fail? || a.AnswerVoted? || a.AnswerBundle? || a.Receipt? || a.AnswerEvents? || a.Advance?
    requires Enabled(c, s, a) && (a.r in s.pcs ==> PcReach(c, s, s.pcs[a.r]))
    ensures PcReach(c, Apply(c, s, a), Apply(c, s, a).PcOf(a.r))
  {
  }

  lemma SenderReach(c: Config, s: System, r: Submitter)
    requires c.Valid() && ReachInv(c, s) && Enabled(c, s, Send(r))
    ensures PcReach(c, Apply(c, s, Send(r)), Apply(c, s, Send(r)).PcOf(r))
  {
    assert PcReach(c, s, s.pcs[r]);
    if s.PcOf(r).SendNext? {
      var sent, h := s.PcOf(r).sent, s.PcOf(r).bundle.checkpoint.height;
      assert (sent + [h])[..|sent|] == sent;
    }
  }

  lemma StepKeepsReachInv(c: Config, s: System, a: Action)
    requires c.Valid() && ReachInv(c, s) && Enabled(c, s, a)
    ensures ReachInv(c, Apply(c, s, a))
  {
    var s' := Apply(c, s, a);
    StepKeepsInv(c, s, a);
    forall r | r in s'.pcs ensures PcReach(c, s', s'.pcs[r]) {
      if a.Mine? {
        MineKeepsPcReach(c, s, a.tx, s.pcs[r]);
      } else if a.Grow? {
        GrowKeepsPcReach(c, s, a.child, s.pcs[r]);
      } else if r == a.r {
        MoverReach(c, s, a);
      } else {
        PcReachFrame(c, s, s', s.pcs[r]);
      }
    }
  }

  lemma RunKeepsReachInv(c: Config, s: System, run: seq<Action>)
    requires c.Valid() && Initial(s) && Feasible(c, s, run)
    ensures ReachInv(c, After(c, s, run))
  {
    var p := (t: System) => ReachInv(c, t);
    forall t, a | p(t) && Enabled(c, t, a) ensures p(Apply(c, t, a)) {
      StepKeepsReachInv(c, t, a);
    }
    assert Inductive(c, p);
    RunIsReachable(c, s, run);
    assert p(After(c, s, run));
  }

  // ---------------------------------------------------------------- the result

  /** In every run, whatever others do in between: when a pass has finished, the parent has reached the newest
      checkpoint whose quorum was in the blocks the pass took for final. */
  lemma FinishedPassHasCaughtUp(c: Config, s: System, run: seq<Action>, r: Submitter)
    requires c.Valid() && Initial(s) && Feasible(c, s, run) && After(c, s, run).PcOf(r).Finished?
    ensures var t := After(c, s, run);
            var finalized := t.PcOf(r).finalized;
            TimelyTo(c, t.child.events, finalized) ==> c.Rung(Reached(t.child.events, finalized)) <= t.parent.last
  {
    RunKeepsReachInv(c, s, run);
    var t := After(c, s, run);
    var Finished(first, finalized, sent) := t.pcs[r];
    if TimelyTo(c, t.child.events, finalized) {
      var top := BaseIsRung(c, t, first, finalized);
      TimelyQuorumsCatchUp(c, t.child.events, top, finalized);
      assert PcInv(c, t, t.pcs[r]);
    }
  }

  /** A pass that returns because the finalized height has not reached the next checkpoint has caught up too. */
  lemma ShutGateHasCaughtUp(c: Config, s: System, run: seq<Action>, r: Submitter)
    requires c.Valid() && Initial(s) && Feasible(c, s, run) && After(c, s, run).PcOf(r).ReadHead?
    requires c.Finalized(After(c, s, run).child.head) < After(c, s, run).PcOf(r).next
    ensures var t := After(c, s, run);
            var finalized := c.Finalized(t.child.head);
            TimelyTo(c, t.child.events, finalized) ==> c.Rung(Reached(t.child.events, finalized)) <= t.parent.last
  {
    RunKeepsReachInv(c, s, run);
    var t := After(c, s, run);
    var finalized := c.Finalized(t.child.head);
    assert PcReach(c, t, t.pcs[r]);
    if TimelyTo(c, t.child.events, finalized) {
      var top := ToldIsRung(c, t, t.pcs[r].next - c.period);
      NothingBeforeTheGate(c, t.child.events, top, finalized);
      c.RungOrder(top, Reached(t.child.events, finalized));
    }
  }

  lemma ToldIsRung(c: Config, s: System, last: int) returns (top: nat)
    requires c.Valid() && Told(c, s, last) && InOrder(c, s.child.events, c.Finalized(s.child.head))
    ensures last == c.Rung(top)
  {
    top := 0;
    if last != 0 {
      NamedMembership(s.child.events, 1, c.Finalized(s.child.head), last);
      top := NamedIsRung(c, s.child.events, 1, c.Finalized(s.child.head), last);
    }
  }

  /** And never further than the newest checkpoint whose quorum is final by now. */
  lemma ParentNeverAhead(c: Config, s: System, run: seq<Action>)
    requires c.Valid() && Initial(s) && Feasible(c, s, run)
    ensures var t := After(c, s, run);
            var finalized := c.Finalized(t.child.head);
            InOrder(c, t.child.events, finalized) ==> t.parent.last <= c.Rung(Reached(t.child.events, finalized))
  {
    RunKeepsInv(c, s, run);
    var t := After(c, s, run);
    if InOrder(c, t.child.events, c.Finalized(t.child.head)) {
      var top := LastIsRung(c, t);
      c.RungOrder(Reached(t.child.events, c.Finalized(t.child.head)), top);
    }
  }
}
