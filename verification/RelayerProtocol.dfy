/** Any number of relayer daemons, one parent and one child, interleaved one remote call at a time.

    A daemon keeps no state between passes. Within a pass its whole state is the program counter
    `Pc`; every remote call may fail, which aborts the pass, and a submitted transaction may be
    executed by the parent long after its daemon gave up waiting for the receipt. */
module RelayerProtocol {
  import opened CheckpointChains

  /** Where a daemon is inside `submit_checkpoint`. In the second half of a pass `first` is the first
      block scanned and `sent` the heights handed to the parent so far; `Finished` is a pass that
      returned without error after clearing the height gate. */
  datatype Pc =
    | Start
    | ReadLast
    | FetchLast(height: int)
    | SendLast(bundle: Bundle)
    | AwaitLast(tx: nat)
    | ReadNext
    | ReadHead(next: int)
    | Scan(first: int, block: int, finalized: int, sent: seq<int>)
    | Drain(first: int, block: int, finalized: int, sent: seq<int>, pending: seq<int>)
    | SendNext(first: int, block: int, finalized: int, sent: seq<int>, pending: seq<int>, bundle: Bundle)
    | AwaitNext(first: int, block: int, finalized: int, sent: seq<int>, pending: seq<int>, tx: nat)
    | Finished(first: int, finalized: int, sent: seq<int>)

  datatype Status = Pending | Accepted | Rejected

  datatype Tx = Tx(who: Submitter, bundle: Bundle, status: Status)

  datatype System = System(parent: Parent, child: Child, pcs: map<Submitter, Pc>, txs: seq<Tx>) {
    function PcOf(r: Submitter): Pc {
      if r in pcs then pcs[r] else Start
    }

    function Goto(r: Submitter, pc: Pc): System {
      this.(pcs := pcs[r := pc])
    }
  }

  datatype Action =
    | Fail(r: Submitter)                          // a remote call errs, or the process restarts
    | AnswerVoted(r: Submitter)                   // has_submitted_in_last_checkpoint_height
    | AnswerLast(r: Submitter)                    // last_bottom_up_checkpoint_height
    | AnswerBundle(r: Submitter, signatures: nat) // checkpoint_bundle_at
    | Send(r: Submitter)                          // the transaction reaches the parent's pool
    | Receipt(r: Submitter)                       // the daemon sees its transaction mined
    | AnswerHead(r: Submitter)                    // current_epoch
    | AnswerEvents(r: Submitter)                  // quorum_reached_events
    | Advance(r: Submitter)                       // a loop turn without a remote call
    | Mine(tx: nat)                               // the parent executes a pooled transaction
    | Grow(child: Child)

  /** A receipt exists as soon as the transaction is mined; the daemon only looks at its block number,
      so a transaction that was mined and rejected passes for a success too. */
  predicate Mined(s: System, tx: nat) {
    tx < |s.txs| && s.txs[tx].status != Pending
  }

  ghost predicate Enabled(c: Config, s: System, a: Action) {
    match a
    case Fail(r) => true
    case AnswerVoted(r) => s.PcOf(r).Start?
    case AnswerLast(r) => s.PcOf(r).ReadLast? || s.PcOf(r).ReadNext?
    case AnswerBundle(r, _) => s.PcOf(r).FetchLast? || (s.PcOf(r).Drain? && s.PcOf(r).pending != [])
    case Send(r) => s.PcOf(r).SendLast? || s.PcOf(r).SendNext?
    case Receipt(r) => (s.PcOf(r).AwaitLast? || s.PcOf(r).AwaitNext?) && Mined(s, s.PcOf(r).tx)
    case AnswerHead(r) => s.PcOf(r).ReadHead?
    case AnswerEvents(r) => s.PcOf(r).Scan? && s.PcOf(r).block <= s.PcOf(r).finalized
    case Advance(r) =>
      || (s.PcOf(r).Scan? && s.PcOf(r).finalized < s.PcOf(r).block)
      || (s.PcOf(r).Drain? && s.PcOf(r).pending == [])
      || s.PcOf(r).Finished?
    case Mine(tx) => tx < |s.txs| && s.txs[tx].status == Pending
    case Grow(child) => Grows(c, s.child, child)
  }

  function Apply(c: Config, s: System, a: Action): System
    requires Enabled(c, s, a)
  {
    match a
    case Fail(r) => s.Goto(r, Start)
    case AnswerVoted(r) => s.Goto(r, if r in s.parent.voters then ReadNext else ReadLast)
    case AnswerLast(r) =>
      s.Goto(r,
             if s.PcOf(r).ReadNext? then ReadHead(s.parent.last + c.period)
             else if s.parent.last == 0 then ReadNext
             else FetchLast(s.parent.last))
    case AnswerBundle(r, signatures) =>
      (match s.PcOf(r)
       case FetchLast(h) => s.Goto(r, SendLast(s.child.BundleAt(h, signatures)))
       case Drain(first, block, finalized, sent, pending) =>
         s.Goto(r, SendNext(first, block, finalized, sent, pending[1..], s.child.BundleAt(pending[0], signatures)))
       case _ => s)
    case Send(r) =>
      (match s.PcOf(r)
       case SendLast(b) => s.Goto(r, AwaitLast(|s.txs|)).(txs := s.txs + [Tx(r, b, Pending)])
       case SendNext(first, block, finalized, sent, pending, b) =>
         s.Goto(r, AwaitNext(first, block, finalized, sent + [b.checkpoint.height], pending, |s.txs|))
         .(txs := s.txs + [Tx(r, b, Pending)])
       case _ => s)
    case Receipt(r) =>
      (match s.PcOf(r)
       case AwaitNext(first, block, finalized, sent, pending, _) =>
         s.Goto(r, Drain(first, block, finalized, sent, pending))
       case _ => s.Goto(r, ReadNext))
    case AnswerHead(r) =>
      var finalized := c.Finalized(s.child.head);
      var next := s.PcOf(r).next;
      var first := next - c.period + 1;
      s.Goto(r, if finalized < next then Start else Scan(first, first, finalized, []))
    case AnswerEvents(r) =>
      var Scan(first, block, finalized, sent) := s.PcOf(r);
      s.Goto(r, Drain(first, block, finalized, sent, s.child.events(block)))
    case Advance(r) =>
      (match s.PcOf(r)
       case Scan(first, block, finalized, sent) => s.Goto(r, Finished(first, finalized, sent))
       case Drain(first, block, finalized, sent, _) => s.Goto(r, Scan(first, block + 1, finalized, sent))
       case _ => s.Goto(r, Start))
    case Mine(tx) =>
      var t := s.txs[tx];
      var ok := Accepts(s.parent.last, c.period, t.bundle.checkpoint.height);
      s.(parent := Execute(c, s.parent, t.who, t.bundle),
         txs := s.txs[tx := t.(status := if ok then Accepted else Rejected)])
    case Grow(child) => s.(child := child)
  }

  /** The system before anything was submitted; the child may already have any history. */
  ghost predicate Initial(s: System) {
    s.parent == Parent(0, {}, []) && s.pcs == map[] && s.txs == []
  }

  /** Every action of the run can happen when its turn comes. */
  ghost predicate Feasible(c: Config, s: System, run: seq<Action>)
    decreases |run|, 0
  {
    run == [] ||
    (Feasible(c, s, run[..|run| - 1]) && Enabled(c, After(c, s, run[..|run| - 1]), run[|run| - 1]))
  }

  ghost function After(c: Config, s: System, run: seq<Action>): System
    requires Feasible(c, s, run)
    decreases |run|, 1
  {
    if run == [] then s
    else Apply(c, After(c, s, run[..|run| - 1]), run[|run| - 1])
  }

  /** `p` holds initially and no action breaks it. */
  ghost predicate Inductive(c: Config, p: System -> bool) {
    && (forall s :: Initial(s) ==> p(s))
    && (forall s, a :: p(s) && Enabled(c, s, a) ==> p(Apply(c, s, a)))
  }

  /** Every inductive property holds of `s`. */
  ghost predicate Reachable(c: Config, s: System) {
    forall p: System -> bool :: Inductive(c, p) ==> p(s)
  }

  lemma ReachableStep(c: Config, s: System, a: Action)
    requires Reachable(c, s) && Enabled(c, s, a)
    ensures Reachable(c, Apply(c, s, a))
  {
  }

  /** Some run leads to `s`. */
  ghost predicate HasRun(c: Config, s: System) {
    exists start, run :: Initial(start) && Feasible(c, start, run) && After(c, start, run) == s
  }

  lemma HasRunStep(c: Config, s: System, a: Action)
    requires HasRun(c, s) && Enabled(c, s, a)
    ensures HasRun(c, Apply(c, s, a))
  {
    var start, run :| Initial(start) && Feasible(c, start, run) && After(c, start, run) == s;
    var longer := run + [a];
    assert longer[..|longer| - 1] == run;
    assert Feasible(c, start, longer) && After(c, start, longer) == Apply(c, s, a);
  }

  lemma {:induction false} RunIsReachable(c: Config, s: System, run: seq<Action>)
    requires Initial(s) && Feasible(c, s, run)
    ensures Reachable(c, After(c, s, run))
    decreases |run|
  {
    if run != [] {
      RunIsReachable(c, s, run[..|run| - 1]);
      ReachableStep(c, After(c, s, run[..|run| - 1]), run[|run| - 1]);
    }
  }

  /** Reachable states are exactly the states at the end of runs. */
  lemma ReachableByRuns(c: Config, s: System)
    ensures Reachable(c, s) <==> HasRun(c, s)
  {
    if HasRun(c, s) {
      var start, run :| Initial(start) && Feasible(c, start, run) && After(c, start, run) == s;
      RunIsReachable(c, start, run);
    }
    if Reachable(c, s) {
      var p := t => HasRun(c, t);
      forall t | Initial(t) ensures p(t) {
        assert Feasible(c, t, []) && After(c, t, []) == t;
      }
      forall t, a | p(t) && Enabled(c, t, a) ensures p(Apply(c, t, a)) {
        HasRunStep(c, t, a);
      }
      assert Inductive(c, p);
    }
  }

  // ---------------------------------------------------------------- the invariant

  /** `b` carries the checkpoint that a quorum event in a finalized block names. */
  ghost predicate Genuine(c: Config, child: Child, b: Bundle) {
    QuorumReached(c, child, b.checkpoint.height) && b.checkpoint.digest == child.digest(b.checkpoint.height)
  }

  function HeightBefore(log: seq<Bundle>, i: int): int
    requires 0 <= i <= |log|
  {
    if i == 0 then 0 else log[i - 1].checkpoint.height
  }

  /** Each accepted bundle repeats the height before it or is exactly one period above it. */
  ghost predicate Ladder(c: Config, log: seq<Bundle>) {
    forall i :: 0 <= i < |log| ==> Accepts(HeightBefore(log, i), c.period, log[i].checkpoint.height)
  }

  ghost predicate Scanned(c: Config, child: Child, first: int, block: int, finalized: int) {
    1 <= first <= block <= finalized + 1 && finalized <= c.Finalized(child.head)
  }

  ghost predicate PcInv(c: Config, s: System, pc: Pc) {
    match pc
    case FetchLast(h) => QuorumReached(c, s.child, h)
    case SendLast(b) => Genuine(c, s.child, b)
    case ReadHead(next) => c.period <= next
    case Scan(first, block, finalized, sent) =>
      && Scanned(c, s.child, first, block, finalized)
      && sent == Named(s.child.events, first, block - 1)
    case Drain(first, block, finalized, sent, pending) =>
      && Scanned(c, s.child, first, block, finalized) && block <= finalized
      && sent + pending == Named(s.child.events, first, block)
    case SendNext(first, block, finalized, sent, pending, b) =>
      && Scanned(c, s.child, first, block, finalized) && block <= finalized
      && Genuine(c, s.child, b)
      && sent + [b.checkpoint.height] + pending == Named(s.child.events, first, block)
    case AwaitNext(first, block, finalized, sent, pending, _) =>
      && Scanned(c, s.child, first, block, finalized) && block <= finalized
      && sent + pending == Named(s.child.events, first, block)
    case Finished(first, finalized, sent) =>
      && Scanned(c, s.child, first, finalized + 1, finalized)
      && sent == Named(s.child.events, first, finalized)
    case _ => true
  }

  ghost predicate ParentInv(c: Config, s: System) {
    && 0 <= s.parent.last == HeightBefore(s.parent.accepted, |s.parent.accepted|)
    && Ladder(c, s.parent.accepted)
    && (forall b :: b in s.parent.accepted ==> Genuine(c, s.child, b))
  }

  ghost predicate Inv(c: Config, s: System) {
    && ParentInv(c, s)
    && (forall t :: t in s.txs ==> Genuine(c, s.child, t.bundle))
    && (forall r :: r in s.pcs ==> PcInv(c, s, s.pcs[r]))
  }

  lemma GenuineSurvives(c: Config, child: Child, child': Child, b: Bundle)
    requires Grows(c, child, child') && Genuine(c, child, b)
    ensures Genuine(c, child', b)
  {
  }

  lemma QuorumSurvives(c: Config, child: Child, child': Child, h: int)
    requires Grows(c, child, child') && QuorumReached(c, child, h)
    ensures QuorumReached(c, child', h)
  {
  }

  lemma PcSurvivesGrowth(c: Config, s: System, child': Child, pc: Pc)
    requires Grows(c, s.child, child') && PcInv(c, s, pc)
    ensures PcInv(c, s.(child := child'), pc)
  {
    match pc
    case FetchLast(h) => QuorumSurvives(c, s.child, child', h);
    case SendLast(b) => GenuineSurvives(c, s.child, child', b);
    case SendNext(first, block, _, _, _, b) =>
      GenuineSurvives(c, s.child, child', b);
      NamedAgrees(s.child.events, child'.events, first, block);
    case Scan(first, block, _, _) => NamedAgrees(s.child.events, child'.events, first, block - 1);
    case Drain(first, block, _, _, _) => NamedAgrees(s.child.events, child'.events, first, block);
    case AwaitNext(first, block, _, _, _, _) => NamedAgrees(s.child.events, child'.events, first, block);
    case Finished(first, finalized, _) => NamedAgrees(s.child.events, child'.events, first, finalized);
    case _ =>
  }

  lemma GrowKeepsInv(c: Config, s: System, child': Child)
    requires Inv(c, s) && Grows(c, s.child, child')
    ensures Inv(c, s.(child := child'))
  {
    forall b | Genuine(c, s.child, b) ensures Genuine(c, child', b) {
      GenuineSurvives(c, s.child, child', b);
    }
    forall r | r in s.pcs ensures PcInv(c, s.(child := child'), s.pcs[r]) {
      PcSurvivesGrowth(c, s, child', s.pcs[r]);
    }
  }

  lemma MineKeepsInv(c: Config, s: System, tx: nat)
    requires c.Valid() && Inv(c, s) && Enabled(c, s, Mine(tx))
    ensures Inv(c, Apply(c, s, Mine(tx)))
  {
    var s' := Apply(c, s, Mine(tx));
    var b := s.txs[tx].bundle;
    assert Genuine(c, s.child, b) by { assert s.txs[tx] in s.txs; }
    forall t | t in s'.txs ensures Genuine(c, s.child, t.bundle) {
      var i :| 0 <= i < |s'.txs| && s'.txs[i] == t;
      assert t.bundle == s.txs[i].bundle;
    }
    forall r | r in s.pcs ensures PcInv(c, s', s'.pcs[r]) {
      assert PcInv(c, s, s.pcs[r]);
    }
    if s'.parent != s.parent {
      assert s'.parent.accepted == s.parent.accepted + [b];
      forall i | 0 <= i < |s'.parent.accepted|
        ensures Accepts(HeightBefore(s'.parent.accepted, i), c.period, s'.parent.accepted[i].checkpoint.height)
      {
        if i < |s.parent.accepted| {
          assert HeightBefore(s'.parent.accepted, i) == HeightBefore(s.parent.accepted, i);
        }
      }
    }
  }

  /** The height a daemon is told to repeat was accepted, so a finalized event names it. */
  lemma LastWasReached(c: Config, s: System)
    requires ParentInv(c, s) && s.parent.last != 0
    ensures QuorumReached(c, s.child, s.parent.last)
  {
    var log := s.parent.accepted;
    assert log[|log| - 1] in log;
  }

  /** A daemon's own step leaves every other daemon, the parent and the child as they were. */
  lemma GotoKeepsInv(c: Config, s: System, r: Submitter, pc: Pc)
    requires Inv(c, s) && PcInv(c, s, pc)
    ensures Inv(c, s.Goto(r, pc))
  {
  }

  lemma PcInvFrame(c: Config, s: System, s': System, pc: Pc)
    requires s.child == s'.child && PcInv(c, s, pc)
    ensures PcInv(c, s', pc)
  {
  }

  lemma NextPcInv(c: Config, s: System, r: Submitter, signatures: nat)
    requires Inv(c, s) && s.PcOf(r).Drain? && s.PcOf(r).pending != []
    ensures Genuine(c, s.child, s.child.BundleAt(s.PcOf(r).pending[0], signatures))
  {
    var Drain(first, block, _, sent, pending) := s.PcOf(r);
    assert PcInv(c, s, s.pcs[r]);
    var h := pending[0];
    assert h in sent + pending;
    NamedMembership(s.child.events, first, block, h);
  }

  lemma AnswerLastKeepsInv(c: Config, s: System, r: Submitter)
    requires c.Valid() && Inv(c, s) && Enabled(c, s, AnswerLast(r))
    ensures Inv(c, Apply(c, s, AnswerLast(r)))
  {
    if s.parent.last != 0 {
      LastWasReached(c, s);
    }
    GotoKeepsInv(c, s, r, Apply(c, s, AnswerLast(r)).PcOf(r));
  }

  lemma AnswerBundleKeepsInv(c: Config, s: System, r: Submitter, signatures: nat)
    requires Inv(c, s) && Enabled(c, s, AnswerBundle(r, signatures))
    ensures Inv(c, Apply(c, s, AnswerBundle(r, signatures)))
  {
    assert PcInv(c, s, s.pcs[r]);
    if s.PcOf(r).Drain? {
      var Drain(_, _, _, sent, pending) := s.PcOf(r);
      NextPcInv(c, s, r, signatures);
      assert sent + [pending[0]] + pending[1..] == sent + pending;
    }
    GotoKeepsInv(c, s, r, Apply(c, s, AnswerBundle(r, signatures)).PcOf(r));
  }

  /** The remaining answers and loop turns: the next program counter is right because this one is. */
  lemma TurnKeepsInv(c: Config, s: System, a: Action)
    requires c.Valid() && Inv(c, s) && Enabled(c, s, a)
    requires a.Receipt? || a.AnswerHead? || a.AnswerEvents? || a.Advance?
    ensures Inv(c, Apply(c, s, a))
  {
    TurnKeepsPcInv(c, s, a);
    GotoKeepsInv(c, s, a.r, Apply(c, s, a).PcOf(a.r));
  }

  lemma TurnKeepsPcInv(c: Config, s: System, a: Action)
    requires c.Valid() && Enabled(c, s, a)
    requires a.Receipt? || a.AnswerHead? || a.AnswerEvents? || a.Advance?
    requires a.r in s.pcs && PcInv(c, s, s.pcs[a.r])
    ensures PcInv(c, s, Apply(c, s, a).PcOf(a.r))
  {
  }

  lemma StepKeepsInv(c: Config, s: System, a: Action)
    requires c.Valid() && Inv(c, s) && Enabled(c, s, a)
    ensures Inv(c, Apply(c, s, a))
  {
    match a
    case Fail(r) => GotoKeepsInv(c, s, r, Start);
    case AnswerVoted(r) => GotoKeepsInv(c, s, r, if r in s.parent.voters then ReadNext else ReadLast);
    case AnswerLast(r) => AnswerLastKeepsInv(c, s, r);
    case AnswerBundle(r, signatures) => AnswerBundleKeepsInv(c, s, r, signatures);
    case Send(r) => SendKeepsInv(c, s, r);
    case Mine(tx) => MineKeepsInv(c, s, tx);
    case Grow(child) => GrowKeepsInv(c, s, child);
    case _ => TurnKeepsInv(c, s, a);
  }

  lemma SendKeepsInv(c: Config, s: System, r: Submitter)
    requires Inv(c, s) && Enabled(c, s, Send(r))
    ensures Inv(c, Apply(c, s, Send(r)))
  {
    var s' := Apply(c, s, Send(r));
    assert PcInv(c, s, s.pcs[r]);
    GotoKeepsInv(c, s, r, s'.PcOf(r));
    forall t | t in s'.txs ensures Genuine(c, s'.child, t.bundle) {
      assert t in s.txs || t == Tx(r, s.PcOf(r).bundle, Pending);
    }
    forall q | q in s'.pcs ensures PcInv(c, s', s'.pcs[q]) {
      PcInvFrame(c, s.Goto(r, s'.PcOf(r)), s', s'.pcs[q]);
    }
  }

  // ---------------------------------------------------------------- what holds in every run

  lemma InvIsInductive(c: Config)
    requires c.Valid()
    ensures Inductive(c, s => Inv(c, s))
  {
    forall s, a | Inv(c, s) && Enabled(c, s, a) ensures Inv(c, Apply(c, s, a)) {
      StepKeepsInv(c, s, a);
    }
  }

  lemma ReachableInv(c: Config, s: System)
    requires c.Valid() && Reachable(c, s)
    ensures Inv(c, s)
  {
    InvIsInductive(c);
    var p := (t: System) => Inv(c, t);
    assert p(s);
  }

  lemma RunKeepsInv(c: Config, s: System, run: seq<Action>)
    requires c.Valid() && Initial(s) && Feasible(c, s, run)
    ensures Inv(c, After(c, s, run))
  {
    RunIsReachable(c, s, run);
    ReachableInv(c, After(c, s, run));
  }

  lemma {:induction false} LadderIsGapless(c: Config, log: seq<Bundle>, n: nat) returns (top: nat)
    requires c.Valid() && Ladder(c, log) && n <= |log|
    ensures HeightBefore(log, n) == c.Rung(top)
    ensures forall k: nat :: 0 < k <= top ==> exists i :: 0 <= i < n && log[i].checkpoint.height == c.Rung(k)
    decreases n
  {
    if n == 0 {
      top := 0;
    } else {
      top := LadderIsGapless(c, log, n - 1);
      assert Accepts(HeightBefore(log, n - 1), c.period, log[n - 1].checkpoint.height);
      if log[n - 1].checkpoint.height != HeightBefore(log, n - 1) {
        top := top + 1;
      }
    }
  }

  /** Safety: in every run of any number of daemons, with any failures, the parent's log climbs by
      exactly one period at a time from height 0, misses no checkpoint below its last height, and
      holds only checkpoints named by quorum events in finalized child blocks, so two bundles
      accepted at the same height, by whomever, carry the same checkpoint. */
  lemma AcceptedLogIsSafe(c: Config, s: System, run: seq<Action>)
    requires c.Valid() && Initial(s) && Feasible(c, s, run)
    ensures var t := After(c, s, run);
            var log := t.parent.accepted;
            && Ladder(c, log)
            && t.parent.last == HeightBefore(log, |log|)
            && (exists top: nat :: t.parent.last == c.Rung(top))
            && (forall k: nat :: 0 < k && c.Rung(k) <= t.parent.last ==>
                              exists i :: 0 <= i < |log| && log[i].checkpoint.height == c.Rung(k))
            && (forall i :: 0 <= i < |log| ==> Genuine(c, t.child, log[i]))
            && (forall i, j :: 0 <= i < |log| && 0 <= j < |log| && log[i].checkpoint.height == log[j].checkpoint.height ==>
                                 log[i].checkpoint == log[j].checkpoint)
  {
    RunKeepsInv(c, s, run);
    var log := After(c, s, run).parent.accepted;
    var top := LadderIsGapless(c, log, |log|);
    forall k: nat | 0 < k && c.Rung(k) <= c.Rung(top) ensures k <= top {
      c.RungOrder(top, k);
    }
  }

  /** In particular every accepted checkpoint was named in a block at least as deep as the relayer is
      configured to wait for, or in block 1. */
  lemma AcceptedIsDeep(c: Config, s: System, run: seq<Action>, i: nat)
    requires c.Valid() && Initial(s) && Feasible(c, s, run) && i < |After(c, s, run).parent.accepted|
    ensures var t := After(c, s, run);
            exists b :: Deep(c, t.child.head, b) && t.parent.accepted[i].checkpoint.height in t.child.events(b)
  {
    AcceptedLogIsSafe(c, s, run);
    var t := After(c, s, run);
    var h := t.parent.accepted[i].checkpoint.height;
    assert Genuine(c, t.child, t.parent.accepted[i]);
    var b :| 1 <= b <= c.Finalized(t.child.head) && h in t.child.events(b);
    FinalizedIsDeep(c, t.child.head, b);
  }

  /** Within one pass the heights sent are a prefix of those it is to send, and all of them at the end. */
  lemma SentIsPrefix(c: Config, s: System, run: seq<Action>, r: Submitter)
    requires c.Valid() && Initial(s) && Feasible(c, s, run)
    ensures var t := After(c, s, run);
            var pc := t.PcOf(r);
            && (pc.Scan? || pc.Drain? || pc.SendNext? || pc.AwaitNext? || pc.Finished? ==>
                  pc.sent <= Named(t.child.events, pc.first, pc.finalized))
            && (pc.Finished? ==> pc.sent == Named(t.child.events, pc.first, pc.finalized))
  {
    RunKeepsInv(c, s, run);
    var t := After(c, s, run);
    if r in t.pcs && (t.pcs[r].Scan? || t.pcs[r].Drain? || t.pcs[r].SendNext? || t.pcs[r].AwaitNext?) {
      PcSendsPrefix(c, t, t.pcs[r]);
    }
  }

  lemma PcSendsPrefix(c: Config, s: System, pc: Pc)
    requires PcInv(c, s, pc)
    requires pc.Scan? || pc.Drain? || pc.SendNext? || pc.AwaitNext?
    ensures pc.sent <= Named(s.child.events, pc.first, pc.finalized)
  {
    NamedSplits(s.child.events, pc.first, if pc.Scan? then pc.block - 1 else pc.block, pc.finalized);
  }

  /** The parent never forgets: later logs extend earlier ones and the last height never falls. */
  lemma {:induction false} LogOnlyGrows(c: Config, s: System, run: seq<Action>, more: seq<Action>)
    requires c.Valid() && Initial(s) && Feasible(c, s, run + more)
    ensures Feasible(c, s, run)
    ensures After(c, s, run).parent.accepted <= After(c, s, run + more).parent.accepted
    ensures After(c, s, run).parent.last <= After(c, s, run + more).parent.last
    decreases |more|
  {
    if more == [] {
      assert run + more == run;
    } else {
      var fewer := more[..|more| - 1];
      assert (run + more)[..|run + more| - 1] == run + fewer;
      LogOnlyGrows(c, s, run, fewer);
    }
  }
}
