/** What a pass sends, read off the run itself: the daemon's own transactions since it read the child's head,
    against the events of the blocks between the two heights it was told. */
module RelayerRecord {
  import opened CheckpointChains
  import opened RelayerProtocol

  /** The heights of the transactions that `r` sent, in order. */
  function SentBy(r: Submitter, txs: seq<Tx>): (hs: seq<int>) {
    if txs == [] then []
    else
      var t := txs[|txs| - 1];
      SentBy(r, txs[..|txs| - 1]) + if t.who == r then [t.bundle.checkpoint.height] else []
  }

  /** Executing transactions does not change who sent what. */
  ghost predicate SameSends(txs: seq<Tx>, txs': seq<Tx>) {
    |txs| == |txs'| &&
    forall i :: 0 <= i < |txs| ==> txs[i].who == txs'[i].who && txs[i].bundle == txs'[i].bundle
  }

  lemma {:induction false} SameSendsSentBy(r: Submitter, txs: seq<Tx>, txs': seq<Tx>, n: nat)
    requires SameSends(txs, txs') && n <= |txs|
    ensures SentBy(r, txs[n..]) == SentBy(r, txs'[n..])
    decreases |txs|
  {
    if n < |txs| {
      var k := |txs| - 1;
      SameSendsSentBy(r, txs[..k], txs'[..k], n);
      assert txs[n..][..k - n] == txs[..k][n..] && txs'[n..][..k - n] == txs'[..k][n..];
    } else {
      assert txs[n..] == [] && txs'[n..] == [];
    }
  }

  lemma SentByOneMore(r: Submitter, txs: seq<Tx>, t: Tx, n: nat)
    requires n <= |txs|
    ensures SentBy(r, (txs + [t])[n..]) == SentBy(r, txs[n..]) + if t.who == r then [t.bundle.checkpoint.height] else []
  {
    var more := (txs + [t])[n..];
    assert more == txs[n..] + [t];
    assert more[..|more| - 1] == txs[n..];
  }

  // ---------------------------------------------------------------- conservation

  /** The bundles of the transactions that the parent accepted. */
  function AcceptedOf(txs: seq<Tx>): multiset<Bundle> {
    if txs == [] then multiset{}
    else
      var t := txs[|txs| - 1];
      AcceptedOf(txs[..|txs| - 1]) + if t.status == Accepted then multiset{t.bundle} else multiset{}
  }

  lemma {:induction false} ExecutedOne(txs: seq<Tx>, i: nat, t: Tx)
    requires i < |txs| && txs[i].status == Pending
    ensures AcceptedOf(txs[i := t]) == AcceptedOf(txs) + if t.status == Accepted then multiset{t.bundle} else multiset{}
    decreases |txs|
  {
    var n := |txs| - 1;
    if i < n {
      ExecutedOne(txs[..n], i, t);
      assert txs[i := t][..n] == txs[..n][i := t];
    } else {
      assert txs[i := t][..n] == txs[..n];
    }
  }

  lemma StepConserves(c: Config, s: System, a: Action)
    requires Enabled(c, s, a) && multiset(s.parent.accepted) == AcceptedOf(s.txs)
    ensures multiset(Apply(c, s, a).parent.accepted) == AcceptedOf(Apply(c, s, a).txs)
  {
    match a
    case Send(r) => SendConserves(c, s, r);
    case Mine(tx) => MineConserves(c, s, tx);
    case _ =>
  }

  lemma SendConserves(c: Config, s: System, r: Submitter)
    requires Enabled(c, s, Send(r))
    ensures AcceptedOf(Apply(c, s, Send(r)).txs) == AcceptedOf(s.txs)
    ensures Apply(c, s, Send(r)).parent == s.parent
  {
    assert Apply(c, s, Send(r)).txs[..|s.txs|] == s.txs;
  }

  lemma MineConserves(c: Config, s: System, tx: nat)
    requires Enabled(c, s, Mine(tx)) && multiset(s.parent.accepted) == AcceptedOf(s.txs)
    ensures multiset(Apply(c, s, Mine(tx)).parent.accepted) == AcceptedOf(Apply(c, s, Mine(tx)).txs)
  {
    var t := s.txs[tx];
    var ok := Accepts(s.parent.last, c.period, t.bundle.checkpoint.height);
    ExecutedOne(s.txs, tx, t.(status := if ok then Accepted else Rejected));
    ExecuteLogs(c, s.parent, t.who, t.bundle);
  }

  lemma ExecuteLogs(c: Config, p: Parent, who: Submitter, b: Bundle)
    ensures multiset(Execute(c, p, who, b).accepted)
            == multiset(p.accepted) + if Accepts(p.last, c.period, b.checkpoint.height) then multiset{b} else multiset{}
  {
    assert multiset(p.accepted + [b]) == multiset(p.accepted) + multiset{b};
  }

  /** In every run the parent's log holds exactly the bundles of the accepted transactions, each as often as it
      was sent and accepted: nothing gets into it that no daemon sent, and nothing twice for one transaction. */
  lemma {:induction false} LogIsWhatWasSent(c: Config, s: System, run: seq<Action>)
    requires Initial(s) && Feasible(c, s, run)
    ensures multiset(After(c, s, run).parent.accepted) == AcceptedOf(After(c, s, run).txs)
    decreases |run|
  {
    if run != [] {
      LogIsWhatWasSent(c, s, run[..|run| - 1]);
      StepConserves(c, After(c, s, run[..|run| - 1]), run[|run| - 1]);
    }
  }

  // ---------------------------------------------------------------- one step

  /** The daemon has read the head and scans. */
  predicate Scanning(pc: Pc) {
    pc.Scan? || pc.Drain? || pc.SendNext? || pc.AwaitNext? || pc.Finished?
  }

  /** The daemon starts over, or reads one of the heights that a pass is about. */
  predicate Rereads(a: Action, r: Submitter) {
    a == Fail(r) || a == AnswerVoted(r) || a == AnswerLast(r) || a == AnswerHead(r)
  }

  /** A daemon that scans after a step has just read the head, or was scanning the same blocks before; its own
      transactions are then those recorded in its program counter. */
  lemma StepScanning(c: Config, s: System, a: Action, r: Submitter, n: nat)
    requires Enabled(c, s, a) && Scanning(Apply(c, s, a).PcOf(r)) && !Rereads(a, r) && n <= |s.txs|
    ensures var pc, s' := s.PcOf(r), Apply(c, s, a);
            var pc' := s'.PcOf(r);
            && Scanning(pc) && pc'.first == pc.first && pc'.finalized == pc.finalized && |s.txs| <= |s'.txs|
            && (SentBy(r, s.txs[n..]) == pc.sent ==> SentBy(r, s'.txs[n..]) == pc'.sent)
  {
    var s' := Apply(c, s, a);
    match a
    case Send(q) =>
      SentByOneMore(r, s.txs, s'.txs[|s.txs|], n);
      assert s'.txs == s.txs + [s'.txs[|s.txs|]];
    case Mine(_) =>
      SameSendsSentBy(r, s.txs, s'.txs, n);
    case _ =>
  }

  lemma HeadStartsScan(c: Config, s: System, r: Submitter)
    requires Enabled(c, s, AnswerHead(r)) && Scanning(Apply(c, s, AnswerHead(r)).PcOf(r))
    ensures var pc := Apply(c, s, AnswerHead(r)).PcOf(r);
            && pc.first == s.PcOf(r).next - c.period + 1 && pc.finalized == c.Finalized(s.child.head)
            && pc.sent == [] && s.PcOf(r).next <= pc.finalized && Apply(c, s, AnswerHead(r)).txs == s.txs
  {
  }

  /** Only reading the last height leads to reading the head. */
  lemma StepToHead(c: Config, s: System, a: Action, r: Submitter)
    requires Enabled(c, s, a) && Apply(c, s, a).PcOf(r).ReadHead?
    ensures if Rereads(a, r) then a == AnswerLast(r) && s.PcOf(r).ReadNext? && Apply(c, s, a).PcOf(r) == ReadHead(s.parent.last + c.period)
            else s.PcOf(r) == Apply(c, s, a).PcOf(r)
  {
  }

  lemma StepRereads(c: Config, s: System, a: Action, r: Submitter)
    requires Enabled(c, s, a) && Rereads(a, r) && Scanning(Apply(c, s, a).PcOf(r))
    ensures a == AnswerHead(r) && s.PcOf(r).ReadHead?
  {
  }

  // ---------------------------------------------------------------- the record of a pass

  /** At `told` the daemon, done with the last epoch, was told that the parent was at `last`. */
  ghost predicate ToldAt(c: Config, s: System, run: seq<Action>, r: Submitter, told: nat, last: int) {
    && told < |run| && run[told] == AnswerLast(r) && Feasible(c, s, run[..told])
    && After(c, s, run[..told]).PcOf(r).ReadNext? && After(c, s, run[..told]).parent.last == last
  }

  /** At `began` it read the head, which made `finalized` final, and started a scan; there were `n`
      transactions by then. */
  ghost predicate BeganAt(c: Config, s: System, run: seq<Action>, r: Submitter, began: nat, finalized: int, n: nat) {
    && began < |run| && run[began] == AnswerHead(r) && Feasible(c, s, run[..began])
    && c.Finalized(After(c, s, run[..began]).child.head) == finalized && |After(c, s, run[..began]).txs| == n
  }

  /** Neither of the two heights was read again. */
  ghost predicate NotRereadSince(run: seq<Action>, r: Submitter, k: nat) {
    forall i :: k < i < |run| ==> !Rereads(run[i], r)
  }

  lemma ToldAtLonger(c: Config, s: System, run: seq<Action>, k: nat, r: Submitter, told: nat, last: int)
    requires k <= |run| && ToldAt(c, s, run[..k], r, told, last)
    ensures ToldAt(c, s, run, r, told, last)
  {
    assert run[..k][..told] == run[..told];
  }

  lemma BeganAtLonger(c: Config, s: System, run: seq<Action>, k: nat, r: Submitter, began: nat, finalized: int, n: nat)
    requires k <= |run| && BeganAt(c, s, run[..k], r, began, finalized, n)
    ensures BeganAt(c, s, run, r, began, finalized, n) && run[..k][..began] == run[..began]
  {
    assert run[..k][..began] == run[..began];
  }

  lemma NotRereadLonger(run: seq<Action>, r: Submitter, k: nat)
    requires run != [] && NotRereadSince(run[..|run| - 1], r, k) && !Rereads(run[|run| - 1], r)
    ensures NotRereadSince(run, r, k)
  {
    forall i | k < i < |run| ensures !Rereads(run[i], r) {
      assert i < |run| - 1 ==> run[i] == run[..|run| - 1][i];
    }
  }

  /** A daemon that is under way has taken a step. */
  lemma LastStep(c: Config, s: System, run: seq<Action>, r: Submitter)
    requires Initial(s) && Feasible(c, s, run) && !After(c, s, run).PcOf(r).Start?
    ensures run != [] && Feasible(c, s, run[..|run| - 1])
    ensures var before := After(c, s, run[..|run| - 1]);
            Enabled(c, before, run[|run| - 1]) && After(c, s, run) == Apply(c, before, run[|run| - 1])
  {
  }

  lemma {:induction false} ToldOnRecord(c: Config, s: System, run: seq<Action>, r: Submitter) returns (told: nat)
    requires Initial(s) && Feasible(c, s, run) && After(c, s, run).PcOf(r).ReadHead?
    ensures ToldAt(c, s, run, r, told, After(c, s, run).PcOf(r).next - c.period) && NotRereadSince(run, r, told)
    decreases |run|
  {
    LastStep(c, s, run, r);
    var k := |run| - 1;
    var a, before := run[k], After(c, s, run[..k]);
    StepToHead(c, before, a, r);
    if Rereads(a, r) {
      told := k;
    } else {
      told := ToldOnRecord(c, s, run[..k], r);
      ToldAtLonger(c, s, run, k, r, told, before.PcOf(r).next - c.period);
      NotRereadLonger(run, r, told);
    }
  }

  /** The two readings that a scan from `first` to `finalized` rests on; the next checkpoint was due. */
  ghost predicate OnRecord(c: Config, s: System, run: seq<Action>, r: Submitter, told: nat, began: nat, n: nat,
                           first: int, finalized: int) {
    && told < began && first - 1 + c.period <= finalized
    && ToldAt(c, s, run, r, told, first - 1) && BeganAt(c, s, run, r, began, finalized, n)
    && NotRereadSince(run[..began], r, told) && NotRereadSince(run, r, began)
  }

  lemma OnRecordLonger(c: Config, s: System, run: seq<Action>, r: Submitter, told: nat, began: nat, n: nat,
                       first: int, finalized: int)
    requires run != [] && !Rereads(run[|run| - 1], r)
    requires OnRecord(c, s, run[..|run| - 1], r, told, began, n, first, finalized)
    ensures OnRecord(c, s, run, r, told, began, n, first, finalized)
  {
    ToldAtLonger(c, s, run, |run| - 1, r, told, first - 1);
    BeganAtLonger(c, s, run, |run| - 1, r, began, finalized, n);
    NotRereadLonger(run, r, began);
  }

  lemma RecordBegins(c: Config, s: System, run: seq<Action>, r: Submitter) returns (told: nat)
    requires Initial(s) && run != [] && run[|run| - 1] == AnswerHead(r) && Feasible(c, s, run[..|run| - 1])
    requires var before := After(c, s, run[..|run| - 1]);
             before.PcOf(r).ReadHead? && before.PcOf(r).next <= c.Finalized(before.child.head)
    ensures var before := After(c, s, run[..|run| - 1]);
            OnRecord(c, s, run, r, told, |run| - 1, |before.txs|,
                     before.PcOf(r).next - c.period + 1, c.Finalized(before.child.head))
  {
    var k := |run| - 1;
    told := ToldOnRecord(c, s, run[..k], r);
    ToldAtLonger(c, s, run, k, r, told, After(c, s, run[..k]).PcOf(r).next - c.period);
  }

  lemma {:induction false} ScanOnRecord(c: Config, s: System, run: seq<Action>, r: Submitter)
    returns (told: nat, began: nat, n: nat)
    requires Initial(s) && Feasible(c, s, run) && Scanning(After(c, s, run).PcOf(r))
    ensures var t := After(c, s, run);
            && OnRecord(c, s, run, r, told, began, n, t.PcOf(r).first, t.PcOf(r).finalized)
            && n <= |t.txs| && SentBy(r, t.txs[n..]) == t.PcOf(r).sent
    decreases |run|
  {
    LastStep(c, s, run, r);
    var k := |run| - 1;
    var a, before := run[k], After(c, s, run[..k]);
    if Rereads(a, r) {
      StepRereads(c, before, a, r);
      HeadStartsScan(c, before, r);
      began, n := k, |before.txs|;
      told := RecordBegins(c, s, run, r);
      assert before.txs[n..] == [];
    } else {
      StepStaysScanning(c, before, a, r);
      told, began, n := ScanOnRecord(c, s, run[..k], r);
      StepScanning(c, before, a, r, n);
      OnRecordLonger(c, s, run, r, told, began, n, before.PcOf(r).first, before.PcOf(r).finalized);
    }
  }

  lemma StepStaysScanning(c: Config, s: System, a: Action, r: Submitter)
    requires Enabled(c, s, a) && Scanning(Apply(c, s, a).PcOf(r)) && !Rereads(a, r)
    ensures Scanning(s.PcOf(r))
  {
    StepScanning(c, s, a, r, 0);
  }

  /** In every run, whatever others do meanwhile. A daemon that scans was told the parent's last height, then
      read the child's head, and has read neither again. Its transactions since are a prefix of the heights
      named, in block order, by the events of the blocks above that last height up to the block which that head
      made final; and they are all of them when the pass has finished. */
  lemma PassSendsPrefix(c: Config, s: System, run: seq<Action>, r: Submitter)
    returns (told: nat, last: int, began: nat, finalized: int, n: nat)
    requires c.Valid() && Initial(s) && Feasible(c, s, run) && Scanning(After(c, s, run).PcOf(r))
    ensures OnRecord(c, s, run, r, told, began, n, last + 1, finalized)
    ensures var t := After(c, s, run);
            && n <= |t.txs|
            && SentBy(r, t.txs[n..]) <= Named(t.child.events, last + 1, finalized)
            && (t.PcOf(r).Finished? ==> SentBy(r, t.txs[n..]) == Named(t.child.events, last + 1, finalized))
  {
    told, began, n := ScanOnRecord(c, s, run, r);
    last, finalized := After(c, s, run).PcOf(r).first - 1, After(c, s, run).PcOf(r).finalized;
    SentIsPrefix(c, s, run, r);
  }
}
