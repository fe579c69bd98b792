/** The two chains a bottom-up relayer talks to.

    The parent contract is Solidity and not part of this model; its rule is stated here as an
    assumption about the environment: a bundle is accepted at the last accepted height (a repeat
    that only records one more submitter) or exactly one checkpoint period above it. */
module CheckpointChains {

  type Submitter = nat

  /** A checkpoint cut by the child at `height`; `digest` stands for all its other contents. */
  datatype Checkpoint = Checkpoint(height: int, digest: nat)

  /** What the relayer submits: a checkpoint and whatever signatures the child returned with it. */
  datatype Bundle = Bundle(checkpoint: Checkpoint, signatures: nat)

  datatype Config = Config(period: int, finalizationBlocks: int) {
    predicate Valid() { 0 < period }

    /** The newest block whose events the relayer trusts; never below block 1. */
    function Finalized(head: int): (f: int)
      ensures 1 <= f && head <= f + finalizationBlocks
      ensures f == 1 || f + finalizationBlocks == head
    {
      if 1 < head - finalizationBlocks then head - finalizationBlocks else 1
    }

    /** The height of the k-th checkpoint. */
    function Rung(k: nat): (h: int)
      ensures Valid() ==> k <= h
    {
      if k == 0 then 0 else Rung(k - 1) + period
    }

    lemma {:induction false} RungOrder(a: nat, b: nat)
      requires Valid()
      ensures a < b <==> Rung(a) < Rung(b)
      ensures a < b ==> Rung(a) + period <= Rung(b)
      decreases a + b
    {
      if a < b {
        if a < b - 1 {
          RungOrder(a, b - 1);
        }
      } else if b < a {
        if b < a - 1 {
          RungOrder(a - 1, b);
        }
      }
    }
  }

  datatype Parent = Parent(last: int, voters: set<Submitter>, accepted: seq<Bundle>)

  /** `events(b)` lists the checkpoint heights named by the quorum events of block `b`, in log order;
      `digest(h)` is the content of the checkpoint cut at height `h`. */
  datatype Child = Child(head: int, events: int -> seq<int>, digest: int -> nat) {
    function BundleAt(height: int, signatures: nat): Bundle {
      Bundle(Checkpoint(height, digest(height)), signatures)
    }
  }

  predicate Accepts(last: int, period: int, height: int) {
    height == last || height == last + period
  }

  /** One `submitCheckpoint` transaction executed by the parent; a rejected one changes nothing. */
  function Execute(c: Config, p: Parent, who: Submitter, b: Bundle): Parent {
    if b.checkpoint.height == p.last then
      p.(voters := p.voters + {who}, accepted := p.accepted + [b])
    else if b.checkpoint.height == p.last + c.period then
      Parent(b.checkpoint.height, {who}, p.accepted + [b])
    else
      p
  }

  /** The heights named by quorum events in blocks `lo..hi` (both included), in block order. */
  function Named(events: int -> seq<int>, lo: int, hi: int): (hs: seq<int>)
    decreases hi - lo
  {
    if hi < lo then [] else Named(events, lo, hi - 1) + events(hi)
  }

  /** Block `b` lies at least `finalizationBlocks` below the head, or is block 1. */
  predicate Deep(c: Config, head: int, b: int) {
    b == 1 || (1 < b && b + c.finalizationBlocks <= head)
  }

  /** The finalized blocks are exactly the deep ones. */
  lemma FinalizedIsDeep(c: Config, head: int, b: int)
    ensures 1 <= b <= c.Finalized(head) <==> Deep(c, head, b)
  {
  }

  /** Some quorum event in a finalized block names `height`. */
  ghost predicate QuorumReached(c: Config, child: Child, height: int) {
    exists b :: 1 <= b <= c.Finalized(child.head) && height in child.events(b)
  }

  /** The child chain may grow and may rewrite blocks that are not final yet. It never rewrites a
      finalized block, nor a checkpoint that a finalized quorum event names. */
  ghost predicate Grows(c: Config, child: Child, child': Child) {
    && child.head <= child'.head
    && (forall b :: b <= c.Finalized(child.head) ==> child'.events(b) == child.events(b))
    && (forall h :: QuorumReached(c, child, h) ==> child'.digest(h) == child.digest(h))
  }

  lemma {:induction false} NamedSplits(events: int -> seq<int>, lo: int, mid: int, hi: int)
    requires lo <= mid + 1 && mid <= hi
    ensures Named(events, lo, hi) == Named(events, lo, mid) + Named(events, mid + 1, hi)
    decreases hi - mid
  {
    if mid < hi {
      NamedSplits(events, lo, mid, hi - 1);
    }
  }

  lemma {:induction false} NamedAgrees(events: int -> seq<int>, events': int -> seq<int>, lo: int, hi: int)
    requires forall b :: b <= hi ==> events(b) == events'(b)
    ensures Named(events, lo, hi) == Named(events', lo, hi)
    decreases hi - lo
  {
    if lo <= hi {
      NamedAgrees(events, events', lo, hi - 1);
    }
  }

  /** Membership in the concatenation is membership in one of its blocks. */
  lemma {:induction false} NamedMembership(events: int -> seq<int>, lo: int, hi: int, h: int)
    ensures h in Named(events, lo, hi) <==> exists b :: lo <= b <= hi && h in events(b)
    decreases hi - lo
  {
    if lo <= hi {
      NamedMembership(events, lo, hi - 1, h);
    }
  }
}
