/** `next_port`: threads draw ports from a shared 16-bit counter with a compare-exchange loop.

    Additions wrap around as in release builds; a build that checks overflow panics at the first wrap,
    so its runs are the ones here that never get that far. */
module PortAllocator {

  const BASE_PORT := 1230
  const U16 := 0x1_0000

  type Thread = nat

  /** A thread is outside the loop body, or has loaded `value` when `drawn` ports had been handed out. */
  datatype Pc = Looping | Loaded(value: nat, drawn: nat)

  datatype Draw = Draw(thread: Thread, port: nat)

  datatype State = State(counter: nat, pcs: map<Thread, Pc>, draws: seq<Draw>) {
    function PcOf(t: Thread): Pc {
      if t in pcs then pcs[t] else Looping
    }
  }

  datatype Action = Load(t: Thread) | Exchange(t: Thread)

  predicate Enabled(s: State, a: Action) {
    match a
    case Load(t) => s.PcOf(t).Looping?
    case Exchange(t) => s.PcOf(t).Loaded?
  }

  predicate Succeeds(s: State, t: Thread)
    requires Enabled(s, Exchange(t))
  {
    s.counter == s.PcOf(t).value
  }

  /** A thread that loses the exchange goes round the loop again; one that wins returns its port. */
  function Apply(s: State, a: Action): State
    requires Enabled(s, a)
  {
    match a
    case Load(t) => s.(pcs := s.pcs[t := Loaded(s.counter, |s.draws|)])
    case Exchange(t) =>
      var r := s.PcOf(t).value;
      var s' := s.(pcs := s.pcs[t := Looping]);
      if Succeeds(s, t) then s'.(counter := (r + 1) % U16, draws := s.draws + [Draw(t, (r + BASE_PORT) % U16)]) else s'
  }

  predicate Feasible(s: State, run: seq<Action>)
    decreases |run|, 0
  {
    run == [] || (Feasible(s, run[..|run| - 1]) && Enabled(After(s, run[..|run| - 1]), run[|run| - 1]))
  }

  function After(s: State, run: seq<Action>): State
    requires Feasible(s, run)
    decreases |run|, 1
  {
    if run == [] then s else Apply(After(s, run[..|run| - 1]), run[|run| - 1])
  }

  function Start(initial: nat): State {
    State(initial % U16, map[], [])
  }

  /** The i-th port handed out since the counter stood at `initial`. */
  function PortAt(initial: nat, i: nat): nat {
    (initial + i + BASE_PORT) % U16
  }

  ghost predicate Inv(initial: nat, s: State) {
    && s.counter == (initial + |s.draws|) % U16
    && (forall i :: 0 <= i < |s.draws| ==> s.draws[i].port == PortAt(initial, i))
    && (forall t :: t in s.pcs && s.pcs[t].Loaded? ==>
                      && s.pcs[t].drawn <= |s.draws|
                      && s.pcs[t].value == (initial + s.pcs[t].drawn) % U16
                      && (forall i :: s.pcs[t].drawn <= i < |s.draws| ==> s.draws[i].thread != t))
  }

  lemma WrapsOnce(x: nat, k: nat)
    ensures (x % U16 + k) % U16 == (x + k) % U16
  {
  }

  lemma StepKeepsInv(initial: nat, s: State, a: Action)
    requires Inv(initial, s) && Enabled(s, a)
    ensures Inv(initial, Apply(s, a))
  {
    if a.Exchange? && Succeeds(s, a.t) {
      WrapsOnce(initial + |s.draws|, 1);
      WrapsOnce(initial + |s.draws|, BASE_PORT);
    }
  }

  lemma {:induction false} RunKeepsInv(initial: nat, run: seq<Action>)
    requires Feasible(Start(initial), run)
    ensures Inv(initial, After(Start(initial), run))
    decreases |run|
  {
    if run != [] {
      RunKeepsInv(initial, run[..|run| - 1]);
      StepKeepsInv(initial, After(Start(initial), run[..|run| - 1]), run[|run| - 1]);
    }
  }

  lemma ModApart(x: nat, i: nat, j: nat)
    requires i < j < i + U16
    ensures (x + i) % U16 != (x + j) % U16
  {
  }

  /** In every interleaving the ports handed out are exactly the consecutive ones from the initial counter
      plus the base port, in the order drawn; and they are pairwise distinct exactly as long as no more
      were drawn than there are ports. */
  lemma PortsAreConsecutive(initial: nat, run: seq<Action>)
    requires Feasible(Start(initial), run)
    ensures var draws := After(Start(initial), run).draws;
            && (forall i :: 0 <= i < |draws| ==> draws[i].port == PortAt(initial, i))
            && ((forall i, j :: 0 <= i < j < |draws| ==> draws[i].port != draws[j].port) <==> |draws| <= U16)
  {
    RunKeepsInv(initial, run);
    var draws := After(Start(initial), run).draws;
    if |draws| <= U16 {
      forall i, j | 0 <= i < j < |draws| ensures draws[i].port != draws[j].port {
        ModApart(initial + BASE_PORT, i, j);
      }
    } else {
      assert draws[0].port == draws[U16].port;
    }
  }

  /** An exchange only fails because some other thread's succeeded since this one loaded the counter. */
  lemma FailureMeansProgress(initial: nat, run: seq<Action>, t: Thread)
    requires Feasible(Start(initial), run)
    requires Enabled(After(Start(initial), run), Exchange(t)) && !Succeeds(After(Start(initial), run), t)
    ensures var s := After(Start(initial), run);
            exists i :: s.PcOf(t).drawn <= i < |s.draws| && s.draws[i].thread != t
  {
    RunKeepsInv(initial, run);
    var s := After(Start(initial), run);
    assert s.draws[|s.draws| - 1].thread != t;
  }
}
