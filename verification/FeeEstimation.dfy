/** EIP-1559 fee estimation: the priority fee taken from a reward history, and the fee cap built on it. */
module FeeEstimation {

  const U256_LIMIT: int := 0x1_0000_0000_0000_0000_0000_0000_0000_0000_0000_0000_0000_0000_0000_0000_0000_0000
  const I256_LIMIT: int := 0x8000_0000_0000_0000_0000_0000_0000_0000_0000_0000_0000_0000_0000_0000_0000_0000

  /** The jump, in percent, from which only the rewards after it count (a constant of the ethers library). */
  const MAX_CHANGE_THRESHOLD := 200

  /** `MissingReward`: a block reports no reward percentile, so indexing it panics. `Overflow`: a reward or
      a difference times 100 does not fit the 256-bit integer it is computed in. */
  datatype Outcome = Fee(value: nat) | MissingReward | Overflow

  // ---------------------------------------------------------------- specification

  predicate Reported(rewards: seq<seq<nat>>) {
    forall i :: 0 <= i < |rewards| ==> rewards[i] != []
  }

  /** The first percentile of every block, zeros dropped. */
  function Positive(rewards: seq<seq<nat>>): (ps: seq<nat>)
    requires Reported(rewards)
    ensures forall i :: 0 <= i < |ps| ==> 0 < ps[i]
  {
    if rewards == [] then []
    else
      var rest := Positive(rewards[..|rewards| - 1]);
      var r := rewards[|rewards| - 1][0];
      if 0 < r then rest + [r] else rest
  }

  /** The blocks whose first percentile is `x`. */
  ghost function BlocksPaying(rewards: seq<seq<nat>>, x: nat): set<int>
    requires Reported(rewards)
  {
    set i | 0 <= i < |rewards| && rewards[i][0] == x
  }

  /** Each positive reward occurs once for every block that pays it. */
  lemma {:induction false} PositiveCounts(rewards: seq<seq<nat>>, x: nat)
    requires Reported(rewards)
    ensures multiset(Positive(rewards))[x] == if x == 0 then 0 else |BlocksPaying(rewards, x)|
    decreases |rewards|
  {
    if rewards == [] {
      assert BlocksPaying(rewards, x) == {};
    } else {
      var n := |rewards| - 1;
      PositiveCounts(rewards[..n], x);
      OneMoreBlock(rewards, x);
      var rest, r := Positive(rewards[..n]), rewards[n][0];
      assert multiset(rest + [r]) == multiset(rest) + multiset{r};
    }
  }

  lemma OneMoreBlock(rewards: seq<seq<nat>>, x: nat)
    requires Reported(rewards) && rewards != []
    ensures var n := |rewards| - 1;
            |BlocksPaying(rewards, x)| == |BlocksPaying(rewards[..n], x)| + if rewards[n][0] == x then 1 else 0
  {
    var n := |rewards| - 1;
    var before := BlocksPaying(rewards[..n], x);
    var now := if rewards[n][0] == x then before + {n} else before;
    forall i ensures i in BlocksPaying(rewards, x) <==> i in now {
      assert 0 <= i < n ==> rewards[..n][i] == rewards[i];
    }
    assert BlocksPaying(rewards, x) == now;
  }

  predicate Sorted(s: seq<nat>) {
    forall i, j :: 0 <= i < j < |s| ==> s[i] <= s[j]
  }

  function Insert(x: nat, s: seq<nat>): (r: seq<nat>)
    ensures |r| == |s| + 1
  {
    if s == [] || x <= s[0] then [x] + s else [s[0]] + Insert(x, s[1..])
  }

  function Sort(s: seq<nat>): (r: seq<nat>)
    ensures |r| == |s|
  {
    if s == [] then [] else Insert(s[0], Sort(s[1..]))
  }

  lemma {:induction false} InsertAdds(x: nat, s: seq<nat>)
    ensures multiset(Insert(x, s)) == multiset(s) + multiset{x}
    decreases |s|
  {
    if s != [] && s[0] < x {
      InsertAdds(x, s[1..]);
      assert s == [s[0]] + s[1..];
    }
  }

  lemma {:induction false} InsertBound(x: nat, s: seq<nat>, low: nat)
    requires low <= x && forall i :: 0 <= i < |s| ==> low <= s[i]
    ensures forall i :: 0 <= i < |Insert(x, s)| ==> low <= Insert(x, s)[i]
    decreases |s|
  {
    if s != [] && s[0] < x {
      InsertBound(x, s[1..], low);
    }
  }

  lemma {:induction false} InsertSorts(x: nat, s: seq<nat>)
    requires Sorted(s)
    ensures Sorted(Insert(x, s))
    decreases |s|
  {
    if s != [] && s[0] < x {
      InsertSorts(x, s[1..]);
      InsertBound(x, s[1..], s[0]);
    }
  }

  /** `Sort` returns the elements it was given, in order. */
  lemma {:induction false} SortSorts(s: seq<nat>)
    ensures Sorted(Sort(s)) && multiset(Sort(s)) == multiset(s)
    decreases |s|
  {
    if s != [] {
      SortSorts(s[1..]);
      InsertSorts(s[0], Sort(s[1..]));
      InsertAdds(s[0], Sort(s[1..]));
      assert s == [s[0]] + s[1..];
    }
  }

  /** Division that rounds toward zero. */
  function TruncDiv(a: int, b: int): int
    requires 0 < b
  {
    if 0 <= a then a / b else -(-a / b)
  }

  /** The change from `a` to `b` in whole percents. */
  function PercentChange(a: nat, b: nat): int
    requires 0 < a
  {
    TruncDiv((b - a) * 100, a)
  }

  predicate FitsI256(x: int) {
    -I256_LIMIT <= x < I256_LIMIT
  }

  predicate ChangeFits(a: nat, b: nat) {
    FitsI256(a) && FitsI256(b) && FitsI256((b - a) * 100)
  }

  /** Every reward fits, and so does every step computed: between neighbours of the sorted rewards, and
      from the last one back to the first, which the rotation pairs up before it is dropped. */
  predicate StepsFit(s: seq<nat>) {
    forall i :: 0 <= i < |s| ==> ChangeFits(s[i], Rotated(s)[i])
  }

  /** The vector rotated left by one. */
  function Rotated(s: seq<nat>): (r: seq<nat>)
    ensures |r| == |s|
    ensures forall i :: 0 <= i < |s| ==> r[i] == if i + 1 < |s| then s[i + 1] else s[0]
  {
    if s == [] then [] else s[1..] + s[..1]
  }

  /** The first `n` percentage changes between the vector and its rotation. */
  function ChangesUpTo(s: seq<nat>, n: nat): (cs: seq<int>)
    requires n <= |s| && forall i :: 0 <= i < |s| ==> 0 < s[i]
    ensures |cs| == n
  {
    if n == 0 then [] else ChangesUpTo(s, n - 1) + [PercentChange(s[n - 1], Rotated(s)[n - 1])]
  }

  /** All of them but the last, which compares the last element with the first. */
  function Changes(s: seq<nat>): (cs: seq<int>)
    requires s != [] && forall i :: 0 <= i < |s| ==> 0 < s[i]
    ensures |cs| == |s| - 1
  {
    ChangesUpTo(s, |s| - 1)
  }

  /** `k` is the first position of a greatest element. */
  ghost predicate FirstMax(cs: seq<int>, k: nat) {
    && k < |cs|
    && (forall i :: 0 <= i < |cs| ==> cs[i] <= cs[k])
    && (forall i :: 0 <= i < k ==> cs[i] < cs[k])
  }

  function ArgMax(cs: seq<int>): (k: nat)
    requires cs != []
    ensures FirstMax(cs, k)
  {
    if |cs| == 1 then 0
    else
      var k := ArgMax(cs[..|cs| - 1]);
      if cs[k] < cs[|cs| - 1] then |cs| - 1 else k
  }

  /** Where the values that count start: at a big jump in the upper half, else at the beginning. */
  function CutAt(n: nat, cs: seq<int>): (k: nat)
    requires 2 <= n == |cs| + 1
    ensures k == 0 || n / 2 <= k < n - 1
  {
    var k := ArgMax(cs);
    if MAX_CHANGE_THRESHOLD <= cs[k] && n / 2 <= k then k else 0
  }

  /** The upper median of what is left after the cut. */
  function MedianFrom(s: seq<nat>, k: nat): (fee: nat)
    requires k < |s|
  {
    s[k..][|s[k..]| / 2]
  }

  function EstimateSorted(s: seq<nat>): Outcome
    requires forall i :: 0 <= i < |s| ==> 0 < s[i]
  {
    if s == [] then Fee(0)
    else if |s| == 1 then Fee(s[0])
    else if StepsFit(s) then Fee(MedianFrom(s, CutAt(|s|, Changes(s))))
    else Overflow
  }

  lemma SortKeepsPositive(ps: seq<nat>)
    requires forall i :: 0 <= i < |ps| ==> 0 < ps[i]
    ensures forall i :: 0 <= i < |Sort(ps)| ==> 0 < Sort(ps)[i]
  {
    SortSorts(ps);
    forall i | 0 <= i < |ps| ensures 0 < Sort(ps)[i] {
      assert Sort(ps)[i] in multiset(ps);
    }
  }

  function Estimate(rewards: seq<seq<nat>>): Outcome {
    if !Reported(rewards) then MissingReward
    else
      SortKeepsPositive(Positive(rewards));
      EstimateSorted(Sort(Positive(rewards)))
  }

  // ---------------------------------------------------------------- the algorithm

  method CollectPositive(rewards: seq<seq<nat>>) returns (missing: bool, ps: seq<nat>)
    ensures missing == !Reported(rewards)
    ensures !missing ==> ps == Positive(rewards)
  {
    ps := [];
    var i := 0;
    while i < |rewards|
      invariant 0 <= i <= |rewards|
      invariant Reported(rewards[..i]) && ps == Positive(rewards[..i])
    {
      if rewards[i] == [] {
        return true, [];
      }
      assert rewards[..i + 1][..i] == rewards[..i];
      var r := rewards[i][0];
      if 0 < r {
        ps := ps + [r];
      }
      i := i + 1;
    }
    assert rewards[..i] == rewards;
    missing := false;
  }

  /** Percentage changes between the vector and its rotation by one, the last one dropped. */
  method ComputeChanges(s: seq<nat>) returns (overflow: bool, cs: seq<int>)
    requires 2 <= |s| && forall i :: 0 <= i < |s| ==> 0 < s[i]
    ensures overflow == !StepsFit(s)
    ensures !overflow ==> cs == Changes(s)
    ensures !overflow && Sorted(s) ==> forall i :: 0 <= i < |s| - 1 ==> GrowsByPercent(s[i], s[i + 1], cs[i])
  {
    var rotated := Rotated(s);
    cs := [];
    var i := 0;
    while i < |s|
      invariant 0 <= i <= |s|
      invariant cs == ChangesUpTo(s, i)
      invariant forall j :: 0 <= j < i ==> ChangeFits(s[j], rotated[j])
    {
      if !ChangeFits(s[i], rotated[i]) {
        return true, [];
      }
      cs := cs + [PercentChange(s[i], rotated[i])];
      i := i + 1;
    }
    cs := cs[..|cs| - 1];
    overflow := false;
    if Sorted(s) {
      forall i | 0 <= i < |s| - 1 ensures GrowsByPercent(s[i], s[i + 1], cs[i]) {
        ChangesAre(s, i);
      }
    }
  }

  /** The greatest element, and then the first position that holds it. */
  method FindFirstMax(cs: seq<int>) returns (max: int, k: nat)
    requires cs != []
    ensures FirstMax(cs, k) && max == cs[k]
  {
    max := cs[0];
    for i := 1 to |cs|
      invariant max in cs
      invariant forall j :: 0 <= j < i ==> cs[j] <= max
    {
      if max < cs[i] {
        max := cs[i];
      }
    }
    k := 0;
    while cs[k] != max
      invariant k < |cs| && max in cs[k..]
      invariant forall j :: 0 <= j < k ==> cs[j] < max
      decreases |cs| - k
    {
      k := k + 1;
    }
  }

  lemma FirstMaxIsUnique(cs: seq<int>, k: nat)
    requires FirstMax(cs, k)
    ensures k == ArgMax(cs)
  {
  }

  method EstimatePriorityFee(rewards: seq<seq<nat>>) returns (r: Outcome)
    ensures r == Estimate(rewards)
    ensures r.MissingReward? <==> exists i :: 0 <= i < |rewards| && rewards[i] == []
  {
    var missing, ps := CollectPositive(rewards);
    if missing {
      return MissingReward;
    }
    SortKeepsPositive(ps);
    if |ps| == 0 {
      return Fee(0);
    }
    if |ps| == 1 {
      assert Sort(ps) == ps;
      return Fee(ps[0]);
    }
    var s := Sort(ps);
    var overflow, cs := ComputeChanges(s);
    if overflow {
      return Overflow;
    }
    var max, k := FindFirstMax(cs);
    FirstMaxIsUnique(cs, k);
    var values := s;
    if MAX_CHANGE_THRESHOLD <= max && |s| / 2 <= k {
      values := s[k..];
    }
    r := Fee(values[|values| / 2]);
  }

  // ---------------------------------------------------------------- what the estimate is

  /** Sorting forgets the order, so two sequences with the same elements sort alike. */
  lemma {:induction false} SortedIsUnique(a: seq<nat>, b: seq<nat>)
    requires Sorted(a) && Sorted(b) && multiset(a) == multiset(b)
    ensures a == b
    decreases |a|
  {
    assert |multiset(a)| == |a| && |multiset(b)| == |b|;
    if a != [] {
      SameElements(a, b, a[0]);
      SameElements(b, a, b[0]);
      assert a[0] == b[0];
      TailElements(a);
      TailElements(b);
      SortedIsUnique(a[1..], b[1..]);
    }
  }

  lemma TailElements(s: seq<nat>)
    requires s != []
    ensures multiset(s[1..]) == multiset(s) - multiset{s[0]}
  {
    assert s == [s[0]] + s[1..];
  }

  /** The estimate depends only on which positive rewards occur and how often: reordering blocks, or
      adding blocks whose reward is zero, changes nothing. */
  lemma EstimateIgnoresOrderAndZeros(a: seq<seq<nat>>, b: seq<seq<nat>>)
    requires Reported(a) && Reported(b)
    requires multiset(Positive(a)) == multiset(Positive(b))
    ensures Estimate(a) == Estimate(b)
  {
    SortSorts(Positive(a));
    SortSorts(Positive(b));
    SortedIsUnique(Sort(Positive(a)), Sort(Positive(b)));
  }

  /** No reward at all gives 0. Otherwise an estimate is one of the rewards, at least their upper median
      and at most the greatest of them. */
  lemma EstimateIsATypicalReward(rewards: seq<seq<nat>>)
    requires Estimate(rewards).Fee?
    ensures var s := Sort(Positive(rewards));
            var fee := Estimate(rewards).value;
            if s == [] then fee == 0 else fee in Positive(rewards) && s[|s| / 2] <= fee <= s[|s| - 1]
  {
    var ps := Positive(rewards);
    SortKeepsPositive(ps);
    SortSorts(ps);
    if ps != [] {
      SortedEstimateIsTypical(Sort(ps));
      SameElements(Sort(ps), ps, Estimate(rewards).value);
    }
  }

  lemma SameElements(a: seq<nat>, b: seq<nat>, x: nat)
    requires multiset(a) == multiset(b) && x in a
    ensures x in b
  {
    assert x in multiset(b);
  }

  lemma SortedEstimateIsTypical(s: seq<nat>)
    requires s != [] && Sorted(s) && (forall i :: 0 <= i < |s| ==> 0 < s[i]) && EstimateSorted(s).Fee?
    ensures EstimateSorted(s).value in s && s[|s| / 2] <= EstimateSorted(s).value <= s[|s| - 1]
  {
  }

  lemma {:induction false} ChangeAt(s: seq<nat>, n: nat, i: nat)
    requires i < n <= |s| && forall j :: 0 <= j < |s| ==> 0 < s[j]
    ensures ChangesUpTo(s, n)[i] == PercentChange(s[i], Rotated(s)[i])
    decreases n
  {
    if i < n - 1 {
      ChangeAt(s, n - 1, i);
    }
  }

  /** `change` is the growth from `a` to `b` in percents of `a`, rounded down. */
  predicate GrowsByPercent(a: nat, b: nat, change: int) {
    change * a <= (b - a) * 100 < (change + 1) * a
  }

  lemma PercentIs(a: nat, b: nat)
    requires 0 < a <= b
    ensures GrowsByPercent(a, b, PercentChange(a, b))
  {
    var d := (b - a) * 100;
    var q := d / a;
    assert d == q * a + d % a;
    assert (q + 1) * a == q * a + a;
  }

  /** The changes of sorted rewards are the growths between neighbours. */
  lemma ChangesAre(s: seq<nat>, i: nat)
    requires Sorted(s) && i + 1 < |s| && forall j :: 0 <= j < |s| ==> 0 < s[j]
    ensures GrowsByPercent(s[i], s[i + 1], Changes(s)[i])
  {
    ChangeAt(s, |s| - 1, i);
    PercentIs(s[i], s[i + 1]);
  }

  /** A growth reaches the threshold exactly when the reward at least triples. */
  lemma ThresholdMeansTriple(a: nat, b: nat, change: int)
    requires 0 < a <= b && GrowsByPercent(a, b, change)
    ensures MAX_CHANGE_THRESHOLD <= change <==> 3 * a <= b
  {
    if 200 <= change {
      assert change * a == 200 * a + (change - 200) * a;
      assert 0 <= (change - 200) * a;
    } else {
      assert 200 * a == (change + 1) * a + (199 - change) * a;
      assert 0 <= (199 - change) * a;
    }
  }

  lemma BigJumpMeansTriple(s: seq<nat>, k: nat)
    requires Sorted(s) && k + 1 < |s| && forall j :: 0 <= j < |s| ==> 0 < s[j]
    ensures MAX_CHANGE_THRESHOLD <= Changes(s)[k] <==> 3 * s[k] <= s[k + 1]
  {
    ChangesAre(s, k);
    ThresholdMeansTriple(s[k], s[k + 1], Changes(s)[k]);
  }

  /** What the cut does, told by the first greatest jump between neighbouring rewards: if a reward in the upper
      half is followed by one at least three times as high, only the rewards from it on count, and the fee is
      their upper median; otherwise it is the upper median of all of them. */
  lemma EstimateFollowsFirstJump(rewards: seq<seq<nat>>, s: seq<nat>, k: nat)
    requires Reported(rewards) && Estimate(rewards).Fee? && s == Sort(Positive(rewards))
    requires 2 <= |s| && (forall i :: 0 <= i < |s| ==> 0 < s[i]) && FirstMax(Changes(s), k)
    ensures var jump := 3 * s[k] <= s[k + 1] && |s| / 2 <= k;
            Estimate(rewards).value == if jump then s[k + (|s| - k) / 2] else s[|s| / 2]
  {
    SortSorts(Positive(rewards));
    BigJumpMeansTriple(s, k);
    assert Estimate(rewards) == EstimateSorted(s);
    EstimateFollowsCut(s, k);
  }

  lemma EstimateFollowsCut(s: seq<nat>, k: nat)
    requires 2 <= |s| && (forall i :: 0 <= i < |s| ==> 0 < s[i]) && EstimateSorted(s).Fee?
    requires FirstMax(Changes(s), k)
    ensures var jump := MAX_CHANGE_THRESHOLD <= Changes(s)[k] && |s| / 2 <= k;
            EstimateSorted(s).value == if jump then s[k + (|s| - k) / 2] else s[|s| / 2]
  {
    CutAtFirstJump(|s|, Changes(s), k);
    MedianFromIs(s, CutAt(|s|, Changes(s)));
  }

  lemma CutAtFirstJump(n: nat, cs: seq<int>, k: nat)
    requires 2 <= n == |cs| + 1 && FirstMax(cs, k)
    ensures CutAt(n, cs) == if MAX_CHANGE_THRESHOLD <= cs[k] && n / 2 <= k then k else 0
  {
  }

  lemma MedianFromIs(s: seq<nat>, k: nat)
    requires k < |s|
    ensures MedianFrom(s, k) == s[k + (|s| - k) / 2]
  {
  }

  ghost predicate IsRange(ps: seq<nat>, least: nat, greatest: nat) {
    && least in ps && greatest in ps
    && forall i :: 0 <= i < |ps| ==> least <= ps[i] <= greatest
  }

  /** A step within a range whose greatest value and spread fit. The limit is no multiple of 100. */
  lemma ChangeWithinFits(a: nat, b: nat, least: nat, greatest: nat)
    requires least <= a <= greatest && least <= b <= greatest
    requires greatest < I256_LIMIT && (greatest - least) * 100 <= I256_LIMIT
    ensures ChangeFits(a, b)
  {
    assert I256_LIMIT % 100 != 0;
  }

  /** All the 256-bit steps fit exactly when the greatest reward does and a hundred times the spread does. */
  lemma StepsFitExactly(s: seq<nat>)
    requires Sorted(s) && 2 <= |s|
    ensures StepsFit(s) <==> s[|s| - 1] < I256_LIMIT && (s[|s| - 1] - s[0]) * 100 <= I256_LIMIT
  {
    var least, greatest := s[0], s[|s| - 1];
    if greatest < I256_LIMIT && (greatest - least) * 100 <= I256_LIMIT {
      forall i | 0 <= i < |s| ensures ChangeFits(s[i], Rotated(s)[i]) {
        ChangeWithinFits(s[i], Rotated(s)[i], least, greatest);
      }
    } else {
      LastStepFails(least, greatest);
      assert Rotated(s)[|s| - 1] == least;
    }
  }

  lemma LastStepFails(least: nat, greatest: nat)
    requires I256_LIMIT <= greatest || I256_LIMIT < (greatest - least) * 100
    ensures !ChangeFits(greatest, least)
  {
  }

  lemma SortedEnds(s: seq<nat>, least: nat, greatest: nat)
    requires Sorted(s) && IsRange(s, least, greatest)
    ensures s[0] == least && s[|s| - 1] == greatest
  {
    var i :| 0 <= i < |s| && s[i] == least;
    var j :| 0 <= j < |s| && s[j] == greatest;
  }

  lemma SortedRange(ps: seq<nat>, least: nat, greatest: nat)
    requires IsRange(ps, least, greatest)
    ensures Sort(ps)[0] == least && Sort(ps)[|ps| - 1] == greatest
  {
    SortSorts(ps);
    var s := Sort(ps);
    SameElements(ps, s, least);
    SameElements(ps, s, greatest);
    forall i | 0 <= i < |s| ensures least <= s[i] <= greatest {
      SameElements(s, ps, s[i]);
    }
    SortedEnds(s, least, greatest);
  }

  /** When a caller gets an estimate. A block without a reward always panics. Otherwise, with two positive
      rewards or more, arithmetic overflows exactly when the greatest does not fit a signed 256-bit integer or
      a hundred times the spread between the least and the greatest exceeds one. */
  lemma EstimateExistsExactly(rewards: seq<seq<nat>>, least: nat, greatest: nat)
    requires Reported(rewards) && IsRange(Positive(rewards), least, greatest)
    ensures Estimate(rewards).Fee? <==>
            |Positive(rewards)| == 1 || (greatest < I256_LIMIT && (greatest - least) * 100 <= I256_LIMIT)
  {
    var ps := Positive(rewards);
    SortKeepsPositive(ps);
    SortedRange(ps, least, greatest);
    if 2 <= |ps| {
      SortSorts(ps);
      StepsFitExactly(Sort(ps));
    }
  }

  // ---------------------------------------------------------------- scaling

  function Scale(k: nat, s: seq<nat>): (r: seq<nat>)
    ensures |r| == |s| && forall i :: 0 <= i < |s| ==> r[i] == k * s[i]
  {
    seq(|s|, i requires 0 <= i < |s| => k * s[i])
  }

  function ScaleAll(k: nat, rewards: seq<seq<nat>>): (r: seq<seq<nat>>)
    ensures |r| == |rewards| && forall i :: 0 <= i < |rewards| ==> r[i] == Scale(k, rewards[i])
  {
    seq(|rewards|, i requires 0 <= i < |rewards| => Scale(k, rewards[i]))
  }

  lemma DivScales(k: nat, a: nat, b: nat)
    requires 0 < k && 0 < b
    ensures 0 < k * b && (k * a) / (k * b) == a / b
  {
    var q, r := a / b, a % b;
    assert a == b * q + r;
    assert k * a == (k * b) * q + k * r by {
      assert k * (b * q + r) == k * (b * q) + k * r;
      assert k * (b * q) == (k * b) * q;
    }
    assert 0 <= k * r < k * b;
    DivUnique(k * a, k * b, q, k * r);
  }

  lemma DivUnique(a: int, b: int, q: int, r: int)
    requires 0 < b && a == b * q + r && 0 <= r < b
    ensures a / b == q
  {
    var q', r' := a / b, a % b;
    assert b * (q' - q) == r - r' by {
      assert a == b * q' + r';
    }
    SmallMultiple(b, q' - q);
  }

  /** The only multiple of `b` strictly between `-b` and `b` is zero. */
  lemma SmallMultiple(b: int, d: int)
    requires 0 < b && -b < b * d < b
    ensures d == 0
  {
    if 0 < d {
      Grows(b, d);
    } else if d < 0 {
      assert b * -d == -(b * d);
      Grows(b, -d);
    }
  }

  lemma Grows(b: int, d: int)
    requires 0 < b && 0 < d
    ensures b <= b * d
  {
    assert b * d == b + b * (d - 1);
  }

  /** Percentages do not see the unit the rewards are expressed in. */
  lemma ChangeScales(k: nat, a: nat, b: nat)
    requires 0 < k && 0 < a
    ensures 0 < k * a && PercentChange(k * a, k * b) == PercentChange(a, b)
  {
    var d := (b - a) * 100;
    assert (k * b - k * a) * 100 == k * d;
    if 0 <= d {
      DivScales(k, d, a);
    } else {
      DivScales(k, -d, a);
      assert k * -d == -(k * d);
    }
  }

  lemma ReportedScales(k: nat, rewards: seq<seq<nat>>)
    ensures Reported(ScaleAll(k, rewards)) <==> Reported(rewards)
  {
  }

  lemma ScaleSnoc(k: nat, s: seq<nat>, x: nat)
    ensures Scale(k, s + [x]) == Scale(k, s) + [k * x]
  {
  }

  lemma {:induction false} PositiveScales(k: nat, rewards: seq<seq<nat>>)
    requires 0 < k && Reported(rewards) && Reported(ScaleAll(k, rewards))
    ensures Positive(ScaleAll(k, rewards)) == Scale(k, Positive(rewards))
    decreases |rewards|
  {
    if rewards != [] {
      var init, r := rewards[..|rewards| - 1], rewards[|rewards| - 1][0];
      ReportedScales(k, init);
      PositiveScales(k, init);
      var scaled := ScaleAll(k, rewards);
      assert scaled[..|scaled| - 1] == ScaleAll(k, init);
      assert scaled[|scaled| - 1][0] == k * r;
      if 0 < r {
        Grows(k, r);
        ScaleSnoc(k, Positive(init), r);
      }
    }
  }

  lemma ScaleCons(k: nat, x: nat, s: seq<nat>)
    ensures Scale(k, [x] + s) == [k * x] + Scale(k, s)
  {
  }

  lemma {:induction false} InsertScales(k: nat, x: nat, s: seq<nat>)
    requires 0 < k
    ensures Insert(k * x, Scale(k, s)) == Scale(k, Insert(x, s))
    decreases |s|
  {
    if s == [] || x <= s[0] {
      ScaleCons(k, x, s);
      if s != [] {
        OrderScales(k, x, s[0]);
      }
    } else {
      OrderScales(k, x, s[0]);
      ScaleCons(k, s[0], s[1..]);
      assert s == [s[0]] + s[1..];
      assert Scale(k, s)[1..] == Scale(k, s[1..]);
      InsertScales(k, x, s[1..]);
      ScaleCons(k, s[0], Insert(x, s[1..]));
    }
  }

  lemma OrderScales(k: nat, a: nat, b: nat)
    requires 0 < k
    ensures a <= b <==> k * a <= k * b
  {
    assert k * b - k * a == k * (b - a);
    if b < a {
      Grows(k, a - b);
      assert k * (a - b) == -(k * (b - a));
    }
  }

  lemma {:induction false} SortScales(k: nat, s: seq<nat>)
    requires 0 < k
    ensures Sort(Scale(k, s)) == Scale(k, Sort(s))
    decreases |s|
  {
    if s != [] {
      SortScales(k, s[1..]);
      ScaleCons(k, s[0], s[1..]);
      assert s == [s[0]] + s[1..];
      assert Scale(k, s)[1..] == Scale(k, s[1..]);
      InsertScales(k, s[0], Sort(s[1..]));
    }
  }

  lemma ScaledPositive(k: nat, s: seq<nat>)
    requires 0 < k && forall i :: 0 <= i < |s| ==> 0 < s[i]
    ensures forall i :: 0 <= i < |s| ==> 0 < Scale(k, s)[i]
  {
    forall i | 0 <= i < |s| ensures 0 < Scale(k, s)[i] {
      Grows(k, s[i]);
    }
  }

  lemma {:induction false} ChangesScale(k: nat, s: seq<nat>, n: nat)
    requires 0 < k && n <= |s| && forall i :: 0 <= i < |s| ==> 0 < s[i]
    requires forall i :: 0 <= i < |s| ==> 0 < Scale(k, s)[i]
    ensures ChangesUpTo(Scale(k, s), n) == ChangesUpTo(s, n)
    decreases n
  {
    if 0 < n {
      ChangesScale(k, s, n - 1);
      ChangeScales(k, s[n - 1], Rotated(s)[n - 1]);
    }
  }

  lemma MedianScales(k: nat, s: seq<nat>, cut: nat)
    requires cut < |s|
    ensures MedianFrom(Scale(k, s), cut) == k * MedianFrom(s, cut)
  {
  }

  /** Scaling: expressing every reward in a unit `k` times smaller multiplies the estimate by `k`, as long
      as the scaled rewards still fit 256-bit arithmetic. */
  lemma EstimateScales(k: nat, rewards: seq<seq<nat>>)
    requires 0 < k && Estimate(ScaleAll(k, rewards)).Fee?
    ensures Estimate(rewards).Fee? && Estimate(ScaleAll(k, rewards)).value == k * Estimate(rewards).value
  {
    var scaled := ScaleAll(k, rewards);
    ReportedScales(k, rewards);
    PositiveScales(k, rewards);
    var ps := Positive(rewards);
    SortScales(k, ps);
    SortKeepsPositive(ps);
    SortKeepsPositive(Positive(scaled));
    var s := Sort(ps);
    if 2 <= |s| {
      ScaledStepsFit(k, s);
      ScaledPositive(k, s);
      ChangesScale(k, s, |s| - 1);
      MedianScales(k, s, CutAt(|s|, Changes(s)));
    }
  }

  /** If the scaled steps fit, so do the original ones. */
  lemma ScaledStepsFit(k: nat, s: seq<nat>)
    requires 0 < k && s != [] && StepsFit(Scale(k, s))
    ensures StepsFit(s)
  {
    var t := Scale(k, s);
    forall i | 0 <= i < |s| ensures ChangeFits(s[i], Rotated(s)[i]) {
      var a, b := s[i], Rotated(s)[i];
      assert Rotated(t)[i] == k * b;
      ScaledChangeFits(k, a, b);
    }
  }

  lemma ScaledChangeFits(k: nat, a: nat, b: nat)
    requires 0 < k && ChangeFits(k * a, k * b)
    ensures ChangeFits(a, b)
  {
    assert (k * b - k * a) * 100 == k * ((b - a) * 100);
    Shrinks(k, a);
    Shrinks(k, b);
    Shrinks(k, (b - a) * 100);
  }

  lemma Shrinks(k: nat, x: int)
    requires 0 < k
    ensures 0 <= x ==> x <= k * x
    ensures x < 0 ==> k * x <= x
  {
    if 0 <= x {
      assert 0 <= (k - 1) * x;
    } else {
      assert 0 <= (k - 1) * -x;
    }
  }

  // ---------------------------------------------------------------- the fee cap

  /** What the base fee may have become by the time the transaction is mined; `Overflow` when the
      product does not fit 256 bits. */
  function BaseFeeSurged(base: nat): Outcome {
    var product, divisor :=
      if base <= 40_000_000_000 then base * 2 else if base <= 100_000_000_000 then base * 16
      else if base <= 200_000_000_000 then base * 14 else base * 12,
      if base <= 40_000_000_000 then 1 else 10;
    if U256_LIMIT <= product then Overflow else Fee(product / divisor)
  }

  datatype Premium = Premium(priorityFee: nat, maxFee: nat) | NoPremium(why: Outcome)

  function PremiumEstimation(base: nat, rewards: seq<seq<nat>>): Premium {
    match (Estimate(rewards), BaseFeeSurged(base))
    case (Fee(priority), Fee(potential)) =>
      if priority <= potential then Premium(priority, potential)
      else if priority + potential < U256_LIMIT then Premium(priority, priority + potential)
      else NoPremium(Overflow)
    case (Fee(_), failure) => NoPremium(failure)
    case (failure, _) => NoPremium(failure)
  }

  /** The factor, in tenths, applied to a base fee. */
  function SurgeTenths(base: nat): nat {
    if base <= 40_000_000_000 then 20 else if base <= 100_000_000_000 then 16 else if base <= 200_000_000_000 then 14 else 12
  }

  /** The surged fee is the greatest whole number not above its tier's share of the base fee; so in every
      tier it at least keeps the base fee and at most doubles it. It fails only for base fees whose
      twelvefold does not fit 256 bits. */
  lemma SurgeBounds(base: nat)
    ensures BaseFeeSurged(base).Fee? <==> base * 12 < U256_LIMIT
    ensures BaseFeeSurged(base).Fee? ==>
              var surged := BaseFeeSurged(base).value;
              && surged * 10 <= base * SurgeTenths(base) < surged * 10 + 10
              && base <= surged <= 2 * base
  {
  }

  /** No lower base fee surges higher. */
  ghost predicate SurgesHighest(base: nat)
    requires BaseFeeSurged(base).Fee?
  {
    forall a: nat :: a <= base ==> BaseFeeSurged(a).Fee? && BaseFeeSurged(a).value <= BaseFeeSurged(base).value
  }

  /** The surge is not monotone. A base fee surges at least as high as every lower one exactly up to the first
      tier boundary and from the point of each later tier where its factor has made up for the drop. */
  lemma SurgeMonotoneExactly(base: nat)
    requires BaseFeeSurged(base).Fee?
    ensures SurgesHighest(base) <==>
            || base <= 40_000_000_000 || 50_000_000_000 <= base <= 100_000_000_000
            || 114_285_714_286 <= base <= 200_000_000_000 || 233_333_333_334 <= base
  {
    if 40_000_000_000 < base < 50_000_000_000 {
      assert BaseFeeSurged(40_000_000_000).value > BaseFeeSurged(base).value;
    } else if 100_000_000_000 < base < 114_285_714_286 {
      assert BaseFeeSurged(100_000_000_000).value > BaseFeeSurged(base).value;
    } else if 200_000_000_000 < base < 233_333_333_334 {
      assert BaseFeeSurged(200_000_000_000).value > BaseFeeSurged(base).value;
    }
  }

  /** In particular one unit above the first boundary it is lower than at the boundary. */
  lemma SurgeDropsAtBoundary()
    ensures BaseFeeSurged(40_000_000_001).Fee? && BaseFeeSurged(40_000_000_000).Fee?
    ensures BaseFeeSurged(40_000_000_001).value < BaseFeeSurged(40_000_000_000).value
  {
  }

  /** The cap is the surged base fee, with the priority fee on top exactly when that alone would exceed it. It
      exists whenever there is an estimate and neither the surge nor the sum overflows. */
  lemma CapExactly(base: nat, rewards: seq<seq<nat>>, priority: nat, surged: nat)
    requires Estimate(rewards) == Fee(priority) && BaseFeeSurged(base) == Fee(surged)
    ensures var cap := if surged < priority then surged + priority else surged;
            && (PremiumEstimation(base, rewards).Premium? <==> cap == surged || cap < U256_LIMIT)
            && (PremiumEstimation(base, rewards).Premium? ==> PremiumEstimation(base, rewards) == Premium(priority, cap))
  {
  }

  /** Without an estimate or a surged base fee there is no cap either. */
  lemma NoCapWithoutParts(base: nat, rewards: seq<seq<nat>>)
    ensures !Estimate(rewards).Fee? || U256_LIMIT <= base * 12 ==> PremiumEstimation(base, rewards).NoPremium?
  {
    SurgeBounds(base);
  }

  /** The cap covers the priority fee, as a valid EIP-1559 transaction must, and the base fee, and is at
      most twice the greater of the two (for the priority fee) or twice the base fee. */
  lemma CapBounds(base: nat, rewards: seq<seq<nat>>)
    requires PremiumEstimation(base, rewards).Premium?
    ensures var Premium(priority, cap) := PremiumEstimation(base, rewards);
            && Estimate(rewards) == Fee(priority)
            && priority <= cap && base <= cap
            && (cap <= 2 * priority || cap <= 2 * base)
  {
    SurgeBounds(base);
    CapExactly(base, rewards, Estimate(rewards).value, BaseFeeSurged(base).value);
  }
}
