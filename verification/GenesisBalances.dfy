/** The genesis balance map built from two parallel lists read from a contract. */
module GenesisBalances {
  import opened Wrappers
  import opened Subnets
  import opened Conversions

  type Balances = map<Address, int>

  /** Pairs up to the length of the shorter list; a later pair for the same address replaces an earlier one. */
  function BalanceMap(lib: Library, addrs: seq<Bytes20>, balances: seq<U256>, n: nat): Conv<Balances>
    requires n <= |addrs| && n <= |balances|
  {
    if n == 0 then Done(map[])
    else
      var m :- BalanceMap(lib, addrs, balances, n - 1);
      var a :- EthToFil(lib, addrs[n - 1]);
      var v :- EthToFilAmount(balances[n - 1]);
      Done(m[a := v])
  }

  lemma BalanceStep(lib: Library, addrs: seq<Bytes20>, balances: seq<U256>, n: nat)
    requires 0 < n <= |addrs| && n <= |balances| && BalanceMap(lib, addrs, balances, n).Done?
    ensures BalanceMap(lib, addrs, balances, n - 1).Done? && lib.ethToFil(addrs[n - 1]).Some?
    ensures BalanceMap(lib, addrs, balances, n).value
            == BalanceMap(lib, addrs, balances, n - 1).value[lib.ethToFil(addrs[n - 1]).value := balances[n - 1]]
  {
    AmountSurvives(balances[n - 1]);
  }

  /** The length of the shorter list. */
  function PairCount(addrs: seq<Bytes20>, balances: seq<U256>): (n: nat)
    ensures n <= |addrs| && n <= |balances| && (n == |addrs| || n == |balances|)
  {
    if |addrs| <= |balances| then |addrs| else |balances|
  }

  method IntoGenesisBalanceMap(lib: Library, addrs: seq<Bytes20>, balances: seq<U256>) returns (r: Conv<Balances>)
    ensures r == BalanceMap(lib, addrs, balances, PairCount(addrs, balances))
  {
    var m: Balances := map[];
    var n := PairCount(addrs, balances);
    var i := 0;
    while i < n
      invariant 0 <= i <= n && BalanceMap(lib, addrs, balances, i) == Done(m)
    {
      var a := EthToFil(lib, addrs[i]);
      var v := EthToFilAmount(balances[i]);
      if a.IsFailure() || v.IsFailure() {
        AmountSurvives(balances[i]);
        FailureSticks(lib, addrs, balances, i + 1, n);
        return a.PropagateFailure();
      }
      m := m[a.value := v.value];
      i := i + 1;
    }
    r := Done(m);
  }

  lemma {:induction false} FailureSticks(lib: Library, addrs: seq<Bytes20>, balances: seq<U256>, k: nat, n: nat)
    requires k <= n <= |addrs| && n <= |balances| && BalanceMap(lib, addrs, balances, k).IsFailure()
    ensures BalanceMap(lib, addrs, balances, n) == BalanceMap(lib, addrs, balances, k)
    decreases n - k
  {
    if k < n {
      FailureSticks(lib, addrs, balances, k, n - 1);
    }
  }

  /** The map is built exactly if every paired address converts; the first one that does not is an error. */
  lemma {:induction false} BuiltExactly(lib: Library, addrs: seq<Bytes20>, balances: seq<U256>, n: nat)
    requires n <= |addrs| && n <= |balances|
    ensures BalanceMap(lib, addrs, balances, n).Done? <==> forall i :: 0 <= i < n ==> lib.ethToFil(addrs[i]).Some?
    ensures !BalanceMap(lib, addrs, balances, n).Panic?
    decreases n
  {
    if 0 < n {
      BuiltExactly(lib, addrs, balances, n - 1);
      PairConverts(lib, addrs, balances, n);
    }
  }

  lemma PairConverts(lib: Library, addrs: seq<Bytes20>, balances: seq<U256>, n: nat)
    requires 0 < n <= |addrs| && n <= |balances|
    ensures BalanceMap(lib, addrs, balances, n).Done? <==>
            BalanceMap(lib, addrs, balances, n - 1).Done? && lib.ethToFil(addrs[n - 1]).Some?
    ensures BalanceMap(lib, addrs, balances, n).Panic? ==> BalanceMap(lib, addrs, balances, n - 1).Panic?
  {
    AmountSurvives(balances[n - 1]);
  }

  /** Each address in the map has the balance of its last pair, and every paired address is in the map. */
  lemma {:induction false} LastPairWins(lib: Library, addrs: seq<Bytes20>, balances: seq<U256>, n: nat, i: nat)
    requires i < n <= |addrs| && n <= |balances| && BalanceMap(lib, addrs, balances, n).Done?
    requires forall j :: i < j < n ==> lib.ethToFil(addrs[j]) != lib.ethToFil(addrs[i])
    ensures lib.ethToFil(addrs[i]).Some?
    ensures var m, a := BalanceMap(lib, addrs, balances, n).value, lib.ethToFil(addrs[i]).value;
            a in m && m[a] == balances[i]
    decreases n
  {
    BalanceStep(lib, addrs, balances, n);
    if i < n - 1 {
      LastPairWins(lib, addrs, balances, n - 1, i);
    }
  }

  // ---------------------------------------------------------------- conservation

  ghost function SumMap(m: Balances): int {
    if m == map[] then 0
    else
      var a :| a in m;
      m[a] + SumMap(m - {a})
  }

  function SumFirst(balances: seq<U256>, n: nat): int
    requires n <= |balances|
  {
    if n == 0 then 0 else SumFirst(balances, n - 1) + balances[n - 1]
  }

  /** The sum does not depend on which entry is counted first. */
  lemma {:induction false} SumMapMinus(m: Balances, a: Address)
    requires a in m
    ensures SumMap(m) == m[a] + SumMap(m - {a})
    decreases |m|
  {
    var b :| b in m && SumMap(m) == m[b] + SumMap(m - {b});
    if a != b {
      SumMapMinus(m - {b}, a);
      SumMapMinus(m - {a}, b);
      assert m - {a} - {b} == m - {b} - {a};
    }
  }

  lemma SumMapPlus(m: Balances, a: Address, v: int)
    requires a !in m
    ensures SumMap(m[a := v]) == SumMap(m) + v
  {
    SumMapMinus(m[a := v], a);
    assert m[a := v] - {a} == m;
  }

  /** No two paired addresses convert to the same address. */
  ghost predicate DistinctTargets(lib: Library, addrs: seq<Bytes20>, n: nat)
    requires n <= |addrs|
  {
    forall i, j :: 0 <= i < j < n ==> lib.ethToFil(addrs[i]) != lib.ethToFil(addrs[j])
  }

  lemma {:induction false} MapHoldsOnlyPairs(lib: Library, addrs: seq<Bytes20>, balances: seq<U256>, n: nat, a: Address)
    requires n <= |addrs| && n <= |balances| && BalanceMap(lib, addrs, balances, n).Done?
    requires a in BalanceMap(lib, addrs, balances, n).value
    ensures exists i :: 0 <= i < n && lib.ethToFil(addrs[i]) == Some(a)
    decreases n
  {
    BalanceStep(lib, addrs, balances, n);
    if lib.ethToFil(addrs[n - 1]) != Some(a) {
      MapHoldsOnlyPairs(lib, addrs, balances, n - 1, a);
    }
  }

  lemma NotPairedBefore(lib: Library, addrs: seq<Bytes20>, balances: seq<U256>, n: nat)
    requires 0 < n <= |addrs| && n <= |balances| && BalanceMap(lib, addrs, balances, n - 1).Done?
    requires lib.ethToFil(addrs[n - 1]).Some? && DistinctTargets(lib, addrs, n)
    ensures lib.ethToFil(addrs[n - 1]).value !in BalanceMap(lib, addrs, balances, n - 1).value
  {
    if lib.ethToFil(addrs[n - 1]).value in BalanceMap(lib, addrs, balances, n - 1).value {
      MapHoldsOnlyPairs(lib, addrs, balances, n - 1, lib.ethToFil(addrs[n - 1]).value);
    }
  }

  /** Conservation: with no address twice, the map holds exactly the total of the paired balances. */
  lemma {:induction false} BalancesConserved(lib: Library, addrs: seq<Bytes20>, balances: seq<U256>, n: nat)
    requires n <= |addrs| && n <= |balances| && BalanceMap(lib, addrs, balances, n).Done?
    requires DistinctTargets(lib, addrs, n)
    ensures SumMap(BalanceMap(lib, addrs, balances, n).value) == SumFirst(balances, n)
    decreases n
  {
    if 0 < n {
      BalanceStep(lib, addrs, balances, n);
      BalancesConserved(lib, addrs, balances, n - 1);
      var m, a := BalanceMap(lib, addrs, balances, n - 1).value, lib.ethToFil(addrs[n - 1]).value;
      NotPairedBefore(lib, addrs, balances, n);
      SumMapPlus(m, a, balances[n - 1]);
    }
  }
}
