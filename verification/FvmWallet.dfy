/** The FVM wallet: a cache of keys over a key store, with a default kept under its own name. */
module FvmWallet {
  import opened Bytes
  import opened Wrappers
  import opened Subnets
  import K = FvmKeyStore

  datatype Key = Key(keyInfo: K.KeyInfo, publicKey: seq<Byte>, address: Address)

  /** Public keys and addresses of private keys, and address text. */
  datatype Scheme = Scheme(
    publicKey: K.KeyInfo -> Option<seq<Byte>>,
    address: (K.SignatureType, seq<Byte>) -> Option<Address>,
    show: Address -> string
  ) {
    function KeyOf(info: K.KeyInfo): (k: Option<Key>)
      ensures k.Some? ==> k.value.keyInfo == info
    {
      match publicKey(info)
      case None => None
      case Some(public) =>
        match address(info.keyType, public)
        case None => None
        case Some(a) => Some(Key(info, public, a))
    }

    /** Different private keys have different addresses. Address text starts with a network letter, and
        what follows it tells addresses apart. */
    ghost predicate Sane() {
      && (forall i, j :: KeyOf(i).Some? && KeyOf(j).Some? && KeyOf(i).value.address == KeyOf(j).value.address ==> i == j)
      && (forall a :: show(a) != [] && (show(a)[0] == 'f' || show(a)[0] == 't'))
      && (forall a, b :: show(a)[1..] == show(b)[1..] ==> a == b)
    }

    function WalletName(a: Address): string {
      "wallet-" + show(a)
    }

    /** The name the same key has in a store written with the testnet letter. */
    function TestnetName(a: Address): string {
      if show(a) == [] then [] else "wallet-t" + show(a)[1..]
    }
  }

  const DEFAULT := "default"

  /** The stateless lookup: the address as it prints, then with the testnet letter. */
  function LookupInfo(sc: Scheme, store: K.Keys, a: Address): Option<K.KeyInfo> {
    if sc.WalletName(a) in store then Some(store[sc.WalletName(a)])
    else if sc.TestnetName(a) in store then Some(store[sc.TestnetName(a)])
    else None
  }

  function Lookup(sc: Scheme, store: K.Keys, a: Address): Option<Key> {
    match LookupInfo(sc, store, a)
    case None => None
    case Some(info) => sc.KeyOf(info)
  }

  datatype State = State(keys: map<Address, Key>, store: K.Keys)

  /** A call, with the outcome of every write it may make: `saves` of the last one, `forgets` of the one that
      removes the old default, `adds` of the one that adds a new key before a default is set. `GenerateAddr`
      is given the private key that random generation came up with. */
  datatype Op =
    | FindKey(a: Address)
    | Import(info: K.KeyInfo, saves: bool)
    | SetDefault(a: Address, forgets: bool, saves: bool)
    | GetDefault
    | GenerateAddr(info: K.KeyInfo, adds: bool, saves: bool)
    | Remove(a: Address, saves: bool)

  /** `Unsaved`: the key store changed in memory but could not be written. */
  datatype Answer = Found(key: Key) | Addr(address: Address) | Unit | Failure | Unsaved

  /** What each call does. The key store changes in memory before it is written, and nothing is undone when
      a write fails. */
  function Apply(sc: Scheme, s: State, op: Op): (State, Answer) {
    match op
    case FindKey(a) =>
      if a in s.keys then (s, Found(s.keys[a]))
      else
        (match Lookup(sc, s.store, a)
         case None => (s, Failure)
         case Some(k) => (s.(keys := s.keys[a := k]), Found(k)))
    case Import(info, saves) =>
      (match sc.KeyOf(info)
       case None => (s, Failure)
       case Some(k) =>
         if sc.WalletName(k.address) in s.store then (s, Failure)
         else (s.(store := s.store[sc.WalletName(k.address) := info]), if saves then Addr(k.address) else Unsaved))
    case SetDefault(a, forgets, saves) =>
      if sc.WalletName(a) !in s.store then (s, Failure)
      else if DEFAULT in s.store && !forgets then (s.(store := s.store - {DEFAULT}), Unsaved)
      else (s.(store := s.store[DEFAULT := s.store[sc.WalletName(a)]]), if saves then Unit else Unsaved)
    case GetDefault =>
      if DEFAULT !in s.store then (s, Failure)
      else
        (match sc.KeyOf(s.store[DEFAULT])
         case None => (s, Failure)
         case Some(k) => (s, Addr(k.address)))
    case GenerateAddr(info, adds, saves) =>
      (match sc.KeyOf(info)
       case None => (s, Failure)
       case Some(k) =>
         if sc.WalletName(k.address) in s.store then (s, Failure)
         else
           var store := s.store[sc.WalletName(k.address) := info];
           if !adds then (s.(store := store), Unsaved)
           else if DEFAULT in store then (State(s.keys[k.address := k], store), Addr(k.address))
           else (State(s.keys[k.address := k], store[DEFAULT := info]), if saves then Addr(k.address) else Unsaved))
    case Remove(a, saves) =>
      if sc.show(a) in s.store then (s.(store := s.store - {sc.show(a)}), if saves then Unit else Unsaved)
      else (s, Failure)
  }

  // ---------------------------------------------------------------- names

  /** No two kinds of names collide. */
  lemma NamesApart(sc: Scheme, a: Address, b: Address)
    requires sc.Sane()
    ensures sc.WalletName(a) == sc.WalletName(b) ==> a == b
    ensures sc.WalletName(a) == sc.TestnetName(b) ==> a == b
    ensures sc.WalletName(a) != DEFAULT && sc.TestnetName(a) != DEFAULT
    ensures "wallet-" <= sc.WalletName(a) && (sc.show(a)[0] == 't' ==> sc.TestnetName(a) == sc.WalletName(a))
    ensures sc.show(a) != DEFAULT && sc.show(a) != sc.WalletName(b) && sc.show(a) != sc.TestnetName(b)
  {
    assert sc.show(a)[0] == 't' ==> sc.show(a) == "t" + sc.show(a)[1..];
    assert sc.WalletName(a)[7..] == sc.show(a) && sc.WalletName(b)[7..] == sc.show(b);
    assert sc.TestnetName(b)[7..] == "t" + sc.show(b)[1..];
    assert sc.TestnetName(b)[8..] == sc.show(b)[1..] && sc.WalletName(a)[8..] == sc.show(a)[1..];
    assert sc.WalletName(a)[0] == 'w' && sc.TestnetName(a)[0] == 'w' && DEFAULT[0] == 'd';
    assert sc.WalletName(b)[0] == 'w' && sc.TestnetName(b)[0] == 'w';
  }

  // ---------------------------------------------------------------- the cache refines the lookup

  /** Every entry that stands for an address holds the key of that address. */
  ghost predicate WellFormed(sc: Scheme, store: K.Keys) {
    forall a, info :: Holds(sc, store, a, info) ==> sc.KeyOf(info).Some? && sc.KeyOf(info).value.address == a
  }

  ghost predicate Holds(sc: Scheme, store: K.Keys, a: Address, info: K.KeyInfo) {
    || (sc.WalletName(a) in store && store[sc.WalletName(a)] == info)
    || (sc.TestnetName(a) in store && store[sc.TestnetName(a)] == info)
  }

  /** What is cached is what the lookup would find. */
  ghost predicate Inv(sc: Scheme, s: State) {
    && WellFormed(sc, s.store)
    && (forall a :: a in s.keys ==> Lookup(sc, s.store, a) == Some(s.keys[a]))
  }

  /** In a well-formed store the lookup finds the one key with that address. */
  lemma LookupFindsTheKey(sc: Scheme, store: K.Keys, a: Address, info: K.KeyInfo)
    requires sc.Sane() && WellFormed(sc, store) && Holds(sc, store, a, info)
    ensures Lookup(sc, store, a) == sc.KeyOf(info) && Lookup(sc, store, a).Some?
    ensures Lookup(sc, store, a).value.address == a
  {
    var found := LookupInfo(sc, store, a).value;
    assert Holds(sc, store, a, found);
  }

  /** Storing a key under its own name keeps the store well-formed and every earlier lookup. */
  lemma AddKeepsLookups(sc: Scheme, store: K.Keys, k: Key)
    requires sc.Sane() && WellFormed(sc, store) && sc.KeyOf(k.keyInfo) == Some(k)
    requires sc.WalletName(k.address) !in store
    ensures var store' := store[sc.WalletName(k.address) := k.keyInfo];
            && WellFormed(sc, store')
            && Lookup(sc, store', k.address) == Some(k)
            && (forall a :: Lookup(sc, store, a).Some? ==> Lookup(sc, store', a) == Lookup(sc, store, a))
  {
    var store' := store[sc.WalletName(k.address) := k.keyInfo];
    forall a, info | Holds(sc, store', a, info) ensures sc.KeyOf(info).Some? && sc.KeyOf(info).value.address == a {
      NamesApart(sc, k.address, a);
      NamesApart(sc, a, k.address);
      assert Holds(sc, store, a, info) || (a == k.address && info == k.keyInfo);
    }
    forall a | Lookup(sc, store, a).Some? ensures Lookup(sc, store', a) == Lookup(sc, store, a) {
      NamesApart(sc, k.address, a);
      NamesApart(sc, a, k.address);
      var info := LookupInfo(sc, store, a).value;
      assert Holds(sc, store, a, info);
      assert Holds(sc, store', a, info);
      LookupFindsTheKey(sc, store', a, info);
    }
  }

  /** Nor is the bare text of an address, which is what `remove` deletes. */
  lemma RemoveKeepsLookups(sc: Scheme, store: K.Keys, gone: Address, a: Address)
    requires sc.Sane()
    ensures LookupInfo(sc, store - {sc.show(gone)}, a) == LookupInfo(sc, store, a)
    ensures forall i :: Holds(sc, store - {sc.show(gone)}, a, i) <==> Holds(sc, store, a, i)
    ensures DEFAULT in store ==> DEFAULT in store - {sc.show(gone)}
  {
  }

  /** The two stores answer every lookup alike. */
  ghost predicate SameLookups(sc: Scheme, store: K.Keys, store': K.Keys) {
    && (forall a :: LookupInfo(sc, store', a) == LookupInfo(sc, store, a))
    && (forall a, i :: Holds(sc, store', a, i) <==> Holds(sc, store, a, i))
  }

  lemma SameLookupsKeepInv(sc: Scheme, s: State, store': K.Keys)
    requires Inv(sc, s) && SameLookups(sc, s.store, store')
    ensures Inv(sc, s.(store := store'))
  {
  }

  lemma DefaultIsNoAddress(sc: Scheme, store: K.Keys, info: K.KeyInfo)
    requires sc.Sane()
    ensures SameLookups(sc, store, store[DEFAULT := info])
  {
  }

  lemma DefaultIsForgotten(sc: Scheme, s: State)
    requires sc.Sane() && Inv(sc, s)
    ensures Inv(sc, s.(store := s.store - {DEFAULT}))
  {
    forall a { NamesApart(sc, a, a); }
    SameLookupsKeepInv(sc, s, s.store - {DEFAULT});
  }

  lemma CallKeepsInv(sc: Scheme, s: State, op: Op)
    requires sc.Sane() && Inv(sc, s)
    ensures Inv(sc, Apply(sc, s, op).0)
  {
    var s' := Apply(sc, s, op).0;
    match op
    case FindKey(_) =>
    case GetDefault =>
    case Import(info, _) =>
      if s' != s {
        AddKeepsLookups(sc, s.store, sc.KeyOf(info).value);
      }
    case GenerateAddr(info, _, _) =>
      if s' != s {
        var k := sc.KeyOf(info).value;
        AddKeepsLookups(sc, s.store, k);
        var added := State(s.keys[k.address := k], s.store[sc.WalletName(k.address) := info]);
        assert Inv(sc, added);
        DefaultIsNoAddress(sc, added.store, info);
        SameLookupsKeepInv(sc, added, s'.store);
      }
    case SetDefault(a, _, _) =>
      DefaultIsForgotten(sc, s);
      if s' != s && DEFAULT in s'.store {
        DefaultIsNoAddress(sc, s.store, s.store[sc.WalletName(a)]);
        SameLookupsKeepInv(sc, s, s'.store);
      }
    case Remove(a, _) =>
      forall b { RemoveKeepsLookups(sc, s.store, a, b); }
      SameLookupsKeepInv(sc, s, s.store - {sc.show(a)});
  }

  function After(sc: Scheme, store: K.Keys, ops: seq<Op>): State {
    if ops == [] then State(map[], store) else Apply(sc, After(sc, store, ops[..|ops| - 1]), ops[|ops| - 1]).0
  }

  lemma {:induction false} RunKeepsInv(sc: Scheme, store: K.Keys, ops: seq<Op>)
    requires sc.Sane() && WellFormed(sc, store)
    ensures Inv(sc, After(sc, store, ops))
    decreases |ops|
  {
    if ops != [] {
      RunKeepsInv(sc, store, ops[..|ops| - 1]);
      CallKeepsInv(sc, After(sc, store, ops[..|ops| - 1]), ops[|ops| - 1]);
    }
  }

  /** The cache is invisible: after any sequence of calls on a new wallet, looking a key up through the
      cache gives what the two-step lookup in the store gives, and it is the key of that address. */
  lemma FindKeyRefinesLookup(sc: Scheme, store: K.Keys, ops: seq<Op>, a: Address)
    requires sc.Sane() && WellFormed(sc, store)
    ensures var s := After(sc, store, ops);
            var found := Lookup(sc, s.store, a);
            && Apply(sc, s, FindKey(a)).1 == (if found.Some? then Found(found.value) else Failure)
            && (found.Some? ==> found.value.address == a)
  {
    RunKeepsInv(sc, store, ops);
    var s := After(sc, store, ops);
    if Lookup(sc, s.store, a).Some? {
      LookupFindsTheKey(sc, s.store, a, LookupInfo(sc, s.store, a).value);
    }
  }

  /** A key that was looked up is answered from the cache from then on, and looking up changes nothing else. */
  lemma FindKeyCaches(sc: Scheme, s: State, a: Address, k: Key)
    requires Apply(sc, s, FindKey(a)).1 == Found(k)
    ensures Apply(sc, s, FindKey(a)).0 == s.(keys := s.keys[a := k])
    ensures Apply(sc, Apply(sc, s, FindKey(a)).0.(store := map[]), FindKey(a)).1 == Found(k)
  {
    assert a in s.keys ==> s.keys[a := s.keys[a]] == s.keys;
  }

  /** A generated key can be found under its address, and is the default if there was none before. */
  lemma GenerateTakesEffect(sc: Scheme, s: State, info: K.KeyInfo, adds: bool, saves: bool, a: Address)
    requires sc.Sane() && Inv(sc, s) && Apply(sc, s, GenerateAddr(info, adds, saves)).1 == Addr(a)
    ensures var s' := Apply(sc, s, GenerateAddr(info, adds, saves)).0;
            && sc.KeyOf(info).Some? && sc.KeyOf(info).value.address == a
            && Lookup(sc, s'.store, a) == sc.KeyOf(info)
            && Apply(sc, s', FindKey(a)).1 == Found(sc.KeyOf(info).value)
            && DEFAULT in s'.store
            && (DEFAULT !in s.store ==> Apply(sc, s', GetDefault).1 == Addr(a))
            && (DEFAULT in s.store ==> Apply(sc, s', GetDefault).1 == Apply(sc, s, GetDefault).1)
  {
    NamesApart(sc, a, a);
  }

  /** An imported key can be found under its address; whether there is a default, and which, is as before. */
  lemma ImportTakesEffect(sc: Scheme, s: State, info: K.KeyInfo, saves: bool, a: Address)
    requires sc.Sane() && Inv(sc, s) && Apply(sc, s, Import(info, saves)).1 == Addr(a)
    ensures var s' := Apply(sc, s, Import(info, saves)).0;
            && sc.KeyOf(info).Some? && sc.KeyOf(info).value.address == a
            && Lookup(sc, s'.store, a) == sc.KeyOf(info)
            && Apply(sc, s', FindKey(a)).1 == Found(sc.KeyOf(info).value)
            && Apply(sc, s', GetDefault).1 == Apply(sc, s, GetDefault).1
  {
    NamesApart(sc, a, a);
    if a in s.keys {
      SameAddressSameKey(sc, s, info, a);
    }
  }

  /** What the cache holds for an address is its one key. */
  lemma SameAddressSameKey(sc: Scheme, s: State, info: K.KeyInfo, a: Address)
    requires sc.Sane() && Inv(sc, s) && a in s.keys && sc.KeyOf(info).Some? && sc.KeyOf(info).value.address == a
    ensures s.keys[a] == sc.KeyOf(info).value
  {
    var found := LookupInfo(sc, s.store, a).value;
    assert Holds(sc, s.store, a, found);
  }

  /** No private key is stored for the address the new one would be stored under. */
  predicate Addable(sc: Scheme, s: State, info: K.KeyInfo) {
    sc.KeyOf(info).Some? && sc.WalletName(sc.KeyOf(info).value.address) !in s.store
  }

  /** When calls are refused, and when they succeed. */
  lemma AnswersExactly(sc: Scheme, s: State, op: Op)
    requires sc.Sane() && Inv(sc, s)
    ensures var r := Apply(sc, s, op).1;
            && (r == Failure <==>
                  match op
                  case FindKey(a) => Lookup(sc, s.store, a).None?
                  case Import(info, _) => !Addable(sc, s, info)
                  case GenerateAddr(info, _, _) => !Addable(sc, s, info)
                  case SetDefault(a, _, _) => sc.WalletName(a) !in s.store
                  case GetDefault => DEFAULT !in s.store || sc.KeyOf(s.store[DEFAULT]).None?
                  case Remove(a, _) => sc.show(a) !in s.store)
            && (r == Unsaved <==>
                  r != Failure &&
                  match op
                  case FindKey(_) => false
                  case GetDefault => false
                  case Import(_, saves) => !saves
                  case Remove(_, saves) => !saves
                  case SetDefault(_, forgets, saves) => !saves || (DEFAULT in s.store && !forgets)
                  case GenerateAddr(_, adds, saves) => !adds || (DEFAULT !in s.store && !saves))
  {
    if op.GenerateAddr? && sc.KeyOf(op.info).Some? {
      NamesApart(sc, sc.KeyOf(op.info).value.address, sc.KeyOf(op.info).value.address);
    }
  }

  /** The entries a call may add, change or delete. */
  ghost predicate IsAbout(sc: Scheme, op: Op, name: string) {
    match op
    case FindKey(_) => false
    case GetDefault => false
    case Import(info, _) => sc.KeyOf(info).Some? && name == sc.WalletName(sc.KeyOf(info).value.address)
    case GenerateAddr(info, _, _) =>
      sc.KeyOf(info).Some? && (name == sc.WalletName(sc.KeyOf(info).value.address) || name == DEFAULT)
    case SetDefault(_, _, _) => name == DEFAULT
    case Remove(a, _) => name == sc.show(a)
  }

  /** Every other entry stays, and so does everything in the cache. */
  lemma OtherEntriesStay(sc: Scheme, s: State, op: Op, name: string, b: Address)
    requires sc.Sane() && Inv(sc, s) && !IsAbout(sc, op, name)
    ensures var s' := Apply(sc, s, op).0;
            && (name in s'.store <==> name in s.store) && (name in s.store ==> s'.store[name] == s.store[name])
            && (b in s.keys ==> b in s'.keys && s'.keys[b] == s.keys[b])
  {
    if op.GenerateAddr? && sc.KeyOf(op.info).Some? && sc.KeyOf(op.info).value.address in s.keys {
      SameAddressSameKey(sc, s, op.info, sc.KeyOf(op.info).value.address);
    }
  }

  /** A default that was set is the one returned, and setting it leaves every stored address alone. */
  lemma SetDefaultTakesEffect(sc: Scheme, s: State, a: Address, forgets: bool, saves: bool)
    requires sc.Sane() && Inv(sc, s) && Apply(sc, s, SetDefault(a, forgets, saves)).1 == Unit
    ensures var s' := Apply(sc, s, SetDefault(a, forgets, saves)).0;
            && Apply(sc, s', GetDefault).1 == Addr(a)
            && s'.store - {DEFAULT} == s.store - {DEFAULT} && s'.keys == s.keys
  {
    assert Holds(sc, s.store, a, s.store[sc.WalletName(a)]);
  }

  /** Once there is a default, no other call changes it. */
  lemma OnlySetDefaultChangesDefault(sc: Scheme, s: State, op: Op)
    requires sc.Sane() && DEFAULT in s.store && !op.SetDefault?
    ensures var s' := Apply(sc, s, op).0; DEFAULT in s'.store && s'.store[DEFAULT] == s.store[DEFAULT]
  {
  }

  /** Setting a default is not atomic: the old default is removed, and that is written, before the new one is
      put in its place. A call of any kind loses the default exactly when it sets one to a stored address and
      the first of its two writes fails. */
  lemma DefaultLostExactly(sc: Scheme, s: State, op: Op)
    requires sc.Sane() && DEFAULT in s.store
    ensures DEFAULT !in Apply(sc, s, op).0.store <==>
            op.SetDefault? && sc.WalletName(op.a) in s.store && !op.forgets
    ensures DEFAULT !in Apply(sc, s, op).0.store ==>
              && Apply(sc, s, op).1 == Unsaved
              && Apply(sc, Apply(sc, s, op).0, GetDefault).1 == Failure
  {
    if !op.SetDefault? {
      OnlySetDefaultChangesDefault(sc, s, op);
    }
  }

  /** `remove` forgets nothing. It deletes an entry named by the bare address text, while keys are stored
      under `wallet-`: it fails exactly when there is no bare entry, and whether it fails or not every
      key that could be found before it can be found after it, the removed one included. */
  lemma RemoveForgetsNothing(sc: Scheme, s: State, a: Address, saves: bool, b: Address)
    requires sc.Sane()
    ensures var (s', r) := Apply(sc, s, Remove(a, saves));
            && (r == Failure <==> sc.show(a) !in s.store)
            && s'.keys == s.keys
            && Lookup(sc, s'.store, b) == Lookup(sc, s.store, b)
            && (Lookup(sc, s'.store, a).None? <==> Lookup(sc, s.store, a).None?)
  {
  }

  // ---------------------------------------------------------------- the object

  class Wallet {
    const sc: Scheme
    const keystore: K.KeyStore
    var keys: map<Address, Key>

    ghost function View(): State
      reads this, keystore
    {
      State(keys, keystore.keyInfo)
    }

    ghost predicate Valid() {
      keystore.Valid()
    }

    constructor (sc: Scheme, keystore: K.KeyStore)
      ensures this.sc == sc && this.keystore == keystore && keys == map[]
    {
      this.sc, this.keystore, this.keys := sc, keystore, map[];
    }

    method FindKey(a: Address) returns (r: Answer)
      requires Valid() && sc.Sane()
      modifies this
      ensures (View(), r) == Apply(sc, old(View()), Op.FindKey(a))
    {
      if a in keys {
        return Found(keys[a]);
      }
      var info := keystore.Get("wallet-" + sc.show(a));
      if info.Err? {
        info := keystore.Get("wallet-t" + sc.show(a)[1..]);
        if info.Err? {
          return Failure;
        }
      }
      var key := sc.KeyOf(info.value);
      if key.None? {
        return Failure;
      }
      keys := keys[a := key.value];
      r := Found(key.value);
    }

    method Import(info: K.KeyInfo, w: K.Write) returns (r: Answer)
      requires Valid()
      modifies keystore`keyInfo, keystore`file
      ensures (View(), r) == Apply(sc, old(View()), Op.Import(info, keystore.Saves(w)))
      ensures r.Addr? ==> keystore.Saved()
    {
      var key := sc.KeyOf(info);
      if key.None? {
        return Failure;
      }
      var put := keystore.Put("wallet-" + sc.show(key.value.address), key.value.keyInfo, w);
      if put == Err(K.Other) {
        return Unsaved;
      }
      r := if put.Ok? then Addr(key.value.address) else Failure;
    }

    method Remove(a: Address, w: K.Write) returns (r: Answer)
      requires Valid()
      modifies keystore`keyInfo, keystore`file
      ensures (View(), r) == Apply(sc, old(View()), Op.Remove(a, keystore.Saves(w)))
      ensures r.Unit? ==> keystore.Saved()
    {
      var removed := keystore.Remove(sc.show(a), w);
      assert sc.show(a) !in old(keystore.keyInfo) ==> keystore.keyInfo == old(keystore.keyInfo);
      if removed == Err(K.Other) {
        return Unsaved;
      }
      r := if removed.Ok? then Unit else Failure;
    }

    method GetDefault() returns (r: Answer)
      requires Valid()
      ensures (View(), r) == Apply(sc, View(), Op.GetDefault)
    {
      var info := keystore.Get(DEFAULT);
      if info.Err? {
        return Failure;
      }
      var key := sc.KeyOf(info.value);
      r := if key.Some? then Addr(key.value.address) else Failure;
    }

    /** `forget` is the write that removes the old default, if there is one, `put` the one that adds the new. */
    method SetDefault(a: Address, forget: K.Write, put: K.Write) returns (r: Answer)
      requires Valid() && sc.Sane()
      modifies keystore`keyInfo, keystore`file
      ensures (View(), r) == Apply(sc, old(View()), Op.SetDefault(a, keystore.Saves(forget), keystore.Saves(put)))
      ensures r.Unit? ==> keystore.Saved()
    {
      NamesApart(sc, a, a);
      ghost var before := keystore.keyInfo;
      var info := keystore.Get("wallet-" + sc.show(a));
      if info.Err? {
        return Failure;
      }
      var current := keystore.Get(DEFAULT);
      if current.Ok? {
        var removed := keystore.Remove(DEFAULT, forget);
        if removed.Err? {
          return Unsaved;
        }
      }
      var done := keystore.Put(DEFAULT, info.value, put);
      assert keystore.keyInfo == before[DEFAULT := info.value];
      r := if done.Ok? then Unit else Unsaved;
    }

    /** `add` is the write of the new key, `put` the one that makes it the default, if there is none. */
    method GenerateAddr(info: K.KeyInfo, add: K.Write, put: K.Write) returns (r: Answer)
      requires Valid() && sc.Sane()
      modifies this, keystore`keyInfo, keystore`file
      ensures (View(), r) == Apply(sc, old(View()), Op.GenerateAddr(info, keystore.Saves(add), keystore.Saves(put)))
      ensures r.Addr? ==> keystore.Saved()
    {
      var key := sc.KeyOf(info);
      if key.None? {
        return Failure;
      }
      NamesApart(sc, key.value.address, key.value.address);
      var added := keystore.Put("wallet-" + sc.show(key.value.address), key.value.keyInfo, add);
      if added.Err? {
        return if added.error == K.Other then Unsaved else Failure;
      }
      keys := keys[key.value.address := key.value];
      var current := keystore.Get(DEFAULT);
      if current.Err? {
        var done := keystore.Put(DEFAULT, key.value.keyInfo, put);
        if done.Err? {
          return Unsaved;
        }
      }
      r := Addr(key.value.address);
    }
  }

  /** The loss happens: in any wallet on disk with a default and another key, one failed write is enough. */
  method OneFailedWriteLosesDefault(sc: Scheme, cs: K.Codecs, current: K.KeyInfo, a: Address, info: K.KeyInfo,
                                    left: K.File, nonce: K.Nonce)
    returns (before: Answer, changed: Answer, after: Answer)
    requires sc.Sane() && cs.Faithful() && sc.KeyOf(current).Some?
    ensures before == Addr(sc.KeyOf(current).value.address) && changed == Unsaved && after == Failure
  {
    NamesApart(sc, a, a);
    var store := new K.KeyStore(cs, K.Persistent, map[DEFAULT := current, sc.WalletName(a) := info], K.Absent);
    var wallet := new Wallet(sc, store);
    before := wallet.GetDefault();
    changed := wallet.SetDefault(a, K.Fails(left), K.Completes(nonce));
    after := wallet.GetDefault();
  }
}
