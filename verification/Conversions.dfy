/** Conversions between contract types and SDK types, as the relayer uses them: what it fetches from the
    child gateway goes through the SDK types and is submitted to the parent.

    The address conversions of other libraries are parameters (`Library`); everything else is computed. */
module Conversions {
  import opened Bytes
  import opened Wrappers
  import opened Subnets
  import opened CrossNet
  import Decimal

  const TWO_32 := 0x1_0000_0000
  const TWO_63 := 0x8000_0000_0000_0000
  const TWO_64 := 0x1_0000_0000_0000_0000
  const TWO_256 := 0x1_0000_0000_0000_0000_0000_0000_0000_0000_0000_0000_0000_0000_0000_0000_0000_0000

  /** The namespace of addresses managed by the Ethereum address manager. */
  const EAM_NAMESPACE := 10

  type U64 = x: int | 0 <= x < TWO_64
  type I64 = x: int | -TWO_63 <= x < TWO_63
  type U256 = x: int | 0 <= x < TWO_256
  type Bytes4 = b: seq<Byte> | |b| == 4 witness [0, 0, 0, 0]
  type Bytes20 = b: seq<Byte> | |b| == 20 witness seq(20, i => 0)
  type Bytes32 = b: seq<Byte> | |b| == 32 witness seq(32, i => 0)

  // ---------------------------------------------------------------- types

  datatype EvmSubnetID = EvmSubnetID(root: U64, route: seq<Bytes20>)
  datatype FvmAddress = FvmAddress(addrType: Byte, payload: seq<Byte>)
  datatype EvmIpcAddress = EvmIpcAddress(subnetId: EvmSubnetID, rawAddress: FvmAddress)
  datatype EvmStorableMsg = EvmStorableMsg(
    from: EvmIpcAddress, to: EvmIpcAddress, value: U256, nonce: U64, selector: Bytes4, params: seq<Byte>, fee: U256)
  datatype EvmCrossMsg = EvmCrossMsg(message: EvmStorableMsg, wrapped: bool)
  datatype EvmCheckpoint = EvmCheckpoint(
    subnetId: EvmSubnetID, blockHeight: U64, blockHash: Bytes32, nextConfigurationNumber: U64, crossMessagesHash: Bytes32)
  datatype EvmBundle = EvmBundle(
    checkpoint: EvmCheckpoint, signatures: seq<seq<Byte>>, signatories: seq<Bytes20>, crossMsgs: seq<EvmCrossMsg>)

  datatype CrossMsg = CrossMsg(msg: StorableMsg, wrapped: bool)
  datatype Checkpoint = Checkpoint(
    subnetId: SubnetID, blockHeight: I64, blockHash: seq<Byte>, nextConfigurationNumber: U64, crossMessagesHash: seq<Byte>)
  datatype Bundle = Bundle(
    checkpoint: Checkpoint, signatures: seq<seq<Byte>>, signatories: seq<Address>, crossMsgs: seq<CrossMsg>)

  /** The outcome of a conversion; the members let `:-` stop at the first failure. */
  datatype Conv<+T> = Done(value: T) | Error | Panic {
    predicate IsFailure() {
      !Done?
    }

    function PropagateFailure<U>(): Conv<U>
      requires IsFailure()
    {
      if Error? then Error else Panic
    }

    function Extract(): T
      requires !IsFailure()
    {
      value
    }
  }

  function Try<T>(o: Option<T>): Conv<T> {
    if o.Some? then Done(o.value) else Error
  }

  /** Address conversions defined elsewhere. */
  datatype Library = Library(
    ethToFil: Bytes20 -> Option<Address>,
    fvmToFil: FvmAddress -> Option<Address>,
    filToFvm: Address -> Option<FvmAddress>
  ) {
    /** The contract address takes delegated f410 form. */
    predicate F410(a: Bytes20) {
      ethToFil(a) == Some(Delegated(EAM_NAMESPACE, a))
    }

    /** A contract address that becomes a delegated address keeps its bytes; a contract's FVM address that
        is understood at all converts back to itself. */
    ghost predicate Faithful() {
      && (forall a :: ethToFil(a).Some? && ethToFil(a).value.Delegated? ==> F410(a))
      && (forall x :: fvmToFil(x).Some? ==> filToFvm(fvmToFil(x).value) == Some(x))
    }
  }

  // ---------------------------------------------------------------- pieces

  function AsI64(u: U64): I64 {
    if u < TWO_63 then u else u - TWO_64
  }

  function AsU64(i: I64): U64 {
    if 0 <= i then i else i + TWO_64
  }

  function FromBigEndian(b: Bytes4): nat {
    ((b[0] as int * 256 + b[1]) * 256 + b[2]) * 256 + b[3]
  }

  function ToBigEndian(n: nat): Bytes4 {
    [n / 0x100_0000 % 256, n / 0x1_0000 % 256, n / 256 % 256, n % 256]
  }

  /** Method numbers are cut to 32 bits on their way to a contract. */
  function ToSelector(methodNum: nat): Bytes4 {
    ToBigEndian(methodNum % TWO_32)
  }

  function EthToFilAmount(amount: U256): Conv<int> {
    Try(Decimal.ParseInt(Decimal.Print(amount)))
  }

  function FilToEthAmount(amount: int): Conv<U256> {
    var v :- Try(Decimal.ParseU256(Decimal.PrintInt(amount), TWO_256));
    Done(v)
  }

  function VecToBytes32(v: seq<Byte>): Conv<Bytes32> {
    if |v| == 32 then Done(v) else Error
  }

  function EthToFil(lib: Library, a: Bytes20): Conv<Address> {
    Try(lib.ethToFil(a))
  }

  /** Takes the first twenty bytes of a delegated address, of any namespace; panics if there are fewer. */
  function PayloadToEvm(a: Address): Conv<Bytes20> {
    match a
    case Delegated(_, sub) => if |sub| < 20 then Panic else Done(sub[..20])
    case _ => Error
  }

  /** Converts element by element, up to the first failure. */
  function MapAll<A, B>(f: A -> Conv<B>, s: seq<A>): Conv<seq<B>> {
    if s == [] then Done([])
    else
      var b :- f(s[0]);
      var rest :- MapAll(f, s[1..]);
      Done([b] + rest)
  }

  function ToAddress(lib: Library): Bytes20 -> Conv<Address> {
    (a: Bytes20) => EthToFil(lib, a)
  }

  function ToEvmAddress(): Address -> Conv<Bytes20> {
    (a: Address) => PayloadToEvm(a)
  }

  // ---------------------------------------------------------------- contract to SDK

  function SubnetFromEvm(lib: Library, s: EvmSubnetID): Conv<SubnetID> {
    var children :- MapAll(ToAddress(lib), s.route);
    Done(SubnetID(s.root, children))
  }

  function IpcAddressFromEvm(lib: Library, a: EvmIpcAddress): Conv<IPCAddress> {
    var raw :- Try(lib.fvmToFil(a.rawAddress));
    var id :- SubnetFromEvm(lib, a.subnetId);
    Done(IPCAddress(id, raw))
  }

  function MsgFromEvm(lib: Library, m: EvmCrossMsg): Conv<CrossMsg> {
    var msg := m.message;
    var from :- IpcAddressFromEvm(lib, msg.from);
    var to :- IpcAddressFromEvm(lib, msg.to);
    var value :- EthToFilAmount(msg.value);
    var fee :- EthToFilAmount(msg.fee);
    Done(CrossMsg(StorableMsg(from, to, FromBigEndian(msg.selector), msg.params, value, msg.nonce, fee), m.wrapped))
  }

  function CheckpointFromEvm(lib: Library, c: EvmCheckpoint): Conv<Checkpoint> {
    var id :- SubnetFromEvm(lib, c.subnetId);
    Done(Checkpoint(id, AsI64(c.blockHeight), c.blockHash, c.nextConfigurationNumber, c.crossMessagesHash))
  }

  function FromEvmMsg(lib: Library): EvmCrossMsg -> Conv<CrossMsg> {
    (m: EvmCrossMsg) => MsgFromEvm(lib, m)
  }

  /** What `checkpoint_bundle_at` makes of the gateway's answer. */
  function FetchBundle(lib: Library, b: EvmBundle): Conv<Bundle> {
    var checkpoint :- CheckpointFromEvm(lib, b.checkpoint);
    var signatories :- MapAll(ToAddress(lib), b.signatories);
    var crossMsgs :- MapAll(FromEvmMsg(lib), b.crossMsgs);
    Done(Bundle(checkpoint, b.signatures, signatories, crossMsgs))
  }

  // ---------------------------------------------------------------- SDK to contract

  function SubnetToEvm(s: SubnetID): Conv<EvmSubnetID> {
    var route :- MapAll(ToEvmAddress(), s.children);
    if s.root < TWO_64 then Done(EvmSubnetID(s.root, route)) else Error
  }

  function IpcAddressToEvm(lib: Library, a: IPCAddress): Conv<EvmIpcAddress> {
    var id :- SubnetToEvm(a.subnetId);
    var raw :- Try(lib.filToFvm(a.rawAddress));
    Done(EvmIpcAddress(id, raw))
  }

  function MsgToEvm(lib: Library, m: CrossMsg): Conv<EvmCrossMsg> {
    var msg := m.msg;
    var value :- FilToEthAmount(msg.value);
    var fee :- FilToEthAmount(msg.fee);
    var from :- IpcAddressToEvm(lib, msg.from);
    var to :- IpcAddressToEvm(lib, msg.to);
    if msg.nonce < TWO_64
    then Done(EvmCrossMsg(EvmStorableMsg(from, to, value, msg.nonce, ToSelector(msg.methodNum), msg.params, fee), m.wrapped))
    else Error
  }

  function CheckpointToEvm(c: Checkpoint): Conv<EvmCheckpoint> {
    var id :- SubnetToEvm(c.subnetId);
    var blockHash :- VecToBytes32(c.blockHash);
    var messagesHash :- VecToBytes32(c.crossMessagesHash);
    Done(EvmCheckpoint(id, AsU64(c.blockHeight), blockHash, c.nextConfigurationNumber, messagesHash))
  }

  function ToEvmMsg(lib: Library): CrossMsg -> Conv<EvmCrossMsg> {
    (m: CrossMsg) => MsgToEvm(lib, m)
  }

  /** The subnet actor's contract: the last address of the route. */
  function ContractAddress(s: SubnetID): Conv<Bytes20> {
    if s.children == [] then Error else PayloadToEvm(s.children[|s.children| - 1])
  }

  /** The contract that is called, and the arguments it is called with. */
  function SubmitArguments(lib: Library, b: Bundle): Conv<(Bytes20, EvmBundle)> {
    var contract :- ContractAddress(b.checkpoint.subnetId);
    var signatories :- MapAll(ToEvmAddress(), b.signatories);
    var crossMsgs :- MapAll(ToEvmMsg(lib), b.crossMsgs);
    var checkpoint :- CheckpointToEvm(b.checkpoint);
    Done((contract, EvmBundle(checkpoint, b.signatures, signatories, crossMsgs)))
  }

  /** Fetch from the child and submit to the parent. */
  function Relay(lib: Library, b: EvmBundle): Conv<(Bytes20, EvmBundle)> {
    var sdk :- FetchBundle(lib, b);
    SubmitArguments(lib, sdk)
  }

  // ---------------------------------------------------------------- transparency

  /** Heights survive; those a chain can have are the same number on both sides. */
  lemma HeightSurvives(u: U64)
    ensures AsU64(AsI64(u)) == u
    ensures u < TWO_63 ==> AsI64(u) == u
  {
  }

  lemma SelectorSurvives(b: Bytes4)
    ensures FromBigEndian(b) < TWO_32 && ToSelector(FromBigEndian(b)) == b
  {
    BytesOfNumber(b[0], b[1], b[2], b[3]);
  }

  /** The first byte weighs most. */
  lemma SelectorIsBigEndian(b: Bytes4)
    ensures FromBigEndian(b) == b[0] as int * 0x100_0000 + b[1] as int * 0x1_0000 + b[2] as int * 0x100 + b[3]
  {
  }

  lemma BytesOfNumber(b0: int, b1: int, b2: int, b3: int)
    requires 0 <= b0 < 256 && 0 <= b1 < 256 && 0 <= b2 < 256 && 0 <= b3 < 256
    ensures var n := ((b0 * 256 + b1) * 256 + b2) * 256 + b3;
            && n < TWO_32 && n / 0x100_0000 % 256 == b0 && n / 0x1_0000 % 256 == b1
            && n / 256 % 256 == b2 && n % 256 == b3
  {
    var n := ((b0 * 256 + b1) * 256 + b2) * 256 + b3;
    assert n / 256 == (b0 * 256 + b1) * 256 + b2;
    assert n / 0x1_0000 == b0 * 256 + b1;
    assert n / 0x100_0000 == b0;
  }

  lemma AmountSurvives(v: U256)
    ensures EthToFilAmount(v) == Done(v) && FilToEthAmount(v) == Done(v)
  {
    Decimal.ParseUndoesPrint(v, TWO_256);
  }

  /** The other way, an amount converts exactly if it is not negative and fits 256 bits. */
  lemma AmountFitsExactly(v: int)
    ensures FilToEthAmount(v) == if 0 <= v < TWO_256 then Done(v) else Error
  {
    Decimal.ParseUndoesPrint(v, TWO_256);
  }

  /** Only the first twenty bytes of a delegated address reach a contract, whatever its namespace. Any other
      address is an error, and a delegated one that is too short panics. */
  lemma PayloadExactly(a: Address, b: Address)
    ensures PayloadToEvm(a).Error? <==> !a.Delegated?
    ensures PayloadToEvm(a).Panic? <==> a.Delegated? && |a.subaddress| < 20
    ensures PayloadToEvm(a).Done? && PayloadToEvm(b).Done? ==>
              (PayloadToEvm(a) == PayloadToEvm(b) <==> a.subaddress[..20] == b.subaddress[..20])
    ensures PayloadToEvm(a).Done? ==> PayloadToEvm(a).value <= a.subaddress
  {
  }

  /** A checkpoint with a hash of any other length than 32 bytes is refused. */
  lemma HashLengthMatters(c: Checkpoint)
    ensures CheckpointToEvm(c).Done? ==> |c.blockHash| == 32 && |c.crossMessagesHash| == 32
    ensures CheckpointToEvm(c).Done? <==>
            SubnetToEvm(c.subnetId).Done? && |c.blockHash| == 32 && |c.crossMessagesHash| == 32
  {
  }

  /** `f` then `g` succeeds exactly on the good elements, and gives them back. */
  ghost predicate ThereAndBack<A(!new), B>(f: A -> Conv<B>, g: B -> Conv<A>, good: A -> bool) {
    forall x ::
      && ((f(x).Done? && g(f(x).value).Done?) <==> good(x))
      && (good(x) ==> g(f(x).value) == Done(x))
  }

  lemma {:induction false} MapAllThereAndBack<A(!new), B>(f: A -> Conv<B>, g: B -> Conv<A>, good: A -> bool, s: seq<A>)
    requires ThereAndBack(f, g, good)
    ensures (MapAll(f, s).Done? && MapAll(g, MapAll(f, s).value).Done?) <==> forall i :: 0 <= i < |s| ==> good(s[i])
    ensures (forall i :: 0 <= i < |s| ==> good(s[i])) ==> MapAll(g, MapAll(f, s).value) == Done(s)
    decreases |s|
  {
    if s != [] {
      MapAllThereAndBack(f, g, good, s[1..]);
      var x, rest := s[0], s[1..];
      assert forall i :: 0 <= i < |rest| ==> rest[i] == s[i + 1];
      assert (forall i :: 0 <= i < |s| ==> good(s[i])) <==> good(x) && (forall i :: 0 <= i < |rest| ==> good(rest[i])) by {
        if good(x) && forall i :: 0 <= i < |rest| ==> good(rest[i]) {
          forall i | 0 <= i < |s| ensures good(s[i]) {
            assert i > 0 ==> s[i] == rest[i - 1];
          }
        }
      }
      assert [x] + rest == s;
      if MapAll(f, s).Done? {
        var image := MapAll(f, s).value;
        assert image[0] == f(x).value && image[1..] == MapAll(f, rest).value;
      }
    }
  }

  lemma AddressThereAndBack(lib: Library)
    requires lib.Faithful()
    ensures ThereAndBack(ToAddress(lib), ToEvmAddress(), (a: Bytes20) => lib.F410(a))
  {
    forall a: Bytes20
      ensures (EthToFil(lib, a).Done? && PayloadToEvm(EthToFil(lib, a).value).Done?) <==> lib.F410(a)
      ensures lib.F410(a) ==> PayloadToEvm(EthToFil(lib, a).value) == Done(a)
    {
      assert a[..20] == a;
    }
  }

  predicate GoodSubnet(lib: Library, s: EvmSubnetID) {
    forall i :: 0 <= i < |s.route| ==> lib.F410(s.route[i])
  }

  lemma SubnetThereAndBack(lib: Library, s: EvmSubnetID)
    requires lib.Faithful()
    ensures (SubnetFromEvm(lib, s).Done? && SubnetToEvm(SubnetFromEvm(lib, s).value).Done?) <==> GoodSubnet(lib, s)
    ensures GoodSubnet(lib, s) ==> SubnetToEvm(SubnetFromEvm(lib, s).value) == Done(s)
  {
    AddressesThereAndBack(lib, s.route);
  }

  predicate GoodIpcAddress(lib: Library, a: EvmIpcAddress) {
    GoodSubnet(lib, a.subnetId) && lib.fvmToFil(a.rawAddress).Some?
  }

  lemma IpcAddressThereAndBack(lib: Library, a: EvmIpcAddress)
    requires lib.Faithful()
    ensures (IpcAddressFromEvm(lib, a).Done? && IpcAddressToEvm(lib, IpcAddressFromEvm(lib, a).value).Done?) <==> GoodIpcAddress(lib, a)
    ensures GoodIpcAddress(lib, a) ==> IpcAddressToEvm(lib, IpcAddressFromEvm(lib, a).value) == Done(a)
  {
    SubnetThereAndBack(lib, a.subnetId);
  }

  /** What a fetched message says is what the contract's says, field by field. */
  lemma FetchedMessageIs(lib: Library, m: EvmCrossMsg, x: CrossMsg)
    requires MsgFromEvm(lib, m) == Done(x)
    ensures IpcAddressFromEvm(lib, m.message.from) == Done(x.msg.from) && IpcAddressFromEvm(lib, m.message.to) == Done(x.msg.to)
    ensures lib.fvmToFil(m.message.from.rawAddress) == Some(x.msg.from.rawAddress)
    ensures x.msg.from.subnetId.root == m.message.from.subnetId.root && x.msg.to.subnetId.root == m.message.to.subnetId.root
    ensures x.msg.value == m.message.value && x.msg.fee == m.message.fee && x.msg.nonce == m.message.nonce
    ensures x.msg.params == m.message.params && x.wrapped == m.wrapped
    ensures x.msg.methodNum == FromBigEndian(m.message.selector)
  {
    AmountSurvives(m.message.value);
    AmountSurvives(m.message.fee);
  }

  predicate GoodMsg(lib: Library, m: EvmCrossMsg) {
    GoodIpcAddress(lib, m.message.from) && GoodIpcAddress(lib, m.message.to)
  }

  lemma MsgThereAndBack(lib: Library)
    requires lib.Faithful()
    ensures ThereAndBack(FromEvmMsg(lib), ToEvmMsg(lib), (m: EvmCrossMsg) => GoodMsg(lib, m))
  {
    forall m: EvmCrossMsg
      ensures (MsgFromEvm(lib, m).Done? && MsgToEvm(lib, MsgFromEvm(lib, m).value).Done?) <==> GoodMsg(lib, m)
      ensures GoodMsg(lib, m) ==> MsgToEvm(lib, MsgFromEvm(lib, m).value) == Done(m)
    {
      OneMsgThereAndBack(lib, m);
    }
  }

  lemma OneMsgThereAndBack(lib: Library, m: EvmCrossMsg)
    requires lib.Faithful()
    ensures (MsgFromEvm(lib, m).Done? && MsgToEvm(lib, MsgFromEvm(lib, m).value).Done?) <==> GoodMsg(lib, m)
    ensures GoodMsg(lib, m) ==> MsgToEvm(lib, MsgFromEvm(lib, m).value) == Done(m)
  {
    IpcAddressThereAndBack(lib, m.message.from);
    IpcAddressThereAndBack(lib, m.message.to);
    AmountSurvives(m.message.value);
    AmountSurvives(m.message.fee);
    SelectorSurvives(m.message.selector);
  }

  lemma CheckpointThereAndBack(lib: Library, c: EvmCheckpoint)
    requires lib.Faithful()
    ensures (CheckpointFromEvm(lib, c).Done? && CheckpointToEvm(CheckpointFromEvm(lib, c).value).Done?) <==> GoodSubnet(lib, c.subnetId)
    ensures GoodSubnet(lib, c.subnetId) ==> CheckpointToEvm(CheckpointFromEvm(lib, c).value) == Done(c)
  {
    SubnetThereAndBack(lib, c.subnetId);
  }

  /** A bundle can be relayed: its subnet is not the root, every route and signatory takes delegated form,
      and the raw addresses in its messages are understood. */
  predicate Relayable(lib: Library, b: EvmBundle) {
    && b.checkpoint.subnetId.route != []
    && GoodSubnet(lib, b.checkpoint.subnetId)
    && (forall i :: 0 <= i < |b.signatories| ==> lib.F410(b.signatories[i]))
    && (forall i :: 0 <= i < |b.crossMsgs| ==> GoodMsg(lib, b.crossMsgs[i]))
  }

  lemma ContractIsLastOfRoute(lib: Library, s: EvmSubnetID)
    requires lib.Faithful() && GoodSubnet(lib, s)
    ensures SubnetFromEvm(lib, s).Done?
    ensures ContractAddress(SubnetFromEvm(lib, s).value) == if s.route == [] then Error else Done(s.route[|s.route| - 1])
  {
    SubnetThereAndBack(lib, s);
    LastOfMapAll(ToEvmAddress(), SubnetFromEvm(lib, s).value.children);
  }

  lemma {:induction false} LastOfMapAll<A, B>(f: A -> Conv<B>, s: seq<A>)
    requires MapAll(f, s).Done?
    ensures |MapAll(f, s).value| == |s|
    ensures s != [] ==> f(s[|s| - 1]) == Done(MapAll(f, s).value[|s| - 1])
    decreases |s|
  {
    if s != [] {
      LastOfMapAll(f, s[1..]);
    }
  }

  /** Relay transparency. What is submitted to the parent, if anything is, equals what the child's gateway
      returned: heights, hashes, selectors, amounts, routes, signatures, and the order and number of all
      lists. The contract called is the last address of the route. And something is submitted exactly
      when the bundle is relayable. */
  lemma RelayIsTransparent(lib: Library, b: EvmBundle)
    requires lib.Faithful()
    ensures Relay(lib, b).Done? <==> Relayable(lib, b)
    ensures Relayable(lib, b) ==>
              Relay(lib, b) == Done((b.checkpoint.subnetId.route[|b.checkpoint.subnetId.route| - 1], b))
  {
    if Relayable(lib, b) {
      RelayableIsRelayed(lib, b);
    }
    if Relay(lib, b).Done? {
      RelayedIsRelayable(lib, b, FetchBundle(lib, b).value);
    }
  }

  lemma RelayableIsRelayed(lib: Library, b: EvmBundle)
    requires lib.Faithful() && Relayable(lib, b)
    ensures Relay(lib, b) == Done((b.checkpoint.subnetId.route[|b.checkpoint.subnetId.route| - 1], b))
  {
    AddressesThereAndBack(lib, b.signatories);
    MsgsThereAndBack(lib, b.crossMsgs);
    CheckpointThereAndBack(lib, b.checkpoint);
    ContractIsLastOfRoute(lib, b.checkpoint.subnetId);
    var sdk := Bundle(CheckpointFromEvm(lib, b.checkpoint).value, b.signatures,
                      MapAll(ToAddress(lib), b.signatories).value, MapAll(FromEvmMsg(lib), b.crossMsgs).value);
    FetchByParts(lib, b, sdk);
    SubmitByParts(lib, b, sdk, b.checkpoint.subnetId.route[|b.checkpoint.subnetId.route| - 1]);
  }

  lemma FetchByParts(lib: Library, b: EvmBundle, sdk: Bundle)
    requires CheckpointFromEvm(lib, b.checkpoint) == Done(sdk.checkpoint) && sdk.signatures == b.signatures
    requires MapAll(ToAddress(lib), b.signatories) == Done(sdk.signatories)
    requires MapAll(FromEvmMsg(lib), b.crossMsgs) == Done(sdk.crossMsgs)
    ensures FetchBundle(lib, b) == Done(sdk)
    ensures SubnetFromEvm(lib, b.checkpoint.subnetId) == Done(sdk.checkpoint.subnetId)
  {
  }

  lemma SubmitByParts(lib: Library, b: EvmBundle, sdk: Bundle, contract: Bytes20)
    requires ContractAddress(sdk.checkpoint.subnetId) == Done(contract) && sdk.signatures == b.signatures
    requires MapAll(ToEvmAddress(), sdk.signatories) == Done(b.signatories)
    requires MapAll(ToEvmMsg(lib), sdk.crossMsgs) == Done(b.crossMsgs)
    requires CheckpointToEvm(sdk.checkpoint) == Done(b.checkpoint)
    ensures SubmitArguments(lib, sdk) == Done((contract, b))
  {
  }

  lemma RelayedIsRelayable(lib: Library, b: EvmBundle, sdk: Bundle)
    requires lib.Faithful() && FetchBundle(lib, b) == Done(sdk) && SubmitArguments(lib, sdk).Done?
    ensures Relayable(lib, b)
  {
    assert MapAll(ToAddress(lib), b.signatories) == Done(sdk.signatories) && MapAll(ToEvmAddress(), sdk.signatories).Done?;
    assert MapAll(FromEvmMsg(lib), b.crossMsgs) == Done(sdk.crossMsgs) && MapAll(ToEvmMsg(lib), sdk.crossMsgs).Done?;
    assert CheckpointFromEvm(lib, b.checkpoint) == Done(sdk.checkpoint) && CheckpointToEvm(sdk.checkpoint).Done?;
    assert ContractAddress(sdk.checkpoint.subnetId).Done?;
    AddressesThereAndBack(lib, b.signatories);
    MsgsThereAndBack(lib, b.crossMsgs);
    CheckpointThereAndBack(lib, b.checkpoint);
    ContractIsLastOfRoute(lib, b.checkpoint.subnetId);
  }

  lemma AddressesThereAndBack(lib: Library, s: seq<Bytes20>)
    requires lib.Faithful()
    ensures (MapAll(ToAddress(lib), s).Done? && MapAll(ToEvmAddress(), MapAll(ToAddress(lib), s).value).Done?)
            <==> forall i :: 0 <= i < |s| ==> lib.F410(s[i])
    ensures (forall i :: 0 <= i < |s| ==> lib.F410(s[i])) ==>
              MapAll(ToEvmAddress(), MapAll(ToAddress(lib), s).value) == Done(s)
  {
    AddressThereAndBack(lib);
    MapAllThereAndBack(ToAddress(lib), ToEvmAddress(), (a: Bytes20) => lib.F410(a), s);
  }

  lemma MsgsThereAndBack(lib: Library, s: seq<EvmCrossMsg>)
    requires lib.Faithful()
    ensures (MapAll(FromEvmMsg(lib), s).Done? && MapAll(ToEvmMsg(lib), MapAll(FromEvmMsg(lib), s).value).Done?)
            <==> forall i :: 0 <= i < |s| ==> GoodMsg(lib, s[i])
    ensures (forall i :: 0 <= i < |s| ==> GoodMsg(lib, s[i])) ==>
              MapAll(ToEvmMsg(lib), MapAll(FromEvmMsg(lib), s).value) == Done(s)
  {
    MsgThereAndBack(lib);
    MapAllThereAndBack(FromEvmMsg(lib), ToEvmMsg(lib), (m: EvmCrossMsg) => GoodMsg(lib, m), s);
  }

  /** In the other direction conversion is not faithful: a method number survives the way to a contract
      and back exactly when it fits 32 bits. */
  lemma MethodSurvivesExactly(methodNum: U64)
    ensures FromBigEndian(ToSelector(methodNum)) == methodNum % TWO_32
    ensures FromBigEndian(ToSelector(methodNum)) == methodNum <==> methodNum < TWO_32
  {
    BigEndianDigits(methodNum % TWO_32);
  }

  lemma BigEndianDigits(n: nat)
    requires n < TWO_32
    ensures FromBigEndian(ToBigEndian(n)) == n
  {
    var a, b, c := n / 256, n / 0x1_0000, n / 0x100_0000;
    assert n == a * 256 + n % 256;
    assert a == b * 256 + a % 256;
    assert b == c * 256 + b % 256;
  }
}
