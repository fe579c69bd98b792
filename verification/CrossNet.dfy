/** Cross-net messages: how they are classified, and how every hop of their route is labelled. */
module CrossNet {
  import opened Bytes
  import opened Wrappers
  import opened Subnets

  datatype IPCAddress = IPCAddress(subnetId: SubnetID, rawAddress: Address)

  datatype StorableMsg = StorableMsg(
    from: IPCAddress, to: IPCAddress, methodNum: nat, params: seq<Byte>, value: int, nonce: nat, fee: int)

  datatype MsgType = BottomUp | TopDown

  const METHOD_SEND := 0

  function NewReleaseMsg(sub: SubnetID, from: Address, to: Address, value: int, fee: int): Result<StorableMsg, ()> {
    match Parent(sub)
    case None => Err(())
    case Some(parent) =>
      Ok(StorableMsg(IPCAddress(sub, from), IPCAddress(parent, to), METHOD_SEND, [], value, 0, fee))
  }

  function NewFundMsg(sub: SubnetID, from: Address, to: Address, value: int): Result<StorableMsg, ()> {
    match Parent(sub)
    case None => Err(())
    case Some(parent) =>
      Ok(StorableMsg(IPCAddress(parent, from), IPCAddress(sub, to), METHOD_SEND, [], value, 0, 0))
  }

  predicate IsBottomUp(from: SubnetID, to: SubnetID) {
    match CommonParent(from, to)
    case Some((index, _)) => index < |from.children|
    case None => false
  }

  function IpcType(m: StorableMsg): MsgType {
    if IsBottomUp(m.from.subnetId, m.to.subnetId) then BottomUp else TopDown
  }

  function ApplyType(m: StorableMsg, curr: SubnetID): MsgType {
    if CommonParent(curr, m.to.subnetId) == CommonParent(m.from.subnetId, m.to.subnetId) && IpcType(m) == BottomUp
    then BottomUp
    else TopDown
  }

  /** A message goes bottom-up exactly when its source is not an ancestor of its destination (subnets of
      different roots are never bottom-up). */
  lemma BottomUpExactly(from: SubnetID, to: SubnetID)
    ensures IsBottomUp(from, to) <==> from.root == to.root && !AncestorOrSelf(from, to)
  {
    if from.root == to.root {
      MeetIsSemilattice(from, to, to);
      assert Meet(from, to) == from <==> SharedCount(from.children, to.children) == |from.children|;
    }
  }

  /** The label of any subnet whatever, on the route or not: bottom-up exactly when the message is, the subnet
      is of the same tree, and it parts from the destination's path where the source does. */
  lemma ApplyTypeExactly(m: StorableMsg, curr: SubnetID)
    ensures ApplyType(m, curr) == BottomUp <==>
            && curr.root == m.from.subnetId.root == m.to.subnetId.root
            && !AncestorOrSelf(m.from.subnetId, m.to.subnetId)
            && Meet(curr, m.to.subnetId) == Meet(m.from.subnetId, m.to.subnetId)
  {
    BottomUpExactly(m.from.subnetId, m.to.subnetId);
    CommonParentDefined(curr, m.to.subnetId);
    CommonParentDefined(m.from.subnetId, m.to.subnetId);
  }

  /** The message moves value and calls nothing. */
  predicate PlainTransfer(m: StorableMsg) {
    m.methodNum == 0 && m.params == []
  }

  /** Release messages always go bottom-up and fund messages top-down; both exist exactly for subnets
      that have a parent, and move the same two subnets in opposite directions. */
  lemma ReleaseAndFundDirections(sub: SubnetID, from: Address, to: Address, value: int, fee: int)
    ensures NewReleaseMsg(sub, from, to, value, fee).Ok? <==> !IsRoot(sub)
    ensures NewFundMsg(sub, from, to, value).Ok? <==> !IsRoot(sub)
    ensures !IsRoot(sub) ==>
              var release, fund := NewReleaseMsg(sub, from, to, value, fee).value, NewFundMsg(sub, to, from, value).value;
              && IpcType(release) == BottomUp && IpcType(fund) == TopDown
              && release.from == fund.to && release.to == fund.from
              && release.from == IPCAddress(sub, from) && Parent(sub) == Some(release.to.subnetId)
              && release.to.rawAddress == to
              && release.value == fund.value == value && release.fee == fee && fund.fee == 0
              && release.nonce == fund.nonce == 0 && PlainTransfer(release) && PlainTransfer(fund)
  {
    if !IsRoot(sub) {
      var parent := Parent(sub).value;
      BottomUpExactly(sub, parent);
      BottomUpExactly(parent, sub);
    }
  }

  // ---------------------------------------------------------------- routes

  /** Up from the source to the common parent, then down to the destination. */
  function Route(from: SubnetID, to: SubnetID): (route: seq<SubnetID>)
    requires from.root == to.root
  {
    var meet := Meet(from, to);
    UpPath(from, from, meet, |from.children|) + DownPath(to, meet, |to.children|)[1..]
  }

  /** How many subnets the upward half visits, both ends included. */
  function UpLength(from: SubnetID, to: SubnetID): nat
    requires from.root == to.root
  {
    |from.children| - SharedCount(from.children, to.children) + 1
  }

  /** The route written out: ancestors of the source from itself to the common parent, then ancestors
      of the destination below it. */
  lemma RouteIs(from: SubnetID, to: SubnetID)
    requires from.root == to.root
    ensures var n := SharedCount(from.children, to.children);
            var up := UpLength(from, to);
            && |Route(from, to)| == up + (|to.children| - n)
            && (forall i :: 0 <= i < up ==> Route(from, to)[i] == SubnetID(from.root, from.children[..|from.children| - i]))
            && (forall i :: up <= i < |Route(from, to)| ==> Route(from, to)[i] == SubnetID(to.root, to.children[..n + 1 + i - up]))
  {
    var meet := Meet(from, to);
    CommonParentIsMeet(from, to, meet);
    UpReaches(from, from, meet, |from.children|);
    DownReaches(to, meet, |to.children|);
  }

  /** Neighbours in the tree. */
  predicate Adjacent(a: SubnetID, b: SubnetID) {
    Parent(a) == Some(b) || Parent(b) == Some(a)
  }

  /** Every route starts at the source, ends at the destination and moves one level at a time. */
  lemma RouteConnects(from: SubnetID, to: SubnetID)
    requires from.root == to.root
    ensures var route := Route(from, to);
            && route != [] && route[0] == from && route[|route| - 1] == to
            && (forall i :: 0 <= i < |route| - 1 ==> Adjacent(route[i], route[i + 1]))
  {
    RouteEnds(from, to);
    forall i | 0 <= i < |Route(from, to)| - 1 ensures Adjacent(Route(from, to)[i], Route(from, to)[i + 1]) {
      RouteStep(from, to, i);
    }
  }

  lemma RouteEnds(from: SubnetID, to: SubnetID)
    requires from.root == to.root
    ensures Route(from, to) != [] && Route(from, to)[0] == from && Route(from, to)[|Route(from, to)| - 1] == to
  {
    RouteIs(from, to);
    SharedCountIs(from.children, to.children);
    assert from.children[..|from.children|] == from.children && to.children[..|to.children|] == to.children;
  }

  lemma RouteStep(from: SubnetID, to: SubnetID, i: nat)
    requires from.root == to.root && i < |Route(from, to)| - 1
    ensures Adjacent(Route(from, to)[i], Route(from, to)[i + 1])
  {
    RouteIs(from, to);
    var n, up := SharedCount(from.children, to.children), UpLength(from, to);
    if i + 1 < up {
      OneLevel(from, |from.children| - i);
    } else {
      SharedCountIs(from.children, to.children);
      OneLevel(to, n + 2 + i - up);
    }
  }

  lemma OneLevel(s: SubnetID, n: nat)
    requires 0 < n <= |s.children|
    ensures Parent(SubnetID(s.root, s.children[..n])) == Some(SubnetID(s.root, s.children[..n - 1]))
  {
    assert s.children[..n][..n - 1] == s.children[..n - 1];
  }

  lemma MeetOnUpwardHalf(from: SubnetID, to: SubnetID, depth: nat)
    requires from.root == to.root && SharedCount(from.children, to.children) <= depth <= |from.children|
    ensures Meet(SubnetID(from.root, from.children[..depth]), to) == Meet(from, to)
  {
    var n := SharedCount(from.children, to.children);
    SharedCountIs(from.children, to.children);
    SharedCountUnique(from.children[..depth], to.children, n);
    assert from.children[..depth][..n] == from.children[..n];
  }

  lemma MeetOnDownwardHalf(from: SubnetID, to: SubnetID, depth: nat)
    requires from.root == to.root && SharedCount(from.children, to.children) < depth <= |to.children|
    ensures Meet(SubnetID(to.root, to.children[..depth]), to) != Meet(from, to)
  {
    SharedCountUnique(to.children[..depth], to.children, depth);
  }

  /** Labels along a route. If the source is an ancestor of the destination every hop is top-down.
      Otherwise the hops up to and including the common parent are bottom-up, the ones below it top-down. */
  lemma RouteLabels(m: StorableMsg, i: nat)
    requires m.from.subnetId.root == m.to.subnetId.root
    requires i < |Route(m.from.subnetId, m.to.subnetId)|
    ensures var from, to := m.from.subnetId, m.to.subnetId;
            ApplyType(m, Route(from, to)[i]) == BottomUp <==> !AncestorOrSelf(from, to) && i < UpLength(from, to)
  {
    var from, to := m.from.subnetId, m.to.subnetId;
    RouteIs(from, to);
    ApplyTypeExactly(m, Route(from, to)[i]);
    if i < UpLength(from, to) {
      MeetOnUpwardHalf(from, to, |from.children| - i);
    } else {
      MeetOnDownwardHalf(from, to, SharedCount(from.children, to.children) + 1 + i - UpLength(from, to));
    }
  }
}
