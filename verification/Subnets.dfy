/** Subnet identifiers as paths in a tree, and the route of a cross-net message through it. */
module Subnets {
  import opened Bytes
  import opened Wrappers

  /** A Filecoin address, told apart by its protocol. */
  datatype Address =
    | ID(id: nat)
    | Secp256k1(hash: seq<Byte>)
    | Actor(hash: seq<Byte>)
    | BLS(key: seq<Byte>)
    | Delegated(namespace: nat, subaddress: seq<Byte>)

  /** The chain id of the root network and the subnet actors from the root down. */
  datatype SubnetID = SubnetID(root: nat, children: seq<Address>)

  function NewFromParent(parent: SubnetID, actor: Address): SubnetID {
    SubnetID(parent.root, parent.children + [actor])
  }

  predicate IsRoot(s: SubnetID) {
    s.children == []
  }

  function Parent(s: SubnetID): Option<SubnetID> {
    if s.children == [] then None else Some(SubnetID(s.root, s.children[..|s.children| - 1]))
  }

  /** How many leading elements two paths share. */
  function SharedCount(a: seq<Address>, b: seq<Address>): (n: nat)
    ensures n <= |a| && n <= |b|
  {
    if a == [] || b == [] || a[0] != b[0] then 0 else 1 + SharedCount(a[1..], b[1..])
  }

  function CommonParent(a: SubnetID, b: SubnetID): Option<(nat, SubnetID)> {
    if a.root != b.root then None
    else
      var n := SharedCount(a.children, b.children);
      Some((n, SubnetID(a.root, a.children[..n])))
  }

  function Down(self: SubnetID, from: SubnetID): Option<SubnetID> {
    if |self.children| <= |from.children| then None
    else
      match CommonParent(self, from)
      case Some((i, _)) => Some(SubnetID(self.root, self.children[..i + 1]))
      case None => None
  }

  /** `Panics` when no child is shared: the slice bound `i - 1` underflows. */
  datatype Hop = At(subnet: SubnetID) | NoHop | Panics

  function Up(self: SubnetID, from: SubnetID): Hop {
    if |self.children| < |from.children| then NoHop
    else
      match CommonParent(self, from)
      case Some((i, _)) => if i == 0 then Panics else At(SubnetID(self.root, self.children[..i - 1]))
      case None => NoHop
  }

  // ---------------------------------------------------------------- the tree

  /** `a` is `b` or lies on the path from the root to `b`. */
  predicate AncestorOrSelf(a: SubnetID, b: SubnetID) {
    a.root == b.root && a.children <= b.children
  }

  /** The two paths agree on the shared part and differ right after it. */
  lemma {:induction false} SharedCountIs(a: seq<Address>, b: seq<Address>)
    ensures var n := SharedCount(a, b);
            a[..n] == b[..n] && (n == |a| || n == |b| || a[n] != b[n])
    decreases |a|
  {
    if a != [] && b != [] && a[0] == b[0] {
      SharedCountIs(a[1..], b[1..]);
      var n := SharedCount(a[1..], b[1..]);
      assert a[..n + 1] == [a[0]] + a[1..][..n] && b[..n + 1] == [b[0]] + b[1..][..n];
    }
  }

  /** Any count with that property is the shared count. */
  lemma {:induction false} SharedCountUnique(a: seq<Address>, b: seq<Address>, n: nat)
    requires n <= |a| && n <= |b| && a[..n] == b[..n] && (n == |a| || n == |b| || a[n] != b[n])
    ensures SharedCount(a, b) == n
    decreases n
  {
    if 0 < n {
      assert a[0] == a[..n][0] == b[..n][0] == b[0];
      assert a[1..][..n - 1] == a[..n][1..] && b[1..][..n - 1] == b[..n][1..];
      SharedCountUnique(a[1..], b[1..], n - 1);
    }
  }

  /** Paths share at least what they have a common prefix of. */
  lemma {:induction false} SharedAtLeast(x: seq<Address>, a: seq<Address>, b: seq<Address>)
    requires x <= a && x <= b
    ensures |x| <= SharedCount(a, b)
    decreases |x|
  {
    if x != [] {
      SharedAtLeast(x[1..], a[1..], b[1..]);
    }
  }

  /** The common parent of two subnets with the same root: what `CommonParent` returns. */
  function Meet(a: SubnetID, b: SubnetID): SubnetID
    requires a.root == b.root
  {
    CommonParent(a, b).value.1
  }

  /** `CommonParent` is defined exactly for subnets of the same root, and the count it returns is the
      depth of the subnet it returns. */
  lemma CommonParentDefined(a: SubnetID, b: SubnetID)
    ensures CommonParent(a, b).Some? <==> a.root == b.root
    ensures a.root == b.root ==> CommonParent(a, b) == Some((|Meet(a, b).children|, Meet(a, b)))
  {
  }

  /** It is the greatest lower bound of the ancestor order: a common ancestor, and every common ancestor
      is an ancestor of it. */
  lemma CommonParentIsMeet(a: SubnetID, b: SubnetID, x: SubnetID)
    requires a.root == b.root
    ensures AncestorOrSelf(Meet(a, b), a) && AncestorOrSelf(Meet(a, b), b)
    ensures AncestorOrSelf(x, a) && AncestorOrSelf(x, b) <==> AncestorOrSelf(x, Meet(a, b))
  {
    SharedCountIs(a.children, b.children);
    var n := SharedCount(a.children, b.children);
    if AncestorOrSelf(x, a) && AncestorOrSelf(x, b) {
      SharedAtLeast(x.children, a.children, b.children);
      assert x.children == a.children[..|x.children|] == a.children[..n][..|x.children|];
    }
  }

  lemma AncestorAntisymmetric(a: SubnetID, b: SubnetID)
    requires AncestorOrSelf(a, b) && AncestorOrSelf(b, a)
    ensures a == b
  {
  }

  /** Hence it is idempotent, commutative and associative. */
  lemma MeetIsSemilattice(a: SubnetID, b: SubnetID, c: SubnetID)
    requires a.root == b.root == c.root
    ensures Meet(a, a) == a
    ensures Meet(a, b) == Meet(b, a)
    ensures Meet(Meet(a, b), c) == Meet(a, Meet(b, c))
    ensures AncestorOrSelf(a, b) <==> Meet(a, b) == a
  {
    CommonParentIsMeet(a, a, a);
    CommonParentIsMeet(a, b, Meet(b, a));
    CommonParentIsMeet(b, a, Meet(a, b));
    AncestorAntisymmetric(Meet(a, b), Meet(b, a));
    CommonParentIsMeet(a, b, a);
    var left, right := Meet(Meet(a, b), c), Meet(a, Meet(b, c));
    BelowBoth(a, b, c, left);
    BelowBoth(a, b, c, right);
    AncestorAntisymmetric(left, right);
  }

  /** Being below three subnets, in either grouping. */
  lemma BelowBoth(a: SubnetID, b: SubnetID, c: SubnetID, x: SubnetID)
    requires a.root == b.root == c.root
    ensures AncestorOrSelf(x, Meet(Meet(a, b), c)) <==> AncestorOrSelf(x, Meet(a, Meet(b, c)))
  {
    CommonParentIsMeet(Meet(a, b), c, x);
    CommonParentIsMeet(a, b, x);
    CommonParentIsMeet(a, Meet(b, c), x);
    CommonParentIsMeet(b, c, x);
  }

  // ---------------------------------------------------------------- hops

  lemma SharedWithPrefix(s: seq<Address>, n: nat)
    requires n <= |s|
    ensures SharedCount(s, s[..n]) == n
  {
    SharedCountUnique(s, s[..n], n);
  }

  /** `new_from_parent` and `parent` undo each other. */
  lemma ParentOfChild(p: SubnetID, actor: Address, s: SubnetID)
    ensures Parent(NewFromParent(p, actor)) == Some(p)
    ensures Parent(s).Some? ==> NewFromParent(Parent(s).value, s.children[|s.children| - 1]) == s
    ensures Parent(s).None? <==> IsRoot(s)
  {
  }

  /** Going down and then up again, and up and then down again, along the path to `s`. */
  lemma DownAndUpInverse(s: SubnetID, from: SubnetID)
    requires AncestorOrSelf(from, s)
    ensures from != s ==>
              && Down(s, from).Some?
              && AncestorOrSelf(Down(s, from).value, s)
              && Parent(Down(s, from).value) == Some(from)
              && Up(s, Down(s, from).value) == At(from)
    ensures from.children != [] ==>
              && Up(s, from) == At(Parent(from).value)
              && Down(s, Up(s, from).subnet) == Some(from)
  {
    var n := |from.children|;
    assert from.children == s.children[..n];
    SharedWithPrefix(s.children, n);
    if from != s {
      assert n < |s.children|;
      SharedWithPrefix(s.children, n + 1);
      assert s.children[..n + 1][..n] == from.children;
    }
    if 0 < n {
      SharedWithPrefix(s.children, n - 1);
      assert from.children[..n - 1] == s.children[..n - 1];
    }
  }

  /** `Up` panics exactly on subnets of the same root, no deeper than the path, that part from it at the
      root: in particular when asked to go up from the root itself. */
  lemma UpPanicsExactly(s: SubnetID, from: SubnetID)
    ensures Up(s, from).Panics? <==>
            && s.root == from.root && |from.children| <= |s.children|
            && (s.children == [] || from.children == [] || s.children[0] != from.children[0])
    ensures Down(s, from).Some? <==> s.root == from.root && |from.children| < |s.children|
  {
  }

  /** Off the path as on it: from any subnet of the same tree, `down` leads to the child of the common parent on
      the path to `s`, and `up` to the parent of the common parent. */
  lemma HopsAroundMeet(s: SubnetID, from: SubnetID)
    requires s.root == from.root
    ensures Down(s, from).Some? ==>
              AncestorOrSelf(Down(s, from).value, s) && Parent(Down(s, from).value) == Some(Meet(s, from))
    ensures Up(s, from).At? ==> Parent(Meet(s, from)) == Some(Up(s, from).subnet)
  {
    SharedCountIs(s.children, from.children);
    var n := SharedCount(s.children, from.children);
    if Down(s, from).Some? {
      assert s.children[..n + 1][..n] == s.children[..n];
    }
    if Up(s, from).At? {
      assert s.children[..n][..n - 1] == s.children[..n - 1];
    }
  }

  /** `up` answers exactly if the roots agree, the path is at least as long and the first child is shared. */
  lemma UpAnswersExactly(s: SubnetID, from: SubnetID)
    ensures Up(s, from).At? <==>
            && s.root == from.root && |from.children| <= |s.children|
            && s.children != [] && from.children != [] && s.children[0] == from.children[0]
  {
  }

  /** Repeats `down` until it stops, at most `hops` times. */
  function DownPath(s: SubnetID, from: SubnetID, hops: nat): (path: seq<SubnetID>)
    decreases hops
  {
    match Down(s, from)
    case Some(next) => if hops == 0 then [from] else [from] + DownPath(s, next, hops - 1)
    case None => [from]
  }

  /** The ancestors of `s` from depth `from` to depth `to`, downward. */
  function Descent(s: SubnetID, from: nat, to: nat): (path: seq<SubnetID>)
    requires from <= to <= |s.children|
    ensures |path| == to - from + 1
    ensures forall i :: 0 <= i < |path| ==> path[i] == SubnetID(s.root, s.children[..from + i])
  {
    seq(to - from + 1, i requires 0 <= i < to - from + 1 => SubnetID(s.root, s.children[..from + i]))
  }

  /** Iterating `down` from an ancestor visits every subnet on the way and reaches `s` in exactly the
      difference of depths, however many more hops are allowed. */
  lemma {:induction false} DownReaches(s: SubnetID, from: SubnetID, hops: nat)
    requires AncestorOrSelf(from, s) && |s.children| - |from.children| <= hops
    ensures DownPath(s, from, hops) == Descent(s, |from.children|, |s.children|)
    decreases hops
  {
    assert from.children == s.children[..|from.children|];
    if from != s {
      DownAndUpInverse(s, from);
      DownReaches(s, Down(s, from).value, hops - 1);
    } else {
      assert s.children[..|s.children|] == s.children;
    }
  }

  /** Repeats `up` along the path to `s` until `target` is reached, at most `hops` times. */
  function UpPath(s: SubnetID, from: SubnetID, target: SubnetID, hops: nat): (path: seq<SubnetID>)
    decreases hops
  {
    if from == target || hops == 0 then [from]
    else
      match Up(s, from)
      case At(next) => [from] + UpPath(s, next, target, hops - 1)
      case _ => [from]
  }

  function Reversed(path: seq<SubnetID>): (r: seq<SubnetID>)
    ensures |r| == |path|
    ensures forall i :: 0 <= i < |r| ==> r[i] == path[|path| - 1 - i]
  {
    seq(|path|, i requires 0 <= i < |path| => path[|path| - 1 - i])
  }

  lemma {:induction false} UpReaches(s: SubnetID, from: SubnetID, target: SubnetID, hops: nat)
    requires AncestorOrSelf(target, from) && AncestorOrSelf(from, s)
    requires |from.children| - |target.children| <= hops
    ensures UpPath(s, from, target, hops) == Reversed(Descent(s, |target.children|, |from.children|))
    decreases hops
  {
    assert from.children == s.children[..|from.children|];
    assert target.children == s.children[..|target.children|];
    if from != target {
      DownAndUpInverse(s, from);
      var next := Up(s, from).subnet;
      UpReaches(s, next, target, hops - 1);
      AscentStep(s, |target.children|, |from.children|);
    }
  }

  lemma AscentStep(s: SubnetID, to: nat, from: nat)
    requires to < from <= |s.children|
    ensures Reversed(Descent(s, to, from)) == [SubnetID(s.root, s.children[..from])] + Reversed(Descent(s, to, from - 1))
  {
  }
}
