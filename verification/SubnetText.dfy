/** Subnet identifiers and IPC addresses as text.

    How an address itself is printed and parsed belongs to another library; it is a parameter here, and
    what is assumed of it is stated as `Codec.Faithful`. */
module SubnetText {
  import opened Wrappers
  import opened Subnets
  import opened CrossNet
  import Decimal

  const U64_LIMIT := 0x1_0000_0000_0000_0000

  datatype Codec = Codec(show: Address -> string, read: string -> Option<Address>) {
    /** Address text is non-empty, holds neither separator, and reads back as the address. */
    ghost predicate Faithful() {
      forall a :: Plain(show(a)) && read(show(a)) == Some(a)
    }
  }

  predicate Plain(s: string) {
    s != [] && '/' !in s && ':' !in s
  }

  datatype Error = InvalidID | InvalidIPCAddr | InvalidAddress

  /** `Panic`: the text has no segment at all, or its first segment starts with a character that is
      longer than one byte. */
  datatype Parsed<+T> = Parsed(value: T) | Failed(error: Error) | Panic

  function PrintChildren(codec: Codec, children: seq<Address>): string {
    if children == [] then "" else "/" + codec.show(children[0]) + PrintChildren(codec, children[1..])
  }

  function PrintSubnet(codec: Codec, id: SubnetID): string {
    "/" + ("r" + Decimal.Print(id.root)) + PrintChildren(codec, id.children)
  }

  function PrintIPCAddress(codec: Codec, a: IPCAddress): string {
    PrintSubnet(codec, a.subnetId) + ":" + codec.show(a.rawAddress)
  }

  /** The pieces between separators; one more than there are separators. */
  function Split(s: string, sep: char): (parts: seq<string>)
    ensures parts != []
  {
    if s == [] then [[]]
    else
      var rest := Split(s[1..], sep);
      if s[0] == sep then [[]] + rest else [[s[0]] + rest[0]] + rest[1..]
  }

  function NonEmpty(parts: seq<string>): (r: seq<string>)
    ensures forall i :: 0 <= i < |r| ==> r[i] != []
  {
    if parts == [] then []
    else if parts[0] == [] then NonEmpty(parts[1..])
    else [parts[0]] + NonEmpty(parts[1..])
  }

  function Segments(s: string): (r: seq<string>)
    ensures forall i :: 0 <= i < |r| ==> r[i] != []
  {
    NonEmpty(Split(s, '/'))
  }

  function ParseChildren(codec: Codec, segments: seq<string>): Option<seq<Address>> {
    if segments == [] then Some([])
    else
      match (codec.read(segments[0]), ParseChildren(codec, segments[1..]))
      case (Some(a), Some(rest)) => Some([a] + rest)
      case _ => None
  }

  function ParseSubnet(codec: Codec, s: string): Parsed<SubnetID> {
    var segments := Segments(s);
    if segments == [] || 128 <= segments[0][0] as int then Panic
    else
      match (Decimal.ParseUnsigned(segments[0][1..], U64_LIMIT), ParseChildren(codec, segments[1..]))
      case (Some(root), Some(children)) => Parsed(SubnetID(root, children))
      case _ => Failed(InvalidID)
  }

  function ParseIPCAddress(codec: Codec, s: string): Parsed<IPCAddress> {
    var parts := Split(s, ':');
    if |parts| != 2 then Failed(InvalidIPCAddr)
    else
      match codec.read(parts[1])
      case None => Failed(InvalidAddress)
      case Some(raw) =>
        match ParseSubnet(codec, parts[0])
        case Parsed(id) => Parsed(IPCAddress(id, raw))
        case Failed(e) => Failed(e)
        case Panic => Panic
  }

  // ---------------------------------------------------------------- splitting

  lemma {:induction false} SplitPlain(p: string, sep: char, tail: string)
    requires sep !in p && (tail == [] || tail[0] == sep)
    ensures Split(p + tail, sep) == if tail == [] then [p] else [p] + Split(tail[1..], sep)
    decreases |p|
  {
    if p == [] {
      assert p + tail == tail;
    } else {
      SplitPlain(p[1..], sep, tail);
      SplitLetter(p + tail, sep);
      assert (p + tail)[1..] == p[1..] + tail && (p + tail)[0] == p[0];
      LetterInFront(p, if tail == [] then [] else Split(tail[1..], sep));
    }
  }

  lemma SplitLetter(s: string, sep: char)
    requires s != [] && s[0] != sep
    ensures var rest := Split(s[1..], sep); Split(s, sep) == [[s[0]] + rest[0]] + rest[1..]
  {
  }

  lemma LetterInFront(p: string, more: seq<string>)
    requires p != []
    ensures var rest := [p[1..]] + more; [[p[0]] + rest[0]] + rest[1..] == [p] + more
    ensures [p] + [] == [p] && [p[1..]] + [] == [p[1..]]
  {
    assert [p[0]] + p[1..] == p;
  }

  lemma NoSegments()
    ensures Segments([]) == []
  {
  }

  lemma NonEmptyCons(p: string, rest: seq<string>)
    ensures NonEmpty([p] + rest) == if p == [] then NonEmpty(rest) else [p] + NonEmpty(rest)
  {
  }

  lemma SegmentsCons(p: string, tail: string)
    requires p != [] && '/' !in p && (tail == [] || tail[0] == '/')
    ensures Segments("/" + p + tail) == [p] + Segments(tail)
  {
    var s := "/" + p + tail;
    assert s[0] == '/' && s[1..] == p + tail;
    SplitPlain(p, '/', tail);
    NonEmptyCons([], Split(p + tail, '/'));
    if tail == [] {
      NoSegments();
      NonEmptyCons(p, []);
      assert [p] + [] == [p];
    } else {
      NonEmptyCons(p, Split(tail[1..], '/'));
      NonEmptyCons([], Split(tail[1..], '/'));
    }
  }

  lemma {:induction false} SegmentsOfChildren(codec: Codec, children: seq<Address>)
    requires codec.Faithful()
    ensures ParseChildren(codec, Segments(PrintChildren(codec, children))) == Some(children)
    ensures PrintChildren(codec, children) == [] || PrintChildren(codec, children)[0] == '/'
    ensures ':' !in PrintChildren(codec, children)
    decreases |children|
  {
    if children == [] {
      NoSegments();
    } else {
      SegmentsOfChildren(codec, children[1..]);
      var tail := PrintChildren(codec, children[1..]);
      SegmentsCons(codec.show(children[0]), tail);
      assert ([codec.show(children[0])] + Segments(tail))[1..] == Segments(tail);
      assert [children[0]] + children[1..] == children;
    }
  }

  // ---------------------------------------------------------------- round trips

  /** Parsing undoes printing for every subnet whose root is a u64. */
  lemma SubnetRoundTrip(codec: Codec, id: SubnetID)
    requires codec.Faithful() && id.root < U64_LIMIT
    ensures ParseSubnet(codec, PrintSubnet(codec, id)) == Parsed(id)
  {
    var first, tail := "r" + Decimal.Print(id.root), PrintChildren(codec, id.children);
    SegmentsOfChildren(codec, id.children);
    SegmentsCons(first, tail);
    var segments := [first] + Segments(tail);
    assert segments[1..] == Segments(tail) && first[1..] == Decimal.Print(id.root);
    Decimal.ParseUnsignedUndoesPrint(id.root, U64_LIMIT);
  }

  lemma SubnetTextHasNoColon(codec: Codec, id: SubnetID)
    requires codec.Faithful()
    ensures ':' !in PrintSubnet(codec, id)
  {
    SegmentsOfChildren(codec, id.children);
  }

  lemma IPCAddressRoundTrip(codec: Codec, a: IPCAddress)
    requires codec.Faithful() && a.subnetId.root < U64_LIMIT
    ensures ParseIPCAddress(codec, PrintIPCAddress(codec, a)) == Parsed(a)
  {
    var left, right := PrintSubnet(codec, a.subnetId), codec.show(a.rawAddress);
    SubnetTextHasNoColon(codec, a.subnetId);
    assert PrintIPCAddress(codec, a) == left + (":" + right);
    SplitPlain(left, ':', ":" + right);
    assert (":" + right)[1..] == right == right + [];
    SplitPlain(right, ':', []);
    SubnetRoundTrip(codec, a.subnetId);
  }

  /** Whatever text was accepted, printing the result and parsing again gives the same result. */
  lemma ParsePrintParse(codec: Codec, s: string)
    requires codec.Faithful()
    ensures var r := ParseSubnet(codec, s);
            r.Parsed? ==> ParseSubnet(codec, PrintSubnet(codec, r.value)) == r
    ensures var r := ParseIPCAddress(codec, s);
            r.Parsed? ==> ParseIPCAddress(codec, PrintIPCAddress(codec, r.value)) == r
  {
    if ParseSubnet(codec, s).Parsed? {
      SubnetRoundTrip(codec, ParseSubnet(codec, s).value);
    }
    if ParseIPCAddress(codec, s).Parsed? {
      IPCAddressRoundTrip(codec, ParseIPCAddress(codec, s).value);
    }
  }

  // ---------------------------------------------------------------- what is printed

  function Shown(codec: Codec, children: seq<Address>): (r: seq<string>)
    ensures |r| == |children| && forall i :: 0 <= i < |r| ==> r[i] == codec.show(children[i])
  {
    seq(|children|, i requires 0 <= i < |children| => codec.show(children[i]))
  }

  lemma {:induction false} ChildSegments(codec: Codec, children: seq<Address>)
    requires codec.Faithful()
    ensures Segments(PrintChildren(codec, children)) == Shown(codec, children)
    decreases |children|
  {
    if children == [] {
      NoSegments();
    } else {
      SegmentsOfChildren(codec, children[1..]);
      ChildSegments(codec, children[1..]);
      SegmentsCons(codec.show(children[0]), PrintChildren(codec, children[1..]));
      ShownCons(codec, children);
    }
  }

  lemma ShownCons(codec: Codec, children: seq<Address>)
    requires children != []
    ensures Shown(codec, children) == [codec.show(children[0])] + Shown(codec, children[1..])
  {
  }

  /** A subnet prints as a slash, the letter r and the root, then its children one by one. */
  lemma PrintedForm(codec: Codec, id: SubnetID)
    requires codec.Faithful()
    ensures "/r" <= PrintSubnet(codec, id)
    ensures Segments(PrintSubnet(codec, id)) == ["r" + Decimal.Print(id.root)] + Shown(codec, id.children)
  {
    var first, tail := "r" + Decimal.Print(id.root), PrintChildren(codec, id.children);
    SegmentsOfChildren(codec, id.children);
    ChildSegments(codec, id.children);
    SegmentsCons(first, tail);
    assert PrintSubnet(codec, id)[..2] == "/r";
  }

  /** An address prints as its subnet and its raw address around the one colon. */
  lemma PrintedAddress(codec: Codec, a: IPCAddress)
    requires codec.Faithful()
    ensures Split(PrintIPCAddress(codec, a), ':') == [PrintSubnet(codec, a.subnetId), codec.show(a.rawAddress)]
  {
    var left, right := PrintSubnet(codec, a.subnetId), codec.show(a.rawAddress);
    SubnetTextHasNoColon(codec, a.subnetId);
    assert PrintIPCAddress(codec, a) == left + (":" + right);
    SplitPlain(left, ':', ":" + right);
    assert (":" + right)[1..] == right == right + [];
    SplitPlain(right, ':', []);
  }

  // ---------------------------------------------------------------- what is accepted

  /** Each segment reads as the child at its place. */
  ghost predicate Reads(codec: Codec, segments: seq<string>, children: seq<Address>) {
    |children| == |segments| && forall i :: 0 <= i < |segments| ==> codec.read(segments[i]) == Some(children[i])
  }

  lemma {:induction false} ParseChildrenExactly(codec: Codec, segments: seq<string>)
    ensures ParseChildren(codec, segments).Some? <==> forall i :: 0 <= i < |segments| ==> codec.read(segments[i]).Some?
    ensures ParseChildren(codec, segments).Some? ==> Reads(codec, segments, ParseChildren(codec, segments).value)
    decreases |segments|
  {
    if segments != [] {
      var rest := segments[1..];
      ParseChildrenExactly(codec, rest);
      assert forall i :: 1 <= i < |segments| ==> segments[i] == rest[i - 1];
    }
  }

  /** Unless it panics, the parser accepts a text exactly if what follows the first letter of the first segment
      is a u64 and every later segment is an address; these are then the root and the children. It refuses
      every other text. */
  lemma ParseSubnetExactly(codec: Codec, s: string)
    requires !ParseSubnet(codec, s).Panic?
    ensures var segments := Segments(s);
            var r := ParseSubnet(codec, s);
            && segments != []
            && (r.Parsed? <==>
                  && Decimal.IsUnsigned(segments[0][1..], U64_LIMIT)
                  && forall i :: 1 <= i < |segments| ==> codec.read(segments[i]).Some?)
            && (r.Parsed? ==>
                  && Decimal.ParseUnsigned(segments[0][1..], U64_LIMIT) == Some(r.value.root)
                  && Reads(codec, segments[1..], r.value.children))
            && (!r.Parsed? ==> r == Failed(InvalidID))
  {
    var segments := Segments(s);
    var rest := segments[1..];
    ParseChildrenExactly(codec, rest);
    Decimal.ParseUnsignedExactly(segments[0][1..], U64_LIMIT);
    assert forall i :: 1 <= i < |segments| ==> segments[i] == rest[i - 1];
    assert forall i :: 0 <= i < |rest| ==> rest[i] == segments[i + 1];
  }

  /** An address needs exactly one colon, a raw address after it and a subnet before it, and is refused or
      panics for the first of these reasons that applies. */
  lemma ParseIPCAddressExactly(codec: Codec, s: string)
    ensures var parts := Split(s, ':');
            var r := ParseIPCAddress(codec, s);
            && (r.Parsed? <==> |parts| == 2 && codec.read(parts[1]).Some? && ParseSubnet(codec, parts[0]).Parsed?)
            && (r.Parsed? ==>
                  && codec.read(parts[1]) == Some(r.value.rawAddress)
                  && ParseSubnet(codec, parts[0]) == Parsed(r.value.subnetId))
            && (r == Failed(InvalidIPCAddr) <==> |parts| != 2)
            && (r == Failed(InvalidAddress) <==> |parts| == 2 && codec.read(parts[1]).None?)
            && (r.Panic? <==> |parts| == 2 && codec.read(parts[1]).Some? && ParseSubnet(codec, parts[0]).Panic?)
  {
  }

  // ---------------------------------------------------------------- what the parser overlooks

  lemma {:induction false} SplitAround(a: string, sep: char, b: string)
    ensures Split(a + [sep] + b, sep) == Split(a, sep) + Split(b, sep)
    decreases |a|
  {
    var s := a + [sep] + b;
    if a == [] {
      assert s[1..] == b;
    } else {
      var rest, more := Split(a[1..], sep), Split(b, sep);
      assert Split(s[1..], sep) == rest + more by {
        SplitAround(a[1..], sep, b);
        assert s[1..] == a[1..] + [sep] + b;
      }
      HeadOfConcat(rest, more, a[0]);
    }
  }

  lemma HeadOfConcat(rest: seq<string>, more: seq<string>, c: char)
    requires rest != []
    ensures [[]] + (rest + more) == ([[]] + rest) + more
    ensures [[c] + (rest + more)[0]] + (rest + more)[1..] == ([[c] + rest[0]] + rest[1..]) + more
  {
  }

  lemma {:induction false} NonEmptyConcat(a: seq<string>, b: seq<string>)
    ensures NonEmpty(a + b) == NonEmpty(a) + NonEmpty(b)
    decreases |a|
  {
    if a == [] {
      assert a + b == b;
    } else {
      NonEmptyConcat(a[1..], b);
      assert (a + b)[1..] == a[1..] + b;
    }
  }

  lemma SegmentsAround(a: string, b: string)
    ensures Segments(a + "/" + b) == Segments(a) + Segments(b)
  {
    SplitAround(a, '/', b);
    NonEmptyConcat(Split(a, '/'), Split(b, '/'));
  }

  /** Doubling a slash anywhere, or adding one at either end, does not change what the text denotes. */
  lemma SlashesDoNotMatter(codec: Codec, a: string, b: string)
    ensures ParseSubnet(codec, a + "/" + ("/" + b)) == ParseSubnet(codec, a + "/" + b)
    ensures ParseSubnet(codec, a + "/" + []) == ParseSubnet(codec, a)
    ensures ParseSubnet(codec, [] + "/" + b) == ParseSubnet(codec, b)
  {
    DoubledSlash(a, b);
    EdgeSlash(a);
    EdgeSlash(b);
  }

  lemma DoubledSlash(a: string, b: string)
    ensures Segments(a + "/" + ("/" + b)) == Segments(a + "/" + b)
  {
    EdgeSlash(b);
    assert [] + "/" + b == "/" + b;
    SegmentsAround(a, "/" + b);
    SegmentsAround(a, b);
  }

  lemma EdgeSlash(a: string)
    ensures Segments(a + "/" + []) == Segments(a) && Segments([] + "/" + a) == Segments(a)
  {
    NoSegments();
    SegmentsAround(a, []);
    SegmentsAround([], a);
    assert Segments(a) + [] == Segments(a);
  }

  /** The letter in front of the root id is never looked at: any one-byte character will do. */
  lemma RootLetterDoesNotMatter(codec: Codec, letter: char, letter': char, rest: string, tail: string)
    requires letter as int < 128 && letter' as int < 128 && letter != '/' && letter' != '/'
    requires '/' !in rest && (tail == [] || tail[0] == '/')
    ensures ParseSubnet(codec, "/" + ([letter] + rest) + tail) == ParseSubnet(codec, "/" + ([letter'] + rest) + tail)
  {
    SegmentsCons([letter] + rest, tail);
    SegmentsCons([letter'] + rest, tail);
    assert ([letter] + rest)[1..] == ([letter'] + rest)[1..];
    assert ([[letter] + rest] + Segments(tail))[1..] == ([[letter'] + rest] + Segments(tail))[1..];
  }

  /** The parser panics exactly on text made of slashes only, or whose first segment starts with a
      multi-byte character. */
  lemma ParserPanicsExactly(codec: Codec, s: string)
    ensures ParseSubnet(codec, s).Panic? <==>
            (forall i :: 0 <= i < |s| ==> s[i] == '/') || (Segments(s) != [] && 128 <= Segments(s)[0][0] as int)
  {
    NoSegmentsExactly(s);
  }

  lemma {:induction false} NoSegmentsExactly(s: string)
    ensures Segments(s) == [] <==> forall i :: 0 <= i < |s| ==> s[i] == '/'
    decreases |s|
  {
    if s != [] {
      NoSegmentsExactly(s[1..]);
      if s[0] == '/' {
        assert Split(s, '/')[1..] == Split(s[1..], '/');
        assert forall i :: 0 < i < |s| ==> s[i] == s[1..][i - 1];
      }
    }
  }
}
