/** Bytes and their hexadecimal text. */
module Bytes {
  import opened Wrappers

  type Byte = b: int | 0 <= b < 256

  function HexDigit(n: nat): char
    requires n < 16
  {
    if n < 10 then ('0' as int + n) as char else ('a' as int + n - 10) as char
  }

  /** Both letter cases are read. */
  function HexValue(c: char): Option<nat> {
    if '0' <= c <= '9' then Some(c as int - '0' as int)
    else if 'a' <= c <= 'f' then Some(c as int - 'a' as int + 10)
    else if 'A' <= c <= 'F' then Some(c as int - 'A' as int + 10)
    else None
  }

  function HexEncode(bytes: seq<Byte>): string {
    if bytes == [] then []
    else [HexDigit(bytes[0] / 16), HexDigit(bytes[0] % 16)] + HexEncode(bytes[1..])
  }

  /** Fails on an odd number of digits and on anything that is not a digit. */
  function HexDecode(s: string): Option<seq<Byte>> {
    if s == [] then Some([])
    else if |s| == 1 then None
    else
      match (HexValue(s[0]), HexValue(s[1]), HexDecode(s[2..]))
      case (Some(high), Some(low), Some(rest)) =>
        if high * 16 + low < 256 then Some([high * 16 + low] + rest) else None
      case _ => None
  }

  /** Two digits a byte, high one first, in lower case. */
  lemma {:induction false} HexText(bytes: seq<Byte>, i: nat)
    requires i < |bytes|
    ensures |HexEncode(bytes)| == 2 * |bytes|
    ensures var high, low := HexEncode(bytes)[2 * i], HexEncode(bytes)[2 * i + 1];
            && HexValue(high).Some? && HexValue(low).Some? && !('A' <= high <= 'F') && !('A' <= low <= 'F')
            && HexValue(high).value * 16 + HexValue(low).value == bytes[i]
    decreases |bytes|
  {
    if |bytes| > 1 {
      HexText(bytes[1..], if i == 0 then 0 else i - 1);
    }
    var s := HexEncode(bytes);
    assert s == [HexDigit(bytes[0] / 16), HexDigit(bytes[0] % 16)] + HexEncode(bytes[1..]);
  }

  /** Exactly the texts with an even number of digits, and nothing else in them, decode. */
  lemma {:induction false} HexDecodesExactly(s: string)
    ensures HexDecode(s).Some? <==> |s| % 2 == 0 && forall i :: 0 <= i < |s| ==> HexValue(s[i]).Some?
    decreases |s|
  {
    if 2 <= |s| {
      var rest := s[2..];
      HexDecodesExactly(rest);
      assert forall i :: 2 <= i < |s| ==> s[i] == rest[i - 2];
    }
  }

  lemma {:induction false} HexRoundTrip(bytes: seq<Byte>)
    ensures HexDecode(HexEncode(bytes)) == Some(bytes)
    decreases |bytes|
  {
    if bytes != [] {
      HexRoundTrip(bytes[1..]);
      var s := HexEncode(bytes);
      assert s[2..] == HexEncode(bytes[1..]);
      assert [bytes[0]] + bytes[1..] == bytes;
    }
  }
}
