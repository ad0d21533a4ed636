/**
 * Percent-encoding of query keys and values (section 2.1 of RFC 3986):
 * unreserved characters stand for themselves, every other character is
 * replaced by a "%" HEXDIG HEXDIG triplet for each octet of its UTF-8 form.
 */
module PercentEncoding {
  import opened Wrappers
  import opened Utf8

  /** The unreserved characters of section 2.3 of RFC 3986. */
  predicate IsUnreserved(c: char) {
    || 'A' <= c <= 'Z' || 'a' <= c <= 'z' || '0' <= c <= '9'
    || c == '-' || c == '.' || c == '_' || c == '~'
  }

  predicate IsHexDigit(c: char) {
    '0' <= c <= '9' || 'A' <= c <= 'F' || 'a' <= c <= 'f'
  }

  /** The upper-case hexadecimal digit for `n`, as section 2.1 of RFC 3986 recommends for producers. */
  function HexDigit(n: nat): (c: char)
    requires n < 16
    ensures IsHexDigit(c) && IsUnreserved(c)
  {
    if n < 10 then ('0' as int + n) as char else ('A' as int + n - 10) as char
  }

  /** The value of a hexadecimal digit; upper and lower case are equivalent. */
  function HexValue(c: char): (n: nat)
    requires IsHexDigit(c)
    ensures n < 16
  {
    if '0' <= c <= '9' then c as int - '0' as int
    else if 'A' <= c <= 'F' then c as int - 'A' as int + 10
    else c as int - 'a' as int + 10
  }

  /** One octet as a percent-encoded triplet. */
  function EncodeOctet(b: byte): string {
    ['%', HexDigit(b as int / 16), HexDigit(b as int % 16)]
  }

  function EncodeOctets(bs: seq<byte>): (r: string)
    ensures |r| == 3 * |bs|
    ensures forall i | 0 <= i < |r| :: IsUnreserved(r[i]) || r[i] == '%'
  {
    if bs == [] then "" else EncodeOctet(bs[0]) + EncodeOctets(bs[1..])
  }

  function EncodeChar(c: char): (r: string)
    ensures |r| == 1 <==> IsUnreserved(c)
    ensures forall i | 0 <= i < |r| :: IsUnreserved(r[i]) || r[i] == '%'
  {
    if IsUnreserved(c) then [c] else EncodeOctets(EncodeScalar(c))
  }

  /**
   * The percent-encoded form of `s`: only unreserved characters and "%" remain,
   * so it holds none of the delimiters "&" and "=" a query string is split on.
   * It is as long as `s` exactly when `s` needed no escaping.
   */
  function Encode(s: string): (r: string)
    ensures forall i | 0 <= i < |r| :: IsUnreserved(r[i]) || r[i] == '%'
    ensures |r| >= |s|
    ensures |r| == |s| <==> forall i | 0 <= i < |s| :: IsUnreserved(s[i])
  {
    if s == [] then ""
    else
      assert (forall i | 0 <= i < |s| :: IsUnreserved(s[i])) <==>
             IsUnreserved(s[0]) && forall i | 0 <= i < |s[1..]| :: IsUnreserved(s[1..][i]) by {
        if IsUnreserved(s[0]) && forall i | 0 <= i < |s[1..]| :: IsUnreserved(s[1..][i]) {
          forall i | 0 <= i < |s| ensures IsUnreserved(s[i]) {
            if i > 0 { assert s[i] == s[1..][i - 1]; }
          }
        }
      }
      EncodeChar(s[0]) + Encode(s[1..])
  }

  /** A string made only of unreserved characters is its own encoding. */
  lemma {:induction false} EncodeUnreservedIsIdentity(s: string)
    requires forall i | 0 <= i < |s| :: IsUnreserved(s[i])
    ensures Encode(s) == s
  {
    if s != [] {
      assert forall i | 0 <= i < |s[1..]| :: s[1..][i] == s[i + 1];
      EncodeUnreservedIsIdentity(s[1..]);
      assert s == [s[0]] + s[1..];
    }
  }

  function Prepend(bs: seq<byte>, r: Option<seq<byte>>): Option<seq<byte>> {
    match r
    case None => None
    case Some(rest) => Some(bs + rest)
  }

  /**
   * The octets a percent-encoded string stands for: a triplet gives its octet,
   * any other character its UTF-8 octets. A "%" not followed by two
   * hexadecimal digits makes the string malformed.
   */
  function Decode(s: string): Option<seq<byte>>
    decreases |s|
  {
    if s == [] then Some([])
    else if s[0] == '%' then
      if 3 <= |s| && IsHexDigit(s[1]) && IsHexDigit(s[2]) then
        Prepend([(HexValue(s[1]) * 16 + HexValue(s[2])) as byte], Decode(s[3..]))
      else None
    else Prepend(EncodeScalar(s[0]), Decode(s[1..]))
  }

  lemma DecodeOctet(b: byte, rest: string)
    ensures Decode(EncodeOctet(b) + rest) == Prepend([b], Decode(rest))
  {
    var t := EncodeOctet(b) + rest;
    var hi, lo := b as int / 16, b as int % 16;
    assert HexValue(HexDigit(hi)) == hi && HexValue(HexDigit(lo)) == lo;
    assert t[0] == '%' && t[1] == HexDigit(hi) && t[2] == HexDigit(lo) && t[3..] == rest;
  }

  lemma {:induction false} DecodeOctets(bs: seq<byte>, rest: string)
    ensures Decode(EncodeOctets(bs) + rest) == Prepend(bs, Decode(rest))
  {
    if bs == [] {
      assert EncodeOctets(bs) + rest == rest;
      match Decode(rest)
      case None =>
      case Some(t) => assert bs + t == t;
    } else {
      assert EncodeOctets(bs) + rest == EncodeOctet(bs[0]) + (EncodeOctets(bs[1..]) + rest);
      DecodeOctet(bs[0], EncodeOctets(bs[1..]) + rest);
      DecodeOctets(bs[1..], rest);
      match Decode(rest)
      case None =>
      case Some(t) => assert [bs[0]] + (bs[1..] + t) == bs + t;
    }
  }

  lemma DecodeChar(c: char, rest: string)
    ensures Decode(EncodeChar(c) + rest) == Prepend(EncodeScalar(c), Decode(rest))
  {
    if IsUnreserved(c) {
      assert ([c] + rest)[1..] == rest;
    } else {
      DecodeOctets(EncodeScalar(c), rest);
    }
  }

  /** Decoding an encoded string recovers exactly the UTF-8 octets of the original. */
  lemma {:induction false} DecodeEncode(s: string)
    ensures Decode(Encode(s)) == Some(Utf8.Encode(s))
  {
    if s != [] {
      DecodeChar(s[0], Encode(s[1..]));
      DecodeEncode(s[1..]);
    }
  }
}
