/**
 * Percent-encoding of strings (section 2.1 of RFC 3986) with the escaped octets read as UTF-8
 * (section 3 of RFC 3629), as the JavaScript built-ins `decodeURIComponent` and
 * `encodeURIComponent` perform it. Strings are sequences of Unicode scalar values.
 */
module PercentCoding {
  import opened Wrappers

  type Byte = b: int | 0 <= b < 0x100

  /** The `URIError` that `decodeURIComponent` throws on a malformed escape. */
  datatype UriError = MalformedUri

  predicate IsHexDigit(c: char) {
    '0' <= c <= '9' || 'A' <= c <= 'F' || 'a' <= c <= 'f'
  }

  function HexValue(c: char): (v: nat)
    requires IsHexDigit(c)
    ensures v < 16
  {
    if c <= '9' then c as int - '0' as int
    else if c <= 'F' then c as int - 'A' as int + 10
    else c as int - 'a' as int + 10
  }

  /** The upper-case hexadecimal digit `encodeURIComponent` writes for `v`. */
  function HexDigit(v: nat): (c: char)
    requires v < 16
    ensures IsHexDigit(c) && HexValue(c) == v
    ensures c != '%'
  {
    if v < 10 then ('0' as int + v) as char else ('A' as int + v - 10) as char
  }

  // ---------------------------------------------------------------- UTF-8

  predicate IsContinuation(b: Byte) {
    0x80 <= b < 0xC0
  }

  /**
   * The number of octets of the UTF-8 sequence that leading octet `b` announces, and 0 when
   * `b` cannot lead one (a continuation octet, or five or more leading one bits).
   */
  function SequenceLength(b: Byte): (n: nat)
    ensures n <= 4
    ensures n == 1 <==> b < 0x80
  {
    if b < 0x80 then 1
    else if b < 0xC0 then 0
    else if b < 0xE0 then 2
    else if b < 0xF0 then 3
    else if b < 0xF8 then 4
    else 0
  }

  /** The UTF-8 encoding of one scalar value. */
  function Utf8Encode(c: char): (bs: seq<Byte>)
    ensures 1 <= |bs| <= 4 && SequenceLength(bs[0]) == |bs|
    ensures forall k :: 1 <= k < |bs| ==> IsContinuation(bs[k])
    ensures |bs| == 1 <==> c as int < 0x80
  {
    var v := c as int;
    if v < 0x80 then [v]
    else if v < 0x800 then [0xC0 + v / 0x40, 0x80 + v % 0x40]
    else if v < 0x1_0000 then [0xE0 + v / 0x1000, 0x80 + v / 0x40 % 0x40, 0x80 + v % 0x40]
    else [0xF0 + v / 0x4_0000, 0x80 + v / 0x1000 % 0x40, 0x80 + v / 0x40 % 0x40, 0x80 + v % 0x40]
  }

  /**
   * The scalar value a multi-octet UTF-8 sequence encodes, or None when the sequence is an
   * overlong form, a surrogate or beyond U+10FFFF (none of which is valid UTF-8).
   */
  function Utf8Decode(bs: seq<Byte>): (r: Option<char>)
    requires 2 <= |bs| <= 4 && SequenceLength(bs[0]) == |bs|
    requires forall k :: 1 <= k < |bs| ==> IsContinuation(bs[k])
  {
    var v: int :=
      if |bs| == 2 then (bs[0] as int - 0xC0) * 0x40 + (bs[1] as int - 0x80)
      else if |bs| == 3 then (bs[0] as int - 0xE0) * 0x1000 + (bs[1] as int - 0x80) * 0x40 + (bs[2] as int - 0x80)
      else (bs[0] as int - 0xF0) * 0x4_0000 + (bs[1] as int - 0x80) * 0x1000 + (bs[2] as int - 0x80) * 0x40 + (bs[3] as int - 0x80);
    var least: int := if |bs| == 2 then 0x80 else if |bs| == 3 then 0x800 else 0x1_0000;
    if v < least || (0xD800 <= v < 0xE000) || v > 0x10_FFFF then None else Some(v as char)
  }

  // ---------------------------------------------------------------- decoding

  /** Reads `n` escapes `%HH` from the start of `s`; None unless all of them are well formed. */
  function ReadOctets(s: string, n: nat): (r: Option<seq<Byte>>)
    ensures r.Some? ==> |r.value| == n && 3 * n <= |s|
  {
    if n == 0 then Some([])
    else if |s| < 3 || s[0] != '%' || !IsHexDigit(s[1]) || !IsHexDigit(s[2]) then None
    else
      match ReadOctets(s[3..], n - 1)
      case None => None
      case Some(rest) => Some([16 * HexValue(s[1]) + HexValue(s[2])] + rest)
  }

  /**
   * Decodes the escape group at the start of `s`: one escape for an ASCII octet, or the
   * two to four escapes of one UTF-8 sequence. Gives the character and the number of
   * characters of `s` it spans.
   */
  function DecodeEscape(s: string): (r: Result<(char, nat), UriError>)
    requires s != [] && s[0] == '%'
    ensures r.Ok? ==> 3 <= r.value.1 <= |s|
  {
    match ReadOctets(s, 1)
    case None => Err(MalformedUri)
    case Some(first) =>
      var n := SequenceLength(first[0]);
      if n == 0 then Err(MalformedUri)
      else if n == 1 then Ok((first[0] as char, 3))
      else
        match ReadOctets(s, n)
        case None => Err(MalformedUri)
        case Some(bs) =>
          if exists k :: 1 <= k < n && !IsContinuation(bs[k]) then Err(MalformedUri)
          else
            match Utf8Decode(bs)
            case None => Err(MalformedUri)
            case Some(c) => Ok((c, 3 * n))
  }

  function Prepend(c: char, r: Result<string, UriError>): Result<string, UriError> {
    match r
    case Ok(t) => Ok([c] + t)
    case Err(e) => Err(e)
  }

  /**
   * `decodeURIComponent`: every escape group is replaced by the character it encodes and
   * every other character, `+` included, is kept; a malformed escape throws.
   */
  function Decode(s: string): (r: Result<string, UriError>)
    ensures r.Ok? ==> |r.value| <= |s| && (|r.value| == 0 <==> |s| == 0)
    decreases |s|
  {
    if s == [] then Ok([])
    else if s[0] != '%' then Prepend(s[0], Decode(s[1..]))
    else
      match DecodeEscape(s)
      case Err(e) => Err(e)
      case Ok((c, n)) => Prepend(c, Decode(s[n..]))
  }

  // ---------------------------------------------------------------- encoding

  /** The characters `encodeURIComponent` leaves as they are. */
  predicate IsUnreserved(c: char) {
    || 'A' <= c <= 'Z' || 'a' <= c <= 'z' || '0' <= c <= '9'
    || c == '-' || c == '_' || c == '.' || c == '!' || c == '~' || c == '*'
    || c == '\'' || c == '(' || c == ')'
  }

  function EscapeOctets(bs: seq<Byte>): (r: string)
    ensures |r| == 3 * |bs|
    ensures forall k :: 0 <= k < |r| ==> r[k] == '%' || IsHexDigit(r[k])
  {
    if bs == [] then []
    else ['%', HexDigit(bs[0] / 16), HexDigit(bs[0] % 16)] + EscapeOctets(bs[1..])
  }

  function EncodeChar(c: char): string {
    if IsUnreserved(c) then [c] else EscapeOctets(Utf8Encode(c))
  }

  /** `encodeURIComponent`: every character outside the unreserved set becomes its UTF-8 escapes. */
  function Encode(t: string): (r: string)
    ensures |t| <= |r|
    ensures forall k :: 0 <= k < |r| ==> IsUnreserved(r[k]) || r[k] == '%' || IsHexDigit(r[k])
  {
    if t == [] then [] else EncodeChar(t[0]) + Encode(t[1..])
  }

  // ---------------------------------------------------------------- properties

  lemma DivMod64(v: int, q: int, r: int)
    requires v == q * 0x40 + r && 0 <= r < 0x40
    ensures v / 0x40 == q && v % 0x40 == r
  {
  }

  lemma DivDiv64(v: nat)
    ensures v / 0x1000 == v / 0x40 / 0x40
    ensures v / 0x4_0000 == v / 0x1000 / 0x40
  {
    DivMod64(v / 0x40, v / 0x1000, v / 0x40 % 0x40);
  }

  /** Decoding the UTF-8 encoding of a non-ASCII character gives the character back. */
  lemma Utf8RoundTrip(c: char)
    requires c as int >= 0x80
    ensures Utf8Decode(Utf8Encode(c)) == Some(c)
  {
    var v := c as int;
    DivDiv64(v);
    DivMod64(v, v / 0x40, v % 0x40);
    DivMod64(v / 0x40, v / 0x1000, v / 0x40 % 0x40);
    DivMod64(v / 0x1000, v / 0x4_0000, v / 0x1000 % 0x40);
  }

  /** A valid UTF-8 sequence is the one and only encoding of the character it decodes to. */
  lemma Utf8DecodeIsInverse(bs: seq<Byte>, c: char)
    requires 2 <= |bs| <= 4 && SequenceLength(bs[0]) == |bs|
    requires forall k :: 1 <= k < |bs| ==> IsContinuation(bs[k])
    requires Utf8Decode(bs) == Some(c)
    ensures Utf8Encode(c) == bs
  {
    var v := c as int;
    var b0, b1 := bs[0] as int, bs[1] as int;
    DivDiv64(v);
    if |bs| == 2 {
      DivMod64(v, b0 - 0xC0, b1 - 0x80);
      assert Utf8Encode(c) == [b0, b1];
    } else if |bs| == 3 {
      var b2 := bs[2] as int;
      var q := (b0 - 0xE0) * 0x40 + (b1 - 0x80);
      DivMod64(v, q, b2 - 0x80);
      DivMod64(q, b0 - 0xE0, b1 - 0x80);
      assert Utf8Encode(c) == [b0, b1, b2];
    } else {
      var b2, b3 := bs[2] as int, bs[3] as int;
      var q1 := (b0 - 0xF0) * 0x40 + (b1 - 0x80);
      var q := q1 * 0x40 + (b2 - 0x80);
      DivMod64(v, q, b3 - 0x80);
      DivMod64(q, q1, b2 - 0x80);
      DivMod64(q1, b0 - 0xF0, b1 - 0x80);
      assert Utf8Encode(c) == [b0, b1, b2, b3];
    }
  }

  /** Reading `k` escapes back from escaped octets gives the first `k` octets. */
  lemma {:induction false} ReadEscapedOctets(bs: seq<Byte>, rest: string, k: nat)
    requires k <= |bs|
    ensures ReadOctets(EscapeOctets(bs) + rest, k) == Some(bs[..k])
  {
    if k > 0 {
      var b := bs[0];
      var hi, lo := HexDigit(b / 16), HexDigit(b % 16);
      var s := EscapeOctets(bs) + rest;
      assert s == ['%', hi, lo] + (EscapeOctets(bs[1..]) + rest);
      assert s[0] == '%' && s[1] == hi && s[2] == lo;
      assert 16 * HexValue(hi) + HexValue(lo) == b;
      assert s[3..] == EscapeOctets(bs[1..]) + rest;
      ReadEscapedOctets(bs[1..], rest, k - 1);
      assert bs[..k] == [bs[0]] + bs[1..][..k - 1];
    }
  }

  /** Decoding the encoding of one character, followed by anything, yields that character first. */
  lemma DecodeEncodeChar(c: char, rest: string)
    ensures Decode(EncodeChar(c) + rest) == Prepend(c, Decode(rest))
  {
    var s := EncodeChar(c) + rest;
    if IsUnreserved(c) {
      assert s[0] == c && s[1..] == rest;
    } else {
      var bs := Utf8Encode(c);
      var n := |bs|;
      assert s == EscapeOctets(bs) + rest;
      ReadEscapedOctets(bs, rest, 1);
      ReadEscapedOctets(bs, rest, n);
      assert bs[..n] == bs;
      if n > 1 {
        Utf8RoundTrip(c);
      }
      assert DecodeEscape(s) == Ok((c, 3 * n));
      assert s[3 * n..] == rest;
    }
  }

  /** Round trip: `decodeURIComponent(encodeURIComponent(t)) == t`. */
  lemma {:induction false} DecodeEncode(t: string)
    ensures Decode(Encode(t)) == Ok(t)
  {
    if t != [] {
      DecodeEncodeChar(t[0], Encode(t[1..]));
      DecodeEncode(t[1..]);
      assert [t[0]] + t[1..] == t;
    }
  }

  /** Text without `%` decodes to itself; in particular `+` is not turned into a space. */
  lemma {:induction false} DecodeWithoutEscapes(s: string)
    requires '%' !in s
    ensures Decode(s) == Ok(s)
  {
    if s != [] {
      assert '%' !in s[1..];
      DecodeWithoutEscapes(s[1..]);
      assert [s[0]] + s[1..] == s;
    }
  }

  /** A prefix without `%` is copied and the rest is decoded as if on its own, errors included. */
  lemma {:induction false} DecodePlainPrefix(p: string, q: string)
    requires '%' !in p
    ensures Decode(p + q) == (match Decode(q) case Ok(t) => Ok(p + t) case Err(e) => Err(e))
  {
    if p != [] {
      assert (p + q)[0] == p[0] && (p + q)[1..] == p[1..] + q;
      assert '%' !in p[1..];
      DecodePlainPrefix(p[1..], q);
      assert [p[0]] + p[1..] == p;
      match Decode(q)
      case Ok(t) => assert [p[0]] + (p[1..] + t) == p + t;
      case Err(e) =>
    } else {
      assert p + q == q;
      match Decode(q)
      case Ok(t) => assert p + t == t;
      case Err(e) =>
    }
  }

  /** Reading escapes does not look past the escapes it reads. */
  lemma {:induction false} ReadOctetsAppend(s: string, n: nat, t: string)
    requires ReadOctets(s, n).Some?
    ensures ReadOctets(s + t, n) == ReadOctets(s, n)
  {
    if n > 0 {
      assert (s + t)[..3] == s[..3] && (s + t)[3..] == s[3..] + t;
      ReadOctetsAppend(s[3..], n - 1, t);
    }
  }

  /** An escape group that decodes on its own decodes the same way whatever follows it. */
  lemma DecodeEscapeAppend(s: string, t: string)
    requires s != [] && s[0] == '%'
    requires DecodeEscape(s).Ok?
    ensures DecodeEscape(s + t) == DecodeEscape(s)
  {
    ReadOctetsAppend(s, 1, t);
    var n := SequenceLength(ReadOctets(s, 1).value[0]);
    if n > 1 {
      ReadOctetsAppend(s, n, t);
    }
  }

  /** The first character of a prefix that decodes is decoded the same way whatever follows. */
  lemma DecodeFirstGroup(p: string, q: string) returns (c: char, n: nat)
    requires p != [] && Decode(p).Ok?
    ensures 1 <= n <= |p|
    ensures Decode(p) == Prepend(c, Decode(p[n..]))
    ensures Decode(p + q) == Prepend(c, Decode(p[n..] + q))
  {
    if p[0] != '%' {
      n, c := 1, p[0];
    } else {
      DecodeEscapeAppend(p, q);
      n, c := DecodeEscape(p).value.1, DecodeEscape(p).value.0;
    }
    assert (p + q)[0] == p[0] && (p + q)[n..] == p[n..] + q;
  }

  /** `u` followed by the decoded rest, or the error decoding the rest threw. */
  function PrependAll(u: string, r: Result<string, UriError>): Result<string, UriError> {
    match r
    case Ok(t) => Ok(u + t)
    case Err(e) => Err(e)
  }

  lemma PrependPrependAll(c: char, u: string, r: Result<string, UriError>)
    ensures Prepend(c, PrependAll(u, r)) == PrependAll([c] + u, r)
  {
    match r
    case Ok(t) => assert [c] + (u + t) == ([c] + u) + t;
    case Err(e) =>
  }

  /**
   * A prefix that decodes without error is decoded on its own and the rest decodes as if on
   * its own, errors included: decoding is compositional across escape groups.
   */
  lemma {:induction false} DecodeOkPrefix(p: string, q: string)
    requires Decode(p).Ok?
    ensures Decode(p + q) == PrependAll(Decode(p).value, Decode(q))
    decreases |p|
  {
    if p == [] {
      assert p + q == q;
      match Decode(q)
      case Ok(t) => assert [] + t == t;
      case Err(e) =>
    } else {
      var c, n := DecodeFirstGroup(p, q);
      DecodeOkPrefix(p[n..], q);
      PrependPrependAll(c, Decode(p[n..]).value, Decode(q));
    }
  }

  /**
   * One escape group, in either case of hexadecimal digit, that spells the UTF-8 octets of
   * `c` decodes to `c`, and the rest of the string decodes on its own.
   */
  lemma DecodeEscapedChar(c: char, q: string)
    requires ReadOctets(q, |Utf8Encode(c)|) == Some(Utf8Encode(c))
    ensures Decode(q) == Prepend(c, Decode(q[3 * |Utf8Encode(c)|..]))
  {
    var bs := Utf8Encode(c);
    ReadFirstOctet(q, |bs|);
    if |bs| > 1 {
      Utf8RoundTrip(c);
    }
    assert DecodeEscape(q) == Ok((c, 3 * |bs|));
  }

  /** A `%` not followed by two hexadecimal digits makes decoding throw. */
  lemma TruncatedEscapeThrows(p: string, q: string)
    requires Decode(p).Ok?
    requires q != [] && q[0] == '%'
    requires |q| < 3 || !IsHexDigit(q[1]) || !IsHexDigit(q[2])
    ensures Decode(p + q) == Err(MalformedUri)
  {
    DecodeOkPrefix(p, q);
  }

  lemma ReadOneOctet(q: string)
    requires |q| >= 3 && q[0] == '%' && IsHexDigit(q[1]) && IsHexDigit(q[2])
    ensures ReadOctets(q, 1) == Some([16 * HexValue(q[1]) + HexValue(q[2])])
  {
    var b := 16 * HexValue(q[1]) + HexValue(q[2]);
    assert ReadOctets(q[3..], 0) == Some([]);
    assert [b] + [] == [b];
  }

  /** An escape group whose first octet cannot lead a UTF-8 sequence makes decoding throw. */
  lemma BadLeadingOctetThrows(p: string, q: string)
    requires Decode(p).Ok?
    requires |q| >= 3 && q[0] == '%' && IsHexDigit(q[1]) && IsHexDigit(q[2])
    requires SequenceLength(16 * HexValue(q[1]) + HexValue(q[2])) == 0
    ensures Decode(p + q) == Err(MalformedUri)
  {
    DecodeOkPrefix(p, q);
    ReadOneOctet(q);
  }

  /**
   * A UTF-8 leading octet whose continuation escapes are missing, malformed or not
   * continuation octets (`%E2%82`, `%C3x%41`, `%C3%41`) makes decoding throw.
   */
  lemma MissingContinuationThrows(p: string, q: string)
    requires Decode(p).Ok?
    requires |q| >= 3 && q[0] == '%' && IsHexDigit(q[1]) && IsHexDigit(q[2])
    requires SequenceLength(16 * HexValue(q[1]) + HexValue(q[2])) >= 2
    requires var n := SequenceLength(16 * HexValue(q[1]) + HexValue(q[2]));
      ReadOctets(q, n).None? || exists k :: 1 <= k < n && !IsContinuation(ReadOctets(q, n).value[k])
    ensures Decode(p + q) == Err(MalformedUri)
  {
    DecodeOkPrefix(p, q);
    ReadOneOctet(q);
  }

  /** Reading several escapes starts by reading the first of them. */
  lemma ReadFirstOctet(q: string, n: nat)
    requires n >= 1 && ReadOctets(q, n).Some?
    ensures ReadOctets(q, 1) == Some([ReadOctets(q, n).value[0]])
  {
    ReadOneOctet(q);
  }

  /**
   * Escapes, in either case of hexadecimal digit, whose octets are shaped like a UTF-8
   * sequence but are not valid UTF-8 (an overlong form, a surrogate, a value beyond
   * U+10FFFF) make decoding throw.
   */
  lemma InvalidUtf8Throws(p: string, q: string, bs: seq<Byte>)
    requires Decode(p).Ok?
    requires 2 <= |bs| <= 4 && SequenceLength(bs[0]) == |bs|
    requires forall k :: 1 <= k < |bs| ==> IsContinuation(bs[k])
    requires Utf8Decode(bs) == None
    requires ReadOctets(q, |bs|) == Some(bs)
    ensures Decode(p + q) == Err(MalformedUri)
  {
    DecodeOkPrefix(p, q);
    ReadFirstOctet(q, |bs|);
  }

  /** For instance the lower-case escapes `%ed%a0%80` of the surrogate U+D800. */
  lemma EscapedSurrogateThrows()
    ensures Decode("%ed%a0%80") == Err(MalformedUri)
  {
    var q := "%ed%a0%80";
    var bs: seq<Byte> := [0xED, 0xA0, 0x80];
    assert q[3..] == "%a0%80" && q[3..][3..] == "%80";
    ReadOneOctet("%80");
    assert ReadOctets(q[3..], 2) == Some([0xA0] + [0x80]);
    assert ReadOctets(q, 3) == Some([0xED] + ([0xA0] + [0x80]));
    assert [0xED] + ([0xA0] + [0x80]) == bs;
    InvalidUtf8Throws([], q, bs);
    assert [] + q == q;
  }
}
