/** Percent-encoding as the share-link builder's `url_encode` performs it
    (lines 98-115): the unreserved characters of section 2.3 of RFC 3986
    pass through, every other byte becomes `%` and two upper-case
    hexadecimal digits (section 2.1 of RFC 3986). A strict percent-decoder
    is its partner: the two are inverse to each other on all inputs. Line
    numbers refer to `api_usage/compression.cpp`. */
module UrlEncoding {
  import opened Bytes

  /** A value of one hexadecimal digit. */
  type nibble = d: int | 0 <= d < 16

  const Percent: byte := Code('%')

  /** The digit table of lines 110-111. */
  const HexDigits: seq<byte> := Ascii("0123456789ABCDEF")

  /** Line 103: `isalnum(c)`, `-`, `_`, `.` or `~`, the unreserved set of
      section 2.3 of RFC 3986. */
  predicate IsUnreserved(c: byte)
  {
    IsAlnum(c) || c == Code('-') || c == Code('_') || c == Code('.') || c == Code('~')
  }

  /** The value of an upper-case hexadecimal digit; None for any other byte. */
  function HexValue(b: byte): (d: Option<nibble>)
  {
    if IsDigit(b) then Some(b - Code('0'))
    else if Code('A') <= b <= Code('F') then Some(b - Code('A') + 10)
    else None
  }

  /** The upper-case hexadecimal digit of a value. */
  function HexDigit(d: nibble): (b: byte)
  {
    if d < 10 then Code('0') + d else Code('A') + (d - 10)
  }

  // The table agrees with `HexDigit` on the decimal digits and on the letters.
  lemma HexDigitsDecimal(d: nibble)
    requires d < 10
    ensures HexDigits[d] == HexDigit(d)
  {
    assert "0123456789ABCDEF"[d] == "0123456789"[d];
  }

  lemma HexDigitsLetters(d: nibble)
    requires 10 <= d
    ensures HexDigits[d] == HexDigit(d)
  {
  }

  /** The source's digit table holds `0-9` then `A-F`. */
  lemma HexDigitsTable()
    ensures |HexDigits| == 16
    ensures forall d: nibble :: HexDigits[d] == HexDigit(d)
  {
    forall d: nibble ensures HexDigits[d] == HexDigit(d) {
      if d < 10 {
        HexDigitsDecimal(d);
      } else {
        HexDigitsLetters(d);
      }
    }
  }

  /** Upper-case hexadecimal digits are a bijection with their values, and
      every digit is itself unreserved. */
  lemma HexValueInverse(b: byte, d: nibble)
    ensures HexValue(b) == Some(d) <==> HexDigit(d) == b
    ensures IsUnreserved(HexDigit(d))
  {
  }

  /** Lines 103-112 for one byte: an unreserved byte is copied, any other
      becomes `%` and the digits of `c >> 4` and `c & 15`, which for an
      unsigned byte are its quotient and remainder by 16. */
  function EncodeByte(c: byte): (r: seq<byte>)
  {
    if IsUnreserved(c) then [c]
    else [Percent, HexDigit(c / 16), HexDigit(c % 16)]
  }

  /** An unreserved byte stays itself; any other byte becomes `%` and two
      hexadecimal digits that read back as the byte; either way only
      unreserved bytes and `%` are written. */
  lemma EncodeByteSpec(c: byte)
    ensures IsUnreserved(c) ==> EncodeByte(c) == [c]
    ensures !IsUnreserved(c) ==>
      var r := EncodeByte(c);
      && |r| == 3 && r[0] == Percent
      && HexValue(r[1]).Some? && HexValue(r[2]).Some?
      && HexValue(r[1]).value * 16 + HexValue(r[2]).value == c
    ensures forall k :: 0 <= k < |EncodeByte(c)| ==> IsUnreserved(EncodeByte(c)[k]) || EncodeByte(c)[k] == Percent
  {
    if !IsUnreserved(c) {
      HexValueInverse(HexDigit(c / 16), c / 16);
      HexValueInverse(HexDigit(c % 16), c % 16);
    }
  }

  /** Number of bytes of `s` that are not unreserved. */
  function EscapedCount(s: seq<byte>): (n: nat)
    ensures n <= |s|
  {
    if |s| == 0 then 0
    else (if IsUnreserved(s[0]) then 0 else 1) + EscapedCount(s[1..])
  }

  /** `url_encode` (lines 98-115): each byte in turn. */
  function Encode(s: seq<byte>): (r: seq<byte>)
  {
    if |s| == 0 then []
    else EncodeByte(s[0]) + Encode(s[1..])
  }

  /** Each escaped byte adds two bytes to the output. */
  lemma {:induction false} EncodeLength(s: seq<byte>)
    ensures |Encode(s)| == |s| + 2 * EscapedCount(s)
    decreases |s|
  {
    if |s| > 0 {
      EncodeLength(s[1..]);
    }
  }

  /** Every byte of the output is unreserved or `%`. */
  lemma {:induction false} EncodeAlphabet(s: seq<byte>)
    ensures forall k :: 0 <= k < |Encode(s)| ==> IsUnreserved(Encode(s)[k]) || Encode(s)[k] == Percent
    decreases |s|
  {
    if |s| > 0 {
      var head, rest := EncodeByte(s[0]), Encode(s[1..]);
      assert Encode(s) == head + rest;
      EncodeByteSpec(s[0]);
      EncodeAlphabet(s[1..]);
      forall k | |head| <= k < |Encode(s)| ensures Encode(s)[k] == rest[k - |head|] { }
    }
  }

  /** Encoding works byte by byte, so it distributes over concatenation. */
  lemma {:induction false} EncodeAppend(a: seq<byte>, b: seq<byte>)
    ensures Encode(a + b) == Encode(a) + Encode(b)
    decreases |a|
  {
    if |a| == 0 {
      assert a + b == b;
    } else {
      assert (a + b)[1..] == a[1..] + b;
      EncodeAppend(a[1..], b);
    }
  }

  lemma EncodeOne(c: byte)
    ensures Encode([c]) == EncodeByte(c)
  {
    assert [c][1..] == [];
    assert Encode([c]) == EncodeByte(c) + Encode([]);
  }

  /** The loop of lines 100-114. */
  method EncodeLoop(str: seq<byte>) returns (encoded: seq<byte>)
    ensures encoded == Encode(str)
  {
    HexDigitsTable();
    encoded := [];
    var n := 0;
    while n < |str|
      invariant 0 <= n <= |str|
      invariant encoded == Encode(str[..n])
    {
      var c := str[n];
      ghost var before := encoded;
      if IsUnreserved(c) {
        encoded := encoded + [c];
      } else {
        encoded := encoded + [Percent];
        encoded := encoded + [HexDigits[c / 16]];
        encoded := encoded + [HexDigits[c % 16]];
      }
      assert encoded == before + EncodeByte(c);
      EncodeOne(c);
      EncodeAppend(str[..n], [c]);
      assert str[..n + 1] == str[..n] + [c];
      n := n + 1;
    }
    assert str[..n] == str;
  }

  // ---------------------------------------------------------------------------
  // Decoding: the partner of `Encode`.

  /** The byte the front of `s` stands for, and how many bytes it takes:
      an unreserved byte stands for itself; `%` and two upper-case
      hexadecimal digits stand for a byte that is not unreserved. */
  function DecodeHead(s: seq<byte>): (r: Option<(byte, nat)>)
    requires |s| > 0
    ensures r.Some? ==> 1 <= r.value.1 <= |s|
  {
    if IsUnreserved(s[0]) then Some((s[0], 1))
    else if s[0] == Percent && |s| >= 3 && HexValue(s[1]).Some? && HexValue(s[2]).Some? then
      var c: byte := HexValue(s[1]).value as int * 16 + HexValue(s[2]).value;
      if IsUnreserved(c) then None else Some((c, 3))
    else None
  }

  /** Strict percent-decoding: anything `DecodeHead` rejects is rejected. */
  function Decode(s: seq<byte>): (r: Option<seq<byte>>)
    decreases |s|
  {
    if |s| == 0 then Some([])
    else
      match DecodeHead(s)
      case None => None
      case Some((c, n)) =>
        match Decode(s[n..])
        case None => None
        case Some(rest) => Some([c] + rest)
  }

  /** Decoding the encoding of one byte at the front. */
  lemma DecodeHeadEncoded(e: seq<byte>, c: byte)
    requires |EncodeByte(c)| <= |e| && e[..|EncodeByte(c)|] == EncodeByte(c)
    ensures DecodeHead(e) == Some((c, |EncodeByte(c)|))
  {
    if !IsUnreserved(c) {
      var hi: nibble, lo: nibble := c / 16, c % 16;
      assert e[0] == Percent && e[1] == HexDigit(hi) && e[2] == HexDigit(lo);
      assert !IsUnreserved(e[0]);
      HexValueInverse(e[1], hi);
      HexValueInverse(e[2], lo);
    }
  }

  /** Round trip: decoding recovers every encoded input. */
  lemma {:induction false} DecodeEncode(s: seq<byte>)
    ensures Decode(Encode(s)) == Some(s)
    decreases |s|
  {
    if |s| > 0 {
      var head, rest := EncodeByte(s[0]), Encode(s[1..]);
      var e := head + rest;
      assert Encode(s) == e;
      assert e[..|head|] == head && e[|head|..] == rest;
      DecodeHeadEncoded(e, s[0]);
      DecodeEncode(s[1..]);
      assert s == [s[0]] + s[1..];
    }
  }

  /** Whatever `DecodeHead` accepts is the encoding of the byte it returns. */
  lemma EncodeDecodedHead(s: seq<byte>)
    requires |s| > 0 && DecodeHead(s).Some?
    ensures EncodeByte(DecodeHead(s).value.0) == s[..DecodeHead(s).value.1]
  {
    if !IsUnreserved(s[0]) {
      var hi, lo := HexValue(s[1]).value, HexValue(s[2]).value;
      var c := DecodeHead(s).value.0;
      assert c as int == hi as int * 16 + lo;
      assert c / 16 == hi && c % 16 == lo;
      HexValueInverse(s[1], hi);
      HexValueInverse(s[2], lo);
    }
  }

  /** Whatever the decoder accepts is exactly the encoding of what it returns. */
  lemma {:induction false} EncodeOfDecoded(s: seq<byte>)
    requires Decode(s).Some?
    ensures Encode(Decode(s).value) == s
    decreases |s|
  {
    if |s| > 0 {
      var r := Decode(s).value;
      var (c, n) := DecodeHead(s).value;
      var rest := Decode(s[n..]).value;
      EncodeOfDecoded(s[n..]);
      EncodeDecodedHead(s);
      assert r == [c] + rest;
      assert r[0] == c && r[1..] == rest;
      assert Encode(r) == s[..n] + s[n..];
      assert s == s[..n] + s[n..];
    }
  }

  /** The decoder and the encoder are inverse on all inputs:
      `Decode(e) == Some(s)` exactly when `Encode(s) == e`. */
  lemma EncodeDecode(e: seq<byte>, s: seq<byte>)
    ensures Decode(e) == Some(s) <==> Encode(s) == e
  {
    if Decode(e) == Some(s) {
      EncodeOfDecoded(e);
    }
    if Encode(s) == e {
      DecodeEncode(s);
    }
  }
}
