/** Base64 encoding with the standard alphabet and `=` padding
    (section 4 of RFC 4648), as the share-link builder performs it:
    each 3-byte group becomes four alphabet characters; a final group of one
    or two bytes is zero-filled, cut to two or three characters and padded.
    A strict decoder is the encoder's partner: the two are inverse to each
    other on all inputs. Line numbers refer to `api_usage/compression.cpp`,
    whose `base64_encode` spans lines 13-54. */
module Base64 {
  import opened Bytes

  /** An index into the alphabet: the value of one 6-bit group. */
  type sextet = v: int | 0 <= v < 64

  /** The encoding table of lines 9-10: the source's literal, written as
      three adjacent pieces so that each is checked to be ASCII. */
  const Base64Chars: seq<byte> := Ascii("ABCDEFGHIJKLMNOPQRSTUVWXYZ" + "abcdefghijklmnopqrstuvwxyz" + "0123456789+/")

  /** The padding character. */
  const Pad: byte := Code('=')

  /** Table 1 of RFC 4648, written by ranges: 0-25 are 'A'-'Z', 26-51 are
      'a'-'z', 52-61 are '0'-'9', 62 is '+' and 63 is '/'. */
  function AlphabetByte(v: sextet): (b: byte)
  {
    if v < 26 then Code('A') + v
    else if v < 52 then Code('a') + (v - 26)
    else if v < 62 then Code('0') + (v - 52)
    else if v == 62 then Code('+')
    else Code('/')
  }

  /** The value of an alphabet character; None for any other byte. */
  function AlphabetValue(b: byte): (v: Option<sextet>)
  {
    if IsUpper(b) then Some(b - Code('A'))
    else if IsLower(b) then Some(b - Code('a') + 26)
    else if IsDigit(b) then Some(b - Code('0') + 52)
    else if b == Code('+') then Some(62)
    else if b == Code('/') then Some(63)
    else None
  }

  predicate IsAlphabetChar(b: byte)
  {
    AlphabetValue(b).Some?
  }

  // The table agrees with the alphabet range by range; each range is its
  // own lemma to keep the literal's case analysis small.
  lemma TableUpperAM(v: sextet)
    requires v < 13
    ensures Base64Chars[v] == AlphabetByte(v)
  {
    assert ("ABCDEFGHIJKLMNOPQRSTUVWXYZ" + "abcdefghijklmnopqrstuvwxyz" + "0123456789+/")[v] == "ABCDEFGHIJKLMNOPQRSTUVWXYZ"[v];
  }

  lemma TableUpperNZ(v: sextet)
    requires 13 <= v < 26
    ensures Base64Chars[v] == AlphabetByte(v)
  {
    assert ("ABCDEFGHIJKLMNOPQRSTUVWXYZ" + "abcdefghijklmnopqrstuvwxyz" + "0123456789+/")[v] == "ABCDEFGHIJKLMNOPQRSTUVWXYZ"[v];
  }

  lemma TableLowerAM(v: sextet)
    requires 26 <= v < 39
    ensures Base64Chars[v] == AlphabetByte(v)
  {
  }

  lemma TableLowerNZ(v: sextet)
    requires 39 <= v < 52
    ensures Base64Chars[v] == AlphabetByte(v)
  {
  }

  lemma TableDigitsAndSymbols(v: sextet)
    requires 52 <= v
    ensures Base64Chars[v] == AlphabetByte(v)
  {
  }

  /** The source's table is exactly the alphabet of RFC 4648. */
  lemma TableIsRfcAlphabet()
    ensures |Base64Chars| == 64
    ensures forall v: sextet :: Base64Chars[v] == AlphabetByte(v)
  {
    forall v: sextet ensures Base64Chars[v] == AlphabetByte(v) {
      if v < 13 {
        TableUpperAM(v);
      } else if v < 26 {
        TableUpperNZ(v);
      } else if v < 39 {
        TableLowerAM(v);
      } else if v < 52 {
        TableLowerNZ(v);
      } else {
        TableDigitsAndSymbols(v);
      }
    }
  }

  /** The alphabet is a bijection between sextets and its 64 characters. */
  lemma AlphabetValueInverse(b: byte, v: sextet)
    ensures AlphabetValue(b) == Some(v) <==> AlphabetByte(v) == b
  {
  }

  /** The alphabet characters are exactly the bytes of the source's table,
      and `=` is not one of them, so it can only be padding. */
  lemma AlphabetIsTable(b: byte)
    ensures IsAlphabetChar(b) <==> b in Base64Chars
    ensures !IsAlphabetChar(Pad) && Pad !in Base64Chars
  {
    TableIsRfcAlphabet();
    if IsAlphabetChar(b) {
      var v := AlphabetValue(b).value;
      assert Base64Chars[v] == b;
    }
  }

  /** Lines 27-30 (and 43-45 on a zero-filled group): the alphabet indices
      of a group `b0 b1 b2`. The source's bit operations on an unsigned
      byte are written arithmetically: `(b & 0xfc) >> 2` is `b / 4`,
      `(b & 0x03) << 4` is `(b % 4) * 16`, `(b & 0xf0) >> 4` is `b / 16`,
      `(b & 0x0f) << 2` is `(b % 16) * 4`, `(b & 0xc0) >> 6` is `b / 64`
      and `b & 0x3f` is `b % 64`. */
  function GroupIndices(b0: byte, b1: byte, b2: byte): (c: seq<sextet>)
    ensures |c| == 4
  {
    [b0 / 4, (b0 % 4) * 16 + b1 / 16, (b1 % 16) * 4 + b2 / 64, b2 % 64]
  }

  /** The 24-bit value of three bytes, most significant first. */
  function Bits24(b: seq<byte>): (n: int)
    requires |b| == 3
  {
    b[0] as int * 65536 + b[1] as int * 256 + b[2] as int
  }

  /** The 24-bit value of four 6-bit digits, most significant first. */
  function Digits24(c: seq<sextet>): (n: int)
    requires |c| == 4
  {
    c[0] as int * 262144 + c[1] as int * 4096 + c[2] as int * 64 + c[3] as int
  }

  /** As section 4 of RFC 4648 describes it: the 24-bit group is read as four
      concatenated 6-bit groups. */
  lemma GroupIndicesSplitBits(b0: byte, b1: byte, b2: byte)
    ensures Digits24(GroupIndices(b0, b1, b2)) == Bits24([b0, b1, b2])
  {
  }

  // One octet operation of lines 27-30 each: a mask and shift on an
  // `unsigned char` is a quotient or remainder by a power of two, and the
  // two halves joined by `|` never share a bit, so `|` is a sum.
  lemma MaskHighSix(b: bv8) ensures ((b & 0xfc) >> 2) as int == b as int / 4 {}
  lemma MaskLowTwo(b: bv8) ensures ((b & 0x03) << 4) as int == (b as int % 4) * 16 {}
  lemma MaskHighFour(b: bv8) ensures ((b & 0xf0) >> 4) as int == b as int / 16 {}
  lemma MaskLowFour(b: bv8) ensures ((b & 0x0f) << 2) as int == (b as int % 16) * 4 {}
  lemma MaskHighTwo(b: bv8) ensures ((b & 0xc0) >> 6) as int == b as int / 64 {}
  lemma MaskLowSix(b: bv8) ensures (b & 0x3f) as int == b as int % 64 {}

  lemma JoinSecond(b0: bv8, b1: bv8)
    ensures (((b0 & 0x03) << 4) | ((b1 & 0xf0) >> 4)) as int == ((b0 & 0x03) << 4) as int + ((b1 & 0xf0) >> 4) as int
  {
  }

  lemma JoinThird(b1: bv8, b2: bv8)
    ensures (((b1 & 0x0f) << 2) | ((b2 & 0xc0) >> 6)) as int == ((b1 & 0x0f) << 2) as int + ((b2 & 0xc0) >> 6) as int
  {
  }

  /** The masks and shifts of lines 27-30, computed on octets as the source
      does, give exactly the indices of `GroupIndices`. */
  lemma GroupIndicesAreBitFields(b0: bv8, b1: bv8, b2: bv8)
    ensures GroupIndices(b0 as int, b1 as int, b2 as int) ==
      [ ((b0 & 0xfc) >> 2) as int,
        (((b0 & 0x03) << 4) | ((b1 & 0xf0) >> 4)) as int,
        (((b1 & 0x0f) << 2) | ((b2 & 0xc0) >> 6)) as int,
        (b2 & 0x3f) as int ]
  {
    MaskHighSix(b0);
    MaskLowTwo(b0);
    MaskHighFour(b1);
    MaskLowFour(b1);
    MaskHighTwo(b2);
    MaskLowSix(b2);
    JoinSecond(b0, b1);
    JoinThird(b1, b2);
  }

  /** The four characters of a full group (lines 27-33). */
  function EncodeGroup(b0: byte, b1: byte, b2: byte): (r: seq<byte>)
    ensures |r| == 4
  {
    var c := GroupIndices(b0, b1, b2);
    [AlphabetByte(c[0]), AlphabetByte(c[1]), AlphabetByte(c[2]), AlphabetByte(c[3])]
  }

  /** Lines 38-52: the last one or two bytes, zero-filled to a group; the
      first `|tail| + 1` indices are emitted and `=` fills up to four. */
  function EncodeTail(tail: seq<byte>): (r: seq<byte>)
    requires 1 <= |tail| <= 2
    ensures |r| == 4
  {
    var c := GroupIndices(tail[0], if |tail| == 2 then tail[1] else 0, 0);
    if |tail| == 1 then [AlphabetByte(c[0]), AlphabetByte(c[1]), Pad, Pad]
    else [AlphabetByte(c[0]), AlphabetByte(c[1]), AlphabetByte(c[2]), Pad]
  }

  /** Number of output quadruples for `n` input bytes: one per started group. */
  function QuadCount(n: nat): (q: nat)
  {
    if n == 0 then 0 else if n < 3 then 1 else 1 + QuadCount(n - 3)
  }

  /** One quadruple per started group is `ceil(n / 3)` of them. */
  lemma {:induction false} QuadCountCeiling(n: nat)
    ensures QuadCount(n) == (n + 2) / 3
    decreases n
  {
    if n >= 3 {
      QuadCountCeiling(n - 3);
    }
  }

  /** Number of `=` an input of `n` bytes receives: none after whole groups,
      otherwise as many as the last group lacks. */
  function PadCount(n: nat): (p: nat)
    ensures p <= 2
  {
    if n >= 3 then PadCount(n - 3) else if n == 0 then 0 else 3 - n
  }

  /** The padding depends only on `n mod 3`: 0, 2 or 1 as the remainder is
      0, 1 or 2. */
  lemma {:induction false} PadCountResidue(n: nat)
    ensures n % 3 == 0 <==> PadCount(n) == 0
    ensures n % 3 == 1 <==> PadCount(n) == 2
    ensures n % 3 == 2 <==> PadCount(n) == 1
    decreases n
  {
    if n >= 3 {
      PadCountResidue(n - 3);
    }
  }

  /** `base64_encode` (lines 13-54): groups of three bytes from the front,
      then the padded tail. */
  function Encode(data: seq<byte>): (r: seq<byte>)
    ensures |r| == 4 * QuadCount(|data|)
    decreases |data|
  {
    if |data| == 0 then []
    else if |data| < 3 then EncodeTail(data)
    else
      var g := EncodeGroup(data[0], data[1], data[2]);
      g + Encode(data[3..])
  }

  /** The output length is `4 * ceil(n / 3)`. */
  lemma EncodeLength(data: seq<byte>)
    ensures |Encode(data)| == 4 * ((|data| + 2) / 3)
  {
    QuadCountCeiling(|data|);
  }

  /** A full group is four alphabet characters. */
  lemma EncodeGroupAlphabet(b0: byte, b1: byte, b2: byte)
    ensures forall k :: 0 <= k < 4 ==> IsAlphabetChar(EncodeGroup(b0, b1, b2)[k])
  {
    var c := GroupIndices(b0, b1, b2);
    forall k | 0 <= k < 4 ensures IsAlphabetChar(EncodeGroup(b0, b1, b2)[k]) {
      AlphabetValueInverse(EncodeGroup(b0, b1, b2)[k], c[k]);
    }
  }

  /** A tail of `n` bytes is `n + 1` alphabet characters, then `=`. */
  lemma EncodeTailPadding(tail: seq<byte>)
    requires 1 <= |tail| <= 2
    ensures forall k :: 0 <= k <= |tail| ==> IsAlphabetChar(EncodeTail(tail)[k])
    ensures forall k :: |tail| < k < 4 ==> EncodeTail(tail)[k] == Pad
  {
    var c := GroupIndices(tail[0], if |tail| == 2 then tail[1] else 0, 0);
    forall k | 0 <= k <= |tail| ensures IsAlphabetChar(EncodeTail(tail)[k]) {
      AlphabetValueInverse(EncodeTail(tail)[k], c[k]);
    }
  }

  /** The padding law: all but the last `PadCount(|data|)` output bytes are
      alphabet characters, and those last ones are `=`. */
  lemma {:induction false} EncodePadding(data: seq<byte>)
    ensures forall k :: 0 <= k < |Encode(data)| - PadCount(|data|) ==> IsAlphabetChar(Encode(data)[k])
    ensures forall k :: |Encode(data)| - PadCount(|data|) <= k < |Encode(data)| ==> Encode(data)[k] == Pad
    decreases |data|
  {
    if |data| == 0 {
    } else if |data| < 3 {
      EncodeTailPadding(data);
      assert 4 - PadCount(|data|) == |data| + 1;
    } else {
      var e, g, rest := Encode(data), EncodeGroup(data[0], data[1], data[2]), Encode(data[3..]);
      EncodeGroupAlphabet(data[0], data[1], data[2]);
      EncodePadding(data[3..]);
      assert e == g + rest;
      forall k | 4 <= k < |e| ensures e[k] == rest[k - 4] { }
    }
  }

  /** Every output byte is a character of the source's table or `=`, and `=`
      occurs exactly in the trailing `PadCount` positions. */
  lemma PadOnlyAsSuffix(data: seq<byte>, k: nat)
    requires k < |Encode(data)|
    ensures Encode(data)[k] in Base64Chars || Encode(data)[k] == Pad
    ensures Encode(data)[k] == Pad <==> k >= |Encode(data)| - PadCount(|data|)
  {
    EncodePadding(data);
    AlphabetIsTable(Encode(data)[k]);
  }

  /** Encoding is block-compositional at group boundaries. */
  lemma {:induction false} EncodeAppend(a: seq<byte>, b: seq<byte>)
    requires |a| % 3 == 0
    ensures Encode(a + b) == Encode(a) + Encode(b)
    decreases |a|
  {
    if |a| > 0 {
      assert (a + b)[3..] == a[3..] + b;
      EncodeAppend(a[3..], b);
      assert (a + b)[..3] == a[..3];
    } else {
      assert a + b == b;
    }
  }

  /** `j` whole groups give `j` quadruples. */
  lemma {:induction false} QuadCountGroups(j: nat)
    ensures QuadCount(3 * j) == j
    decreases j
  {
    if j > 0 {
      QuadCountGroups(j - 1);
    }
  }

  /** The `j`-th full group of the input is the `j`-th quadruple of the output. */
  lemma EncodeGroupAt(data: seq<byte>, j: nat)
    requires 3 * j + 3 <= |data|
    ensures 4 * j + 4 <= |Encode(data)|
    ensures Encode(data)[4 * j .. 4 * j + 4] == EncodeGroup(data[3 * j], data[3 * j + 1], data[3 * j + 2])
  {
    var a, b := data[..3 * j], data[3 * j..];
    assert data == a + b;
    EncodeAppend(a, b);
    QuadCountGroups(j);
    assert |Encode(a)| == 4 * j;
    var g, rest := EncodeGroup(b[0], b[1], b[2]), Encode(b[3..]);
    assert Encode(b) == g + rest;
    QuadAfter(Encode(a), g, rest);
  }

  /** The four bytes that follow a prefix. */
  lemma QuadAfter(p: seq<byte>, g: seq<byte>, rest: seq<byte>)
    requires |g| == 4
    ensures (p + (g + rest))[|p| .. |p| + 4] == g
  {
    assert p + (g + rest) == (p + g) + rest;
  }

  /** Encoding exactly one group. */
  lemma EncodeOneGroup(g: seq<byte>)
    requires |g| == 3
    ensures Encode(g) == EncodeGroup(g[0], g[1], g[2])
  {
    assert Encode(g[3..]) == [];
    assert Encode(g) == EncodeGroup(g[0], g[1], g[2]) + Encode(g[3..]);
  }

  /** Encoding the first `j` groups, then one more group. */
  lemma EncodeStep(data: seq<byte>, j: nat)
    requires 3 * j + 3 <= |data|
    ensures Encode(data[..3 * j + 3]) == Encode(data[..3 * j]) + EncodeGroup(data[3 * j], data[3 * j + 1], data[3 * j + 2])
  {
    var m := 3 * j;
    var a, g := data[..m], data[m..m + 3];
    assert data[..m + 3] == a + g;
    EncodeAppend(a, g);
    EncodeOneGroup(g);
  }

  /** Encoding the first `j` groups, then a tail of one or two bytes. */
  lemma EncodeFinish(data: seq<byte>, j: nat)
    requires 3 * j < |data| < 3 * j + 3
    ensures Encode(data) == Encode(data[..3 * j]) + EncodeTail(data[3 * j..])
  {
    var m := 3 * j;
    var a, t := data[..m], data[m..];
    assert data == a + t;
    EncodeAppend(a, t);
    assert Encode(t) == EncodeTail(t);
  }

  /** A final partial group of the input is the last quadruple of the output. */
  lemma EncodeTailAt(data: seq<byte>)
    requires |data| % 3 != 0
    ensures |Encode(data)| >= 4
    ensures Encode(data)[|Encode(data)| - 4 ..] == EncodeTail(data[|data| - |data| % 3 ..])
  {
    var m := |data| - |data| % 3;
    EncodeFinish(data, |data| / 3);
    var e := Encode(data[..m]) + EncodeTail(data[m..]);
    assert e[|e| - 4 ..] == EncodeTail(data[m..]);
  }

  /** `base64_encode` as the source writes it (lines 13-54): the loop over
      full groups, then the final partial group, if any. */
  method EncodeLoop(input: seq<byte>) returns (ret: seq<byte>)
    ensures ret == Encode(input)
  {
    var charArray3, i;
    ghost var groups;
    ret, charArray3, i, groups := EncodeGroups(input);
    if i != 0 {
      var last := EncodeRemainder(charArray3, i);
      EncodeFinish(input, groups);
      assert input[|input| - i ..] == charArray3[..i];
      ret := ret + last;
    } else {
      assert input[..|input|] == input;
    }
  }

  /** The loop of lines 16-36: bytes are collected in `charArray3` (the
      source's `char_array_3`) and every third one flushes a group. On exit
      `charArray3` holds the `i` bytes that do not fill a group. */
  method EncodeGroups(input: seq<byte>) returns (ret: seq<byte>, charArray3: seq<byte>, i: int, ghost groups: nat)
    ensures 0 <= i < 3 && i <= |input| && |input| - i == 3 * groups
    ensures |charArray3| == 3
    ensures charArray3[..i] == input[|input| - i ..]
    ensures ret == Encode(input[..|input| - i])
  {
    ret := [];
    charArray3 := [0, 0, 0];
    i := 0;
    var n := 0;
    ghost var done := 0;
    groups := 0;
    while n < |input|
      invariant 0 <= i < 3 && done + i == n <= |input|
      invariant done == 3 * groups
      invariant |charArray3| == 3
      invariant i >= 1 ==> charArray3[0] == input[done]
      invariant i >= 2 ==> charArray3[1] == input[done + 1]
      invariant ret == Encode(input[..done])
    {
      charArray3 := charArray3[i := input[n]];
      i := i + 1;
      n := n + 1;
      if i == 3 {
        ret := FlushGroup(input, groups, ret, charArray3);
        i := 0;
        done, groups := n, groups + 1;
      }
    }
  }

  /** Lines 25-35: a full `charArray3` is turned into four characters,
      appended to the output so far. */
  method FlushGroup(input: seq<byte>, ghost j: nat, ret: seq<byte>, charArray3: seq<byte>) returns (ret': seq<byte>)
    requires 3 * j + 3 <= |input|
    requires charArray3 == [input[3 * j], input[3 * j + 1], input[3 * j + 2]]
    requires ret == Encode(input[..3 * j])
    ensures ret' == Encode(input[..3 * j + 3])
  {
    EncodeStep(input, j);
    var chars := LookupGroup(GroupIndices(charArray3[0], charArray3[1], charArray3[2]));
    ret' := ret + chars;
  }

  /** Lines 32-33: the table characters at four indices. */
  method LookupGroup(charArray4: seq<sextet>) returns (out: seq<byte>)
    requires |charArray4| == 4
    ensures out == [AlphabetByte(charArray4[0]), AlphabetByte(charArray4[1]),
                    AlphabetByte(charArray4[2]), AlphabetByte(charArray4[3])]
  {
    TableIsRfcAlphabet();
    out := [];
    var j := 0;
    while j < 4
      invariant 0 <= j <= 4
      invariant |out| == j
      invariant forall k :: 0 <= k < j ==> out[k] == AlphabetByte(charArray4[k])
    {
      out := out + [Base64Chars[charArray4[j]]];
      j := j + 1;
    }
  }

  /** Lines 38-52: zero-fill the group, emit `i + 1` characters, then `=`
      until four characters have been written. */
  method EncodeRemainder(charArray3: seq<byte>, i: int) returns (out: seq<byte>)
    requires |charArray3| == 3 && 1 <= i <= 2
    ensures out == EncodeTail(charArray3[..i])
  {
    TableIsRfcAlphabet();
    var group := charArray3;
    var j := i;
    while j < 3
      invariant i <= j <= 3 && |group| == 3
      invariant group[..i] == charArray3[..i]
      invariant forall k :: i <= k < j ==> group[k] == 0
    {
      group := group[j := 0];
      j := j + 1;
    }
    var charArray4 := GroupIndices(group[0], group[1], group[2]);
    var tail := charArray3[..i];
    var expected := EncodeTail(tail);
    assert forall k :: 0 <= k <= i ==> expected[k] == AlphabetByte(charArray4[k]);
    out := [];
    j := 0;
    while j < i + 1
      invariant 0 <= j <= i + 1
      invariant out == expected[..j]
    {
      out := out + [Base64Chars[charArray4[j]]];
      j := j + 1;
    }
    var p := i;
    while p < 3
      invariant i <= p <= 3
      invariant out == expected[..p + 1]
    {
      out := out + [Pad];
      p := p + 1;
    }
  }

  // ---------------------------------------------------------------------------
  // Decoding: the partner of `Encode`.

  /** The values of four alphabet characters, if all four are in the alphabet. */
  function QuadValues(q: seq<byte>): (r: Option<seq<sextet>>)
    requires |q| == 4
    ensures r.Some? <==> forall k :: 0 <= k < 4 ==> IsAlphabetChar(q[k])
    ensures r.Some? ==> |r.value| == 4 && forall k :: 0 <= k < 4 ==> AlphabetByte(r.value[k]) == q[k]
  {
    var a, b, c, d := AlphabetValue(q[0]), AlphabetValue(q[1]), AlphabetValue(q[2]), AlphabetValue(q[3]);
    if a.Some? && b.Some? && c.Some? && d.Some? then
      AlphabetValueInverse(q[0], a.value);
      AlphabetValueInverse(q[1], b.value);
      AlphabetValueInverse(q[2], c.value);
      AlphabetValueInverse(q[3], d.value);
      Some([a.value, b.value, c.value, d.value])
    else None
  }

  /** The three bytes whose indices are `c` (inverse of `GroupIndices`). */
  function GroupBytes(c: seq<sextet>): (r: seq<byte>)
    requires |c| == 4
    ensures |r| == 3
  {
    [c[0] as int * 4 + c[1] / 16, (c[1] % 16) as int * 16 + c[2] / 4, (c[2] % 4) as int * 64 + c[3]]
  }

  /** A quadruple: four alphabet characters give three bytes; `xx==` gives
      one byte and `xxx=` two, provided the bits the padding drops are zero
      (so that only the encoder's own output is accepted). */
  function DecodeQuad(q: seq<byte>, last: bool): (r: Option<seq<byte>>)
    requires |q| == 4
    ensures r.Some? ==> 1 <= |r.value| <= 3
    ensures r.Some? && !last ==> |r.value| == 3
  {
    if last && q[2] == Pad && q[3] == Pad then
      match QuadValues([q[0], q[1], AlphabetByte(0), AlphabetByte(0)])
      case Some(c) =>
        if c[1] % 16 == 0 then Some(GroupBytes(c)[..1]) else None
      case None => None
    else if last && q[3] == Pad then
      match QuadValues([q[0], q[1], q[2], AlphabetByte(0)])
      case Some(c) =>
        if c[2] % 4 == 0 then Some(GroupBytes(c)[..2]) else None
      case None => None
    else
      match QuadValues(q)
      case Some(c) => Some(GroupBytes(c))
      case None => None
  }

  /** Strict Base64 decoding: a multiple of four characters, padding only
      in the last quadruple, no stray bits. */
  function Decode(s: seq<byte>): (r: Option<seq<byte>>)
    decreases |s|
  {
    if |s| == 0 then Some([])
    else if |s| < 4 then None
    else
      match DecodeQuad(s[..4], |s| == 4)
      case None => None
      case Some(g) =>
        match Decode(s[4..])
        case None => None
        case Some(rest) => Some(g + rest)
  }

  lemma GroupRoundTrip(b0: byte, b1: byte, b2: byte)
    ensures GroupBytes(GroupIndices(b0, b1, b2)) == [b0, b1, b2]
  {
  }

  lemma IndicesRoundTrip(c: seq<sextet>)
    requires |c| == 4
    ensures var b := GroupBytes(c); GroupIndices(b[0], b[1], b[2]) == c
  {
    var b := GroupBytes(c);
    var c0: int, c1: int, c2: int, c3: int := c[0], c[1], c[2], c[3];
    var b0: int, b1: int, b2: int := b[0], b[1], b[2];
    var h, l := c1 / 16, c1 % 16;
    assert b0 == 4 * c0 + h && 0 <= h < 4;
    assert b0 / 4 == c0 && b0 % 4 == h;
    assert b1 == 16 * l + c2 / 4 && 0 <= c2 / 4 < 16;
    assert b1 / 16 == l && b1 % 16 == c2 / 4;
    assert b2 == 64 * (c2 % 4) + c3;
    assert b2 / 64 == c2 % 4 && b2 % 64 == c3;
  }

  /** Decoding a quadruple the encoder produced. */
  lemma DecodeEncodedGroup(b0: byte, b1: byte, b2: byte, last: bool)
    ensures DecodeQuad(EncodeGroup(b0, b1, b2), last) == Some([b0, b1, b2])
  {
    var q := EncodeGroup(b0, b1, b2);
    var c := GroupIndices(b0, b1, b2);
    forall k | 0 <= k < 4 ensures AlphabetValue(q[k]) == Some(c[k]) {
      AlphabetValueInverse(q[k], c[k]);
    }
    assert q[3] != Pad;
    assert QuadValues(q) == Some(c);
    GroupRoundTrip(b0, b1, b2);
  }

  lemma DecodeEncodedTail(tail: seq<byte>)
    requires 1 <= |tail| <= 2
    ensures DecodeQuad(EncodeTail(tail), true) == Some(tail)
  {
    var q := EncodeTail(tail);
    var b1 := if |tail| == 2 then tail[1] else 0;
    var c := GroupIndices(tail[0], b1, 0);
    forall k | 0 <= k <= |tail| ensures AlphabetValue(q[k]) == Some(c[k]) {
      AlphabetValueInverse(q[k], c[k]);
    }
    GroupRoundTrip(tail[0], b1, 0);
    if |tail| == 1 {
      assert QuadValues([q[0], q[1], AlphabetByte(0), AlphabetByte(0)]) == Some([c[0], c[1], 0, 0]);
      assert GroupBytes([c[0], c[1], 0, 0])[..1] == tail;
    } else {
      assert q[2] != Pad && q[3] == Pad;
      assert QuadValues([q[0], q[1], q[2], AlphabetByte(0)]) == Some(c);
      assert GroupBytes(c)[..2] == tail;
    }
  }

  /** One step of `Decode`: the first quadruple, then the rest. */
  lemma DecodeStep(q: seq<byte>, more: seq<byte>, g: seq<byte>, rest: seq<byte>)
    requires |q| == 4
    requires DecodeQuad(q, |more| == 0) == Some(g)
    requires Decode(more) == Some(rest)
    ensures Decode(q + more) == Some(g + rest)
  {
    var s := q + more;
    assert s[..4] == q && s[4..] == more;
  }

  /** Round trip: decoding recovers every encoded input. */
  lemma {:induction false} DecodeEncode(data: seq<byte>)
    ensures Decode(Encode(data)) == Some(data)
    decreases |data|
  {
    if |data| == 0 {
    } else if |data| < 3 {
      DecodeEncodedTail(data);
      DecodeStep(EncodeTail(data), [], data, []);
      assert EncodeTail(data) + [] == EncodeTail(data) && data + [] == data;
    } else {
      DecodeEncode(data[3..]);
      DecodeEncodeGroup(data[0], data[1], data[2], data[3..]);
      assert data == [data[0], data[1], data[2]] + data[3..];
    }
  }

  /** The step of `DecodeEncode` for a leading full group. */
  lemma DecodeEncodeGroup(b0: byte, b1: byte, b2: byte, more: seq<byte>)
    requires Decode(Encode(more)) == Some(more)
    ensures Decode(Encode([b0, b1, b2] + more)) == Some([b0, b1, b2] + more)
  {
    var data := [b0, b1, b2] + more;
    assert data[3..] == more;
    var q := EncodeGroup(b0, b1, b2);
    assert Encode(data) == q + Encode(more);
    DecodeEncodedGroup(b0, b1, b2, |Encode(more)| == 0);
    DecodeStep(q, Encode(more), [b0, b1, b2], more);
  }

  /** Four alphabet characters decode to a group that re-encodes to them. */
  lemma EncodeDecodedFull(q: seq<byte>)
    requires |q| == 4 && QuadValues(q).Some?
    ensures var g := GroupBytes(QuadValues(q).value); EncodeGroup(g[0], g[1], g[2]) == q
  {
    var c := QuadValues(q).value;
    IndicesRoundTrip(c);
  }

  /** `xx==` with no stray bits decodes to a byte that re-encodes to it. */
  lemma EncodeDecodedPad2(q: seq<byte>, c: seq<sextet>)
    requires |q| == 4 && q[2] == Pad && q[3] == Pad
    requires QuadValues([q[0], q[1], AlphabetByte(0), AlphabetByte(0)]) == Some(c)
    requires c[1] % 16 == 0
    ensures EncodeTail(GroupBytes(c)[..1]) == q
  {
    AlphabetValueInverse(AlphabetByte(0), c[2]);
    AlphabetValueInverse(AlphabetByte(0), c[3]);
    assert c[2] == 0 && c[3] == 0;
    IndicesRoundTrip(c);
  }

  /** `xxx=` with no stray bits decodes to two bytes that re-encode to it. */
  lemma EncodeDecodedPad1(q: seq<byte>, c: seq<sextet>)
    requires |q| == 4 && q[3] == Pad
    requires QuadValues([q[0], q[1], q[2], AlphabetByte(0)]) == Some(c)
    requires c[2] % 4 == 0
    ensures EncodeTail(GroupBytes(c)[..2]) == q
  {
    AlphabetValueInverse(AlphabetByte(0), c[3]);
    assert c[3] == 0;
    IndicesRoundTrip(c);
  }

  /** Whatever the decoder accepts is exactly the encoding of what it returns. */
  lemma {:induction false} EncodeOfDecoded(s: seq<byte>)
    requires Decode(s).Some?
    ensures Encode(Decode(s).value) == s
    decreases |s|
  {
    if |s| >= 4 {
      var q, last := s[..4], |s| == 4;
      var g := DecodeQuad(q, last).value;
      var rest := Decode(s[4..]).value;
      assert Decode(s).value == g + rest;
      EncodeOfDecoded(s[4..]);
      if last && q[2] == Pad && q[3] == Pad {
        var c := QuadValues([q[0], q[1], AlphabetByte(0), AlphabetByte(0)]).value;
        EncodeDecodedPad2(q, c);
        assert rest == [] && g == GroupBytes(c)[..1];
        assert g + rest == g && s == q;
      } else if last && q[3] == Pad {
        var c := QuadValues([q[0], q[1], q[2], AlphabetByte(0)]).value;
        EncodeDecodedPad1(q, c);
        assert rest == [] && g == GroupBytes(c)[..2];
        assert g + rest == g && s == q;
      } else {
        EncodeDecodedFull(q);
        var data := g + rest;
        assert |g| == 3 && data[..3] == g && data[3..] == rest;
        assert Encode(data) == EncodeGroup(g[0], g[1], g[2]) + Encode(rest);
        assert s == q + s[4..];
      }
    }
  }

  /** The decoder and the encoder are inverse on all inputs:
      `Decode(s) == Some(x)` exactly when `Encode(x) == s`. */
  lemma EncodeDecode(s: seq<byte>, data: seq<byte>)
    ensures Decode(s) == Some(data) <==> Encode(data) == s
  {
    if Decode(s) == Some(data) {
      EncodeOfDecoded(s);
    }
    if Encode(data) == s {
      DecodeEncode(data);
    }
  }
}
