# Share-link encoders of the einsum visualiser, in Dafny

The einsum visualiser's command-line helper turns a tensor expression and
its index sizes into a link to the web app. It wraps the expression in
double quotes and the sizes in square brackets. It compresses each with
zlib, Base64-encodes the result, percent-encodes that, and puts the two
values under the `e` and `s` keys of a fixed address. This project models
the two byte-level encoders and the link builder:

- `Bytes` (`bytes.dfy`): octets (`byte` is `0..255`, the value of an
  `unsigned char`), ASCII literals as octets, and `isalnum` in the "C" locale.
- `Base64` (`base64.dfy`): `base64_encode`, as a recursive function over
  3-byte groups (`Encode`) and as a method that follows the source's
  `i`-counter loop (`EncodeLoop`, `EncodeRemainder`). A strict decoder is
  proved inverse to the encoder in both directions. The decoder is not in
  the source; it is the model's independent check on the encoder.
- `UrlEncoding` (`url_encoding.dfy`): `url_encode`, as a recursive function
  (`Encode`) and as the source's loop (`EncodeLoop`). A strict
  percent-decoder is its partner, again proved inverse in both directions.
- `ShareLink` (`share_link.dfy`): `create_shareable_url`, with the
  compressor as a function parameter. A link parser proves that the `e` and
  `s` values can be split apart and decoded back to the compressed bytes.

Every C++ `std::string` is a `seq<byte>`. The source's bit operations on
unsigned bytes are written with quotient and remainder: `(b & 0xfc) >> 2`
is `b / 4`, `c >> 4` is `c / 16`, `c & 15` is `c % 16`, and so on.
`Base64.GroupIndicesAreBitFields` proves, over 8-bit bit-vectors, that the
source's masks and shifts give exactly these indices. String literals go
through `Bytes.Ascii`, which requires every character to be ASCII. Long
literals are written as adjacent pieces so that this requirement can be
checked.

The functional encoders compute each character from its value by ranges
(`Base64.AlphabetByte`, `UrlEncoding.HexDigit`). Lemmas prove these equal
the source's literal tables (`Base64.TableIsRfcAlphabet`,
`UrlEncoding.HexDigitsTable`). The loop methods look characters up in the
literal tables, as the source does.

## Model

| member | source | states |
|---|---|---|
| `Base64.TableIsRfcAlphabet` | api_usage/compression.cpp:9-10 | The 64-character table of the source is exactly Table 1 of RFC 4648: 0-25 are `A`-`Z`, 26-51 are `a`-`z`, 52-61 are `0`-`9`, 62 is `+` and 63 is `/`. |
| `Base64.AlphabetValueInverse` | api_usage/compression.cpp:9-10 | A byte has alphabet value `v` exactly when it is the alphabet character for `v`, so the alphabet is a bijection between 6-bit values and its 64 characters. |
| `Base64.AlphabetIsTable` | api_usage/compression.cpp:9-10 | The bytes with an alphabet value are exactly the bytes of the source's table. `=` is not one of them, so in the output it can only be padding. |
| `Base64.GroupIndices` | api_usage/compression.cpp:27-30 | The four alphabet indices of a group `b0 b1 b2`, always four of them. Its meaning is stated by `GroupIndicesAreBitFields` (they are the source's masks and shifts) and `GroupIndicesSplitBits` (they are the group's four 6-bit digits). |
| `Base64.GroupIndicesAreBitFields` | api_usage/compression.cpp:27-30 | For all octets `b0 b1 b2`, the indices are `(b0 & 0xfc) >> 2`, `((b0 & 0x03) << 4) \| ((b1 & 0xf0) >> 4)`, `((b1 & 0x0f) << 2) \| ((b2 & 0xc0) >> 6)` and `b2 & 0x3f`, computed on 8-bit values. |
| `Base64.GroupIndicesSplitBits` | api_usage/compression.cpp:27-30 | The four indices of a group `b0 b1 b2` are the four 6-bit digits of the 24-bit number `b0 b1 b2`, most significant first (section 4 of RFC 4648). |
| `Base64.EncodeGroup` | api_usage/compression.cpp:27-33 | A full group becomes exactly four output bytes: the alphabet characters at its four indices. That they are alphabet characters is `EncodeGroupAlphabet`; where they land in the output is `EncodeGroupAt`. |
| `Base64.EncodeTail` | api_usage/compression.cpp:38-52 | The last one or two bytes become exactly four output bytes. Their padding is stated by `EncodeTailPadding`, and their place at the end of the output by `EncodeTailAt`. |
| `Base64.EncodeGroupAlphabet` | api_usage/compression.cpp:27-33 | A full group becomes four alphabet characters. |
| `Base64.EncodeTailPadding` | api_usage/compression.cpp:38-52 | A final group of `n` bytes (1 or 2) gives `n + 1` alphabet characters, followed by `=` up to four characters. |
| `Base64.PadCountResidue` | api_usage/compression.cpp:38-52 | The number of `=` depends only on `n mod 3`: none for 0, two for 1, one for 2. |
| `Base64.Encode` | api_usage/compression.cpp:13-54 | The output has four characters per started 3-byte group of the input. |
| `Base64.EncodeLength` | api_usage/compression.cpp:13-54 | The output of an `n`-byte input has length `4 * ceil(n / 3)`, so the empty input gives the empty output. |
| `Base64.EncodePadding` | api_usage/compression.cpp:38-52 | All output bytes before the last `PadCount(n)` are alphabet characters, and the last `PadCount(n)` are `=`. |
| `Base64.PadOnlyAsSuffix` | api_usage/compression.cpp:33-51 | Every output byte is a character of the source's table or `=`. A position holds `=` exactly when it lies in the trailing `PadCount(n)` positions. |
| `Base64.EncodeAppend` | api_usage/compression.cpp:22-36 | If `len(a)` is a multiple of 3, encoding `a ++ b` gives the encoding of `a` followed by the encoding of `b`. |
| `Base64.EncodeGroupAt` | api_usage/compression.cpp:22-36 | The `j`-th full 3-byte group of the input becomes output characters `4j .. 4j+4`: the alphabet characters at `b0>>2`, `((b0&3)<<4)|(b1>>4)`, `((b1&15)<<2)|(b2>>6)` and `b2&63`. |
| `Base64.EncodeTailAt` | api_usage/compression.cpp:38-52 | When `n mod 3 != 0`, the last four output characters are the padded encoding of the last `n mod 3` input bytes. |
| `Base64.EncodeStep` | api_usage/compression.cpp:25-35 | Encoding the first `j` groups plus one more group appends exactly that group's four characters. |
| `Base64.EncodeFinish` | api_usage/compression.cpp:38-52 | Encoding the whole input appends the padded tail to the encoding of its whole groups. |
| `Base64.EncodeLoop` | api_usage/compression.cpp:13-54 | The source's procedure returns exactly the recursive encoding of the input. |
| `Base64.EncodeGroups` | api_usage/compression.cpp:16-36 | The byte-by-byte loop with `char_array_3` and the counter `i` ends with `i < 3` leftover bytes in `char_array_3`. It has produced exactly the encoding of the whole groups before them. |
| `Base64.FlushGroup` | api_usage/compression.cpp:25-35 | A full `char_array_3` holding group `j` extends the encoding of the first `j` groups to that of the first `j + 1`. |
| `Base64.LookupGroup` | api_usage/compression.cpp:32-33 | Looking four indices up in the source's table yields their alphabet characters. |
| `Base64.EncodeRemainder` | api_usage/compression.cpp:38-52 | Zero-filling the group, writing `i + 1` characters and then `=` until `i` reaches 3 yields exactly the padded tail encoding. |
| `Base64.DecodeEncode` | api_usage/compression.cpp:13-54 | Decoding the encoding of any byte string gives that byte string back, so the encoder is injective. |
| `Base64.EncodeOfDecoded` | api_usage/compression.cpp:13-54 | Any string that the strict decoder accepts is the encoder's output for the bytes it decodes to. |
| `Base64.EncodeDecode` | api_usage/compression.cpp:13-54 | `Decode(s) == Some(x)` holds exactly when `Encode(x) == s`, for all `s` and `x`. |
| `UrlEncoding.HexDigitsTable` | api_usage/compression.cpp:110-111 | The digit table holds `0-9` then `A-F`: entry `d` is the upper-case hexadecimal digit of `d`. |
| `UrlEncoding.HexValueInverse` | api_usage/compression.cpp:110-111 | A byte has hexadecimal value `d` exactly when it is the digit of `d`. Only upper-case digits are produced and read, and every digit is an unreserved character. |
| `UrlEncoding.IsUnreserved` | api_usage/compression.cpp:103 | A predicate with no `ensures`: `isalnum` in the "C" locale, or one of `-`, `_`, `.`, `~`. `EncodeByteSpec` shows that exactly these bytes are copied, and `HexValueInverse` that every hexadecimal digit is one of them. |
| `UrlEncoding.EncodeByte` | api_usage/compression.cpp:103-112 | The output for one byte. It has no `ensures`; its laws are those of `EncodeByteSpec`. |
| `UrlEncoding.Encode` | api_usage/compression.cpp:98-115 | `url_encode` itself. It has no `ensures`; its laws are carried by `EncodeByteSpec` (per byte), `EncodeLength`, `EncodeAlphabet`, `EncodeAppend` and `EncodeDecode`. |
| `UrlEncoding.EncodeByteSpec` | api_usage/compression.cpp:103-112 | An unreserved byte (ASCII letter, digit, `-`, `_`, `.`, `~`) stays itself. Any other byte `c` becomes `%` and two hexadecimal digits whose values `h`, `l` satisfy `16h + l == c`. |
| `UrlEncoding.EncodeLength` | api_usage/compression.cpp:98-115 | The output length is the input length plus twice the number of bytes that are not unreserved. |
| `UrlEncoding.EncodeAlphabet` | api_usage/compression.cpp:98-115 | Every output byte is unreserved or `%`. |
| `UrlEncoding.EncodeAppend` | api_usage/compression.cpp:101-113 | Encoding works one byte at a time, so it distributes over concatenation. |
| `UrlEncoding.EncodeLoop` | api_usage/compression.cpp:98-115 | The source's loop, appending one or three bytes per input byte, returns exactly the recursive encoding. |
| `UrlEncoding.DecodeHeadEncoded` | api_usage/compression.cpp:103-112 | The encoding of one byte at the front of a string is read back as that byte, and it is as long as the encoder wrote it. |
| `UrlEncoding.EncodeDecodedHead` | api_usage/compression.cpp:103-112 | Whatever a single decoding step accepts is the encoding of the byte it returns. |
| `UrlEncoding.DecodeEncode` | api_usage/compression.cpp:98-115 | Percent-decoding the encoding of any byte string gives that byte string back. |
| `UrlEncoding.EncodeOfDecoded` | api_usage/compression.cpp:98-115 | Any string that the strict percent-decoder accepts is the encoder's output for the bytes it decodes to. |
| `UrlEncoding.EncodeDecode` | api_usage/compression.cpp:98-115 | `Decode(e) == Some(s)` holds exactly when `Encode(s) == e`, for all `e` and `s`. |
| `ShareLink.QuoteExpression` | api_usage/compression.cpp:120 | The wrapped expression is two bytes longer than the expression. It starts and ends with `"`, and the expression is recovered by dropping them. |
| `ShareLink.BracketSizes` | api_usage/compression.cpp:121 | The wrapped sizes start with `[` and end with `]`, and the sizes are recovered by dropping them. |
| `ShareLink.EncodeValue` | api_usage/compression.cpp:126-127 | A Base64- then percent-encoded value never holds `&` or `=`, so it cannot be confused with a query delimiter. |
| `ShareLink.ValueRoundTrip` | api_usage/compression.cpp:126-127 | Decoding a query value gives bytes `x` exactly when the value is the encoding of `x`. |
| `ShareLink.SplitAtSizesKey` | api_usage/compression.cpp:129 | For an `e` value without `&`, splitting `prefix ++ e ++ "&s=" ++ s` at the first `&` gives exactly `e` and `s`. |
| `ShareLink.CreateShareableUrl` | api_usage/compression.cpp:117-130 | The link starts with the web app's address ending in `?e=`. Parsing it back yields the compressed quoted expression and the compressed bracketed sizes. |
| `ShareLink.LinkDeterminesInputs` | api_usage/compression.cpp:117-129 | If the compressor is injective, two links are equal exactly when their expressions and their sizes are equal. |

## Left out

- `compress_data` (api_usage/compression.cpp:57-95) is a zlib `deflate` call with gzip framing and an output-buffer loop. It is foreign code, so the model takes it as an arbitrary function parameter (`ShareLink.Compressor`). `ShareLink.LinkDeterminesInputs` assumes only that this function is injective.
- The `std::runtime_error` exceptions of the zlib path are not modelled, because they come only from the foreign compressor.
- `main` (api_usage/compression.cpp:132-149) is not modelled: it is console output, exception reporting and a hard-coded sample input.
- `isalnum` is taken in the "C" locale over unsigned bytes. Passing a plain `char` of value 0x80 or above to `isalnum` is undefined in C. The model treats such bytes as not alphanumeric, so they are escaped.
- The `int` length counter of `base64_encode` can overflow on inputs longer than `INT_MAX`. Lengths are unbounded here.
- The source does not escape `"` or `\` inside the expression when it builds the quoted string (line 120), and neither does the model. Expressions of the bracket grammar contain neither character.
- The decoders (`Base64.Decode`, `UrlEncoding.Decode`, `ShareLink.ParseShareableUrl`) have no counterpart in this source; the web app does the decoding. They are here as the encoders' inverses, and they are strict: they accept only what the encoders can produce.
