/** The share link of `create_shareable_url` (lines 117-130 of
    `api_usage/compression.cpp`; all line numbers below refer to it): the
    expression is quoted, the index sizes are bracketed, both are compressed,
    Base64-encoded and percent-encoded, and the two results become the `e`
    and `s` query values of the web app's address. The compressor is a
    parameter: it is a call into zlib, whose behaviour is not modelled. */
module ShareLink {
  import opened Bytes
  import Base64
  import UrlEncoding

  /** Any byte-string transformation standing for `compress_data`. */
  type Compressor = seq<byte> -> seq<byte>

  const Ampersand: byte := Code('&')

  /** Line 129: the web app's address up to and including the `e` key. */
  const Prefix: seq<byte> := Ascii("https://seriousseal.github.io/" + "tensor_expressions_webapp/?e=")

  /** Line 129: the separator in front of the `s` value. */
  const SizesKey: seq<byte> := Ascii("&s=")

  /** Line 120: the expression between double quotes. */
  function QuoteExpression(expression: seq<byte>): (r: seq<byte>)
    ensures |r| == |expression| + 2
    ensures r[0] == r[|r| - 1] == Code('"')
    ensures r[1 .. |r| - 1] == expression
  {
    [Code('"')] + expression + [Code('"')]
  }

  /** Line 121: the sizes between square brackets. */
  function BracketSizes(sizes: seq<byte>): (r: seq<byte>)
    ensures |r| == |sizes| + 2
    ensures r[0] == Code('[') && r[|r| - 1] == Code(']')
    ensures r[1 .. |r| - 1] == sizes
  {
    [Code('[')] + sizes + [Code(']')]
  }

  /** Lines 126-127: one compressed value made safe for a query string. */
  function EncodeValue(compressed: seq<byte>): (r: seq<byte>)
    ensures forall k :: 0 <= k < |r| ==> r[k] != Ampersand && r[k] != Base64.Pad
  {
    UrlEncoding.EncodeAlphabet(Base64.Encode(compressed));
    UrlEncoding.Encode(Base64.Encode(compressed))
  }

  /** The partner of `EncodeValue`: percent-decoding, then Base64 decoding. */
  function DecodeValue(value: seq<byte>): (r: Option<seq<byte>>)
  {
    match UrlEncoding.Decode(value)
    case None => None
    case Some(text) => Base64.Decode(text)
  }

  /** Decoding a query value recovers exactly the compressed bytes, and only
      the encoder's own output is accepted. */
  lemma ValueRoundTrip(value: seq<byte>, compressed: seq<byte>)
    ensures DecodeValue(value) == Some(compressed) <==> EncodeValue(compressed) == value
  {
    var text := Base64.Encode(compressed);
    UrlEncoding.EncodeDecode(value, text);
    Base64.EncodeDecode(text, compressed);
    if DecodeValue(value) == Some(compressed) {
      var t := UrlEncoding.Decode(value).value;
      UrlEncoding.EncodeDecode(value, t);
      Base64.EncodeDecode(t, compressed);
    }
  }

  /** `create_shareable_url` (lines 117-130). */
  function CreateShareableUrl(compress: Compressor, expression: seq<byte>, sizes: seq<byte>): (url: seq<byte>)
    ensures |Prefix| <= |url| && url[..|Prefix|] == Prefix
    ensures ParseShareableUrl(url) == Some((compress(QuoteExpression(expression)), compress(BracketSizes(sizes))))
  {
    var e := EncodeValue(compress(QuoteExpression(expression)));
    var s := EncodeValue(compress(BracketSizes(sizes)));
    SplitAtSizesKey(e, s);
    ValueRoundTrip(e, compress(QuoteExpression(expression)));
    ValueRoundTrip(s, compress(BracketSizes(sizes)));
    Prefix + e + SizesKey + s
  }

  /** Position of the first `b` in `s`, or `|s|` when there is none. */
  function IndexOf(s: seq<byte>, b: byte): (i: nat)
    ensures i <= |s|
    ensures i < |s| ==> s[i] == b
    ensures forall k :: 0 <= k < i ==> s[k] != b
  {
    if |s| == 0 then 0
    else if s[0] == b then 0
    else 1 + IndexOf(s[1..], b)
  }

  /** Reading a share link back: after the prefix, the `e` value runs up
      to the first `&`, which must open `&s=`; the `s` value is the rest. */
  function SplitQuery(url: seq<byte>): (r: Option<(seq<byte>, seq<byte>)>)
  {
    if |url| < |Prefix| || url[..|Prefix|] != Prefix then None
    else
      var query := url[|Prefix|..];
      var i := IndexOf(query, Ampersand);
      if i + |SizesKey| <= |query| && query[i .. i + |SizesKey|] == SizesKey then
        Some((query[..i], query[i + |SizesKey|..]))
      else None
  }

  /** The compressed expression and the compressed sizes a share link carries. */
  function ParseShareableUrl(url: seq<byte>): (r: Option<(seq<byte>, seq<byte>)>)
  {
    match SplitQuery(url)
    case None => None
    case Some((e, s)) =>
      match (DecodeValue(e), DecodeValue(s))
      case (Some(expr), Some(sizes)) => Some((expr, sizes))
      case _ => None
  }

  /** The two query values of a link are separable: because an encoded value
      holds no `&`, the split finds exactly the `e` and `s` values. */
  lemma SplitAtSizesKey(e: seq<byte>, s: seq<byte>)
    requires forall k :: 0 <= k < |e| ==> e[k] != Ampersand
    ensures SplitQuery(Prefix + e + SizesKey + s) == Some((e, s))
  {
    var url := Prefix + e + SizesKey + s;
    assert url[..|Prefix|] == Prefix;
    var query := url[|Prefix|..];
    assert query == e + SizesKey + s;
    assert |SizesKey| == 3 && SizesKey[0] == Ampersand;
    assert query[|e|] == Ampersand;
    assert forall k :: 0 <= k < |e| ==> query[k] == e[k];
    assert IndexOf(query, Ampersand) == |e|;
    assert query[|e| .. |e| + 3] == SizesKey;
    assert query[..|e|] == e && query[|e| + 3..] == s;
  }

  /** A compressor that never maps two inputs to one output. */
  ghost predicate Injective(compress: Compressor)
  {
    forall a, b :: compress(a) == compress(b) ==> a == b
  }

  /** With a lossless compressor, a link determines its expression and
      sizes: different inputs never share a link. */
  lemma LinkDeterminesInputs(compress: Compressor, e1: seq<byte>, s1: seq<byte>, e2: seq<byte>, s2: seq<byte>)
    requires Injective(compress)
    ensures CreateShareableUrl(compress, e1, s1) == CreateShareableUrl(compress, e2, s2) <==> e1 == e2 && s1 == s2
  {
    if CreateShareableUrl(compress, e1, s1) == CreateShareableUrl(compress, e2, s2) {
      var q1, q2 := QuoteExpression(e1), QuoteExpression(e2);
      var b1, b2 := BracketSizes(s1), BracketSizes(s2);
      assert compress(q1) == compress(q2) && compress(b1) == compress(b2);
      assert q1 == q2 && b1 == b2;
      assert e1 == q1[1 .. |q1| - 1];
      assert s1 == b1[1 .. |b1| - 1];
    }
  }
}
