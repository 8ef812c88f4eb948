/** Octets and the few ASCII facts the share-link encoders rely on.
    A C++ `std::string` is modelled as a sequence of octets; the C library's
    `isalnum` is taken with its "C" locale meaning over unsigned bytes.
    Line numbers in this project's comments refer to
    `api_usage/compression.cpp`. */
module Bytes {

  /** One octet, the value of an `unsigned char`. */
  type byte = b: int | 0 <= b < 256

  /** Optional value, for partial inverses. */
  datatype Option<T> = None | Some(value: T)

  /** The octets of a string literal written in ASCII: each character's
      code point, one octet per character. */
  function Ascii(s: string): (r: seq<byte>)
    requires forall i :: 0 <= i < |s| ==> s[i] as int < 128
    ensures |r| == |s|
    ensures forall i :: 0 <= i < |s| ==> r[i] == s[i] as int
  {
    seq(|s|, i requires 0 <= i < |s| => s[i] as int)
  }

  /** The byte value of an ASCII character. */
  function Code(c: char): (b: byte)
    requires c as int < 128
  {
    c as int
  }

  predicate IsUpper(b: byte) { Code('A') <= b <= Code('Z') }
  predicate IsLower(b: byte) { Code('a') <= b <= Code('z') }
  predicate IsDigit(b: byte) { Code('0') <= b <= Code('9') }

  /** `isalnum` in the "C" locale: ASCII letters and decimal digits only. */
  predicate IsAlnum(b: byte) { IsUpper(b) || IsLower(b) || IsDigit(b) }
}
