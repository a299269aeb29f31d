/** UTF-8 as section 3 of RFC 3629 defines it, for text without NUL. */
module Utf8 {
  import opened Bytes

  /** A Unicode scalar value other than 0. */
  type CodePoint = c: int | 0 < c < 0xD800 || 0xDFFF < c <= 0x10FFFF witness 1

  function Encoding(c: CodePoint): bytes {
    if c <= 0x7F then [c]
    else if c <= 0x7FF then [0xC0 + c / 64, 0x80 + c % 64]
    else if c <= 0xFFFF then [0xE0 + c / 4096, 0x80 + c / 64 % 64, 0x80 + c % 64]
    else [0xF0 + c / 262144, 0x80 + c / 4096 % 64, 0x80 + c / 64 % 64, 0x80 + c % 64]
  }

  function Encodings(cps: seq<CodePoint>): (r: seq<bytes>)
    ensures |r| == |cps| && forall i :: 0 <= i < |cps| ==> r[i] == Encoding(cps[i])
  {
    seq(|cps|, i requires 0 <= i < |cps| => Encoding(cps[i]))
  }

  function Text(cps: seq<CodePoint>): bytes {
    if cps == [] then [] else Encoding(cps[0]) + Text(cps[1..])
  }

  /** Single bytes encode the code points below 128, and only those. */
  lemma EncodingBytes(c: CodePoint)
    ensures if c < 128 then Encoding(c) == [c] else |Encoding(c)| > 1
    ensures Encoding(c) != [] && forall b :: b in Encoding(c) ==> (b < 128 <==> c < 128)
  {
  }

  /** Every byte of a text belongs to the encoding of one of its code points. */
  lemma {:induction false} TextBytes(cps: seq<CodePoint>)
    ensures forall c :: c in cps ==> forall b :: b in Encoding(c) ==> b in Text(cps)
    ensures forall b :: b in Text(cps) ==> exists c :: c in cps && b in Encoding(c)
  {
    hide Encoding;
    if cps != [] {
      TextBytes(cps[1..]);
      assert cps == [cps[0]] + cps[1..];
    }
  }
}
