/** Byte-level UTF-8 rules of utf8strings.c: how one input byte is classified,
    what a continuation byte is, the surrogate and too-big checks, and the code
    point a sequence decodes to.

    A byte is an int in 0..255 (what getc returns for a non-EOF read). The
    source's shifts and masks, `c >> k` and `c & (2^k - 1)`, are written as
    `c / 2^k` and `c % 2^k`, which agree with them on non-negative values. */
module Utf8 {

  type byte = x: int | 0 <= x < 256

  const NL: byte := 0x0A

  /** How the main loop treats a byte read at the start of a character. */
  datatype Kind =
    | Single                      // accepted on its own (printable ASCII or newline)
    | Reject                      // resets the current run
    | Lead(continuations: nat)    // starts a sequence of 1, 2 or 3 continuation bytes

  /** isprint() in the C locale (the program never calls setlocale). */
  predicate IsPrint(c: byte) {
    0x20 <= c <= 0x7E
  }

  /** The guard chain of the main loop, in the order the source tests it.
      The contract gives the byte ranges that chain amounts to. */
  function Classify(c: byte): (k: Kind)
    ensures k == Single <==> IsPrint(c) || c == NL
    ensures k == Lead(1) <==> 0xC2 <= c <= 0xDF
    ensures k == Lead(2) <==> 0xE1 <= c <= 0xEF
    ensures k == Lead(3) <==> 0xF1 <= c <= 0xF4
    ensures k.Lead? ==> 1 <= k.continuations <= 3
  {
    if IsPrint(c) || c == NL then Single        // ASCII text
    else if c < 0x80 then Reject                // unprintable ASCII
    else if c < 0xA0 then Reject                // stray continuation bytes 0x80..0x9F
    else if c == 0xC0 || c == 0xC1 || c >= 0xF5 then Reject
    else if c / 32 == 6 && c % 32 != 0 then Lead(1)   // 110xxxxx, data bits not all zero
    else if c / 16 == 14 && c % 16 != 0 then Lead(2)  // 1110xxxx, data bits not all zero
    else if c / 8 == 30 && c % 8 != 0 then Lead(3)    // 11110xxx, data bits not all zero
    else Reject
  }

  /** The bytes the main loop rejects on the spot, without reading further:
      control bytes other than newline, DEL, the stray continuation bytes
      0x80..0xBF, the overlong leads 0xC0 and 0xC1, the leads 0xE0 and 0xF0
      (all-zero data bits), and 0xF5..0xFF. */
  lemma RejectedBytes(c: byte)
    ensures Classify(c) == Reject <==>
              (c < 0x20 && c != NL) || 0x7F <= c <= 0xC1 || c == 0xE0 || c == 0xF0 || c >= 0xF5
  {
    match Classify(c)
    case Single =>
    case Reject =>
    case Lead(n) =>
      assert 1 <= n <= 3;
  }

  /** A continuation byte has top two bits 10 (`c >> 6 == 0b10`). */
  predicate IsCont(c: byte) {
    c / 64 == 2
  }

  /** The continuation bytes are 0x80..0xBF. */
  lemma ContinuationRange(c: byte)
    ensures IsCont(c) <==> 0x80 <= c <= 0xBF
  {
  }

  /** No continuation byte can start a character: on its own it is rejected. */
  lemma ContinuationRejected(c: byte)
    requires IsCont(c)
    ensures Classify(c) == Reject
  {
  }

  /** issurrogate: a sequence led by 0xED whose first continuation byte has its
      top data bit set encodes U+D800..U+DFFF. Read with unsigned bytes; see
      SignedChar for what the source's `char` comparison does instead. */
  predicate IsSurrogate(bytes: seq<byte>)
    requires |bytes| >= 2
  {
    bytes[0] == 0xED && (bytes[1] % 64) / 32 == 1
  }

  /** istoobig: a sequence led by 0xF4 whose first continuation byte has any of
      its top two data bits set encodes more than U+10FFFF. */
  predicate IsTooBig(bytes: seq<byte>)
    requires |bytes| >= 2
  {
    bytes[0] == 0xF4 && (bytes[1] % 64) / 16 > 0
  }

  lemma SurrogateBytes(bytes: seq<byte>)
    requires |bytes| >= 2 && IsCont(bytes[1])
    ensures IsSurrogate(bytes) <==> bytes[0] == 0xED && 0xA0 <= bytes[1] <= 0xBF
  {
  }

  lemma TooBigBytes(bytes: seq<byte>)
    requires |bytes| >= 2 && IsCont(bytes[1])
    ensures IsTooBig(bytes) <==> bytes[0] == 0xF4 && bytes[1] >= 0x90
  {
  }

  /** The structure the program checks before the range checks: a lead byte
      whose top bits announce |bytes| bytes, followed by continuation bytes.
      Overlong shapes (leads 0xC0, 0xE0, 0xF0) and leads 0xF5..0xF7 fit it. */
  predicate Shaped(bytes: seq<byte>) {
    2 <= |bytes| <= 4
    && (|bytes| == 2 ==> bytes[0] / 32 == 6)
    && (|bytes| == 3 ==> bytes[0] / 16 == 14)
    && (|bytes| == 4 ==> bytes[0] / 8 == 30)
    && forall j :: 1 <= j < |bytes| ==> IsCont(bytes[j])
  }

  /** The code point a shaped sequence carries in its data bits. */
  function Decode(bytes: seq<byte>): int
    requires 2 <= |bytes| <= 4
  {
    var b: seq<int> := bytes;
    if |b| == 2 then
      (b[0] % 32) * 0x40 + b[1] % 64
    else if |b| == 3 then
      (b[0] % 16) * 0x1000 + (b[1] % 64) * 0x40 + b[2] % 64
    else
      (b[0] % 8) * 0x40000 + (b[1] % 64) * 0x1000 + (b[2] % 64) * 0x40 + b[3] % 64
  }

  /** The program's verdict on a shaped sequence once all its continuation
      bytes are read: the lead passed the main loop's guards for this length,
      and neither range check fired. */
  predicate AcceptsSequence(bytes: seq<byte>)
    requires 2 <= |bytes| <= 4
  {
    Classify(bytes[0]) == Lead(|bytes| - 1) && !IsSurrogate(bytes) && !IsTooBig(bytes)
  }

  /** The code points the program accepts as a k-byte sequence. Narrower than
      the scalar values of RFC 3629: U+0800..U+0FFF (lead 0xE0) and
      U+10000..U+3FFFF (lead 0xF0) are refused. */
  predicate InAcceptedRange(cp: int, k: nat) {
    (k == 2 && 0x80 <= cp <= 0x7FF)
    || (k == 3 && 0x1000 <= cp <= 0xFFFF && !(0xD800 <= cp <= 0xDFFF))
    || (k == 4 && 0x40000 <= cp <= 0x10FFFF)
  }

  /** A Unicode scalar value: at most U+10FFFF and not a surrogate half. */
  predicate IsScalarValue(cp: int) {
    0 <= cp <= 0x10FFFF && !(0xD800 <= cp <= 0xDFFF)
  }

  /** The length of the shortest UTF-8 encoding of cp (section 3 of RFC 3629). */
  function EncodedLength(cp: int): nat {
    if cp < 0x80 then 1 else if cp < 0x800 then 2 else if cp < 0x10000 then 3 else 4
  }

  /** The UTF-8 encoding of a scalar value, as section 3 of RFC 3629 lays out:
      the code point is cut into 6-bit groups, the low groups go into
      continuation bytes and the rest into the lead byte. */
  function Encode(cp: int): (bytes: seq<byte>)
    requires IsScalarValue(cp)
    ensures |bytes| == EncodedLength(cp)
  {
    var d0, c1 := cp % 64, cp / 64;
    var d1, c2 := c1 % 64, c1 / 64;
    var d2, c3 := c2 % 64, c2 / 64;
    if cp < 0x80 then [cp]
    else if cp < 0x800 then [0xC0 + c1, 0x80 + d0]
    else if cp < 0x10000 then [0xE0 + c2, 0x80 + d1, 0x80 + d0]
    else [0xF0 + c3, 0x80 + d2, 0x80 + d1, 0x80 + d0]
  }

  /** Every code point the program accepts is a scalar value whose shortest
      encoding has exactly the length read: nothing accepted is overlong, a
      surrogate half, or beyond U+10FFFF. */
  lemma AcceptedRangeIsValid(cp: int, k: nat)
    requires InAcceptedRange(cp, k)
    ensures IsScalarValue(cp) && EncodedLength(cp) == k
  {
  }

  /** The program's checks on a shaped sequence (lead guards of the main loop,
      issurrogate, istoobig) accept it exactly when its code point lies in the
      accepted ranges. */
  lemma {:induction false} AcceptsIffInRange(bytes: seq<byte>)
    requires Shaped(bytes)
    ensures AcceptsSequence(bytes) <==> InAcceptedRange(Decode(bytes), |bytes|)
  {
    var b: seq<int> := bytes;
    var b0, b1 := b[0], b[1];
    assert IsCont(b1);
    SurrogateBytes(bytes);
    TooBigBytes(bytes);
    if |bytes| == 2 {
      assert Decode(bytes) == (b0 - 0xC0) * 0x40 + (b1 - 0x80);
    } else if |bytes| == 3 {
      assert IsCont(bytes[2]);
      assert Decode(bytes) == (b0 - 0xE0) * 0x1000 + (b1 - 0x80) * 0x40 + (b[2] - 0x80);
    } else {
      assert IsCont(bytes[2]) && IsCont(bytes[3]);
      assert Decode(bytes) == (b0 - 0xF0) * 0x40000 + (b1 - 0x80) * 0x1000 + (b[2] - 0x80) * 0x40 + (b[3] - 0x80);
    }
  }

  /** Decoding inverts encoding for every multi-byte scalar value. */
  lemma DecodeEncode(cp: int)
    requires IsScalarValue(cp) && cp >= 0x80
    ensures Shaped(Encode(cp)) && Decode(Encode(cp)) == cp
  {
    var e: seq<int> := Encode(cp);
    var d0, c1 := cp % 64, cp / 64;
    var d1, c2 := c1 % 64, c1 / 64;
    var d2, c3 := c2 % 64, c2 / 64;
    if cp < 0x800 {
      assert e == [6 * 32 + c1, 2 * 64 + d0];
      assert e[0] / 32 == 6 && e[0] % 32 == c1;
      assert IsCont(e[1]) && e[1] % 64 == d0;
    } else if cp < 0x10000 {
      assert e == [14 * 16 + c2, 2 * 64 + d1, 2 * 64 + d0];
      assert e[0] / 16 == 14 && e[0] % 16 == c2;
      assert IsCont(e[1]) && e[1] % 64 == d1;
      assert IsCont(e[2]) && e[2] % 64 == d0;
    } else {
      assert e == [30 * 8 + c3, 2 * 64 + d2, 2 * 64 + d1, 2 * 64 + d0];
      assert e[0] / 8 == 30 && e[0] % 8 == c3;
      assert IsCont(e[1]) && e[1] % 64 == d2;
      assert IsCont(e[2]) && e[2] % 64 == d1;
      assert IsCont(e[3]) && e[3] % 64 == d0;
    }
  }

  /** An accepted sequence is the encoding of the code point it decodes to:
      the program passes bytes through verbatim, and they are canonical UTF-8. */
  lemma {:induction false} EncodeDecode(bytes: seq<byte>)
    requires Shaped(bytes) && AcceptsSequence(bytes)
    ensures IsScalarValue(Decode(bytes)) && Encode(Decode(bytes)) == bytes
  {
    AcceptsIffInRange(bytes);
    var cp := Decode(bytes);
    AcceptedRangeIsValid(cp, |bytes|);
    var b: seq<int> := bytes;
    var d0, c1 := cp % 64, cp / 64;
    var d1, c2 := c1 % 64, c1 / 64;
    var d2, c3 := c2 % 64, c2 / 64;
    assert IsCont(b[1]);
    if |b| == 2 {
      assert cp == (b[0] - 0xC0) * 64 + (b[1] - 0x80);
      assert c1 == b[0] - 0xC0 && d0 == b[1] - 0x80;
    } else if |b| == 3 {
      assert IsCont(b[2]);
      assert cp == ((b[0] - 0xE0) * 64 + (b[1] - 0x80)) * 64 + (b[2] - 0x80);
      assert c1 == (b[0] - 0xE0) * 64 + (b[1] - 0x80) && d0 == b[2] - 0x80;
      assert c2 == b[0] - 0xE0 && d1 == b[1] - 0x80;
    } else {
      assert IsCont(b[2]) && IsCont(b[3]);
      assert cp == (((b[0] - 0xF0) * 64 + (b[1] - 0x80)) * 64 + (b[2] - 0x80)) * 64 + (b[3] - 0x80);
      assert c1 == ((b[0] - 0xF0) * 64 + (b[1] - 0x80)) * 64 + (b[2] - 0x80) && d0 == b[3] - 0x80;
      assert c2 == (b[0] - 0xF0) * 64 + (b[1] - 0x80) && d1 == b[2] - 0x80;
      assert c3 == b[0] - 0xF0 && d2 == b[1] - 0x80;
    }
  }

  /** The program is stricter than RFC 3629: U+0800 and U+10000 are scalar
      values whose encodings (E0 A0 80 and F0 90 80 80) it refuses, because
      their lead bytes have all-zero data bits. */
  lemma StricterThanRfc3629()
    ensures Encode(0x800) == [0xE0, 0xA0, 0x80] && !AcceptsSequence(Encode(0x800))
    ensures Encode(0x10000) == [0xF0, 0x90, 0x80, 0x80] && !AcceptsSequence(Encode(0x10000))
  {
  }

  /** Which scalar values beyond ASCII the program accepts in their UTF-8
      encoding: all of them except U+0800..U+0FFF and U+10000..U+3FFFF. */
  lemma AcceptedScalarValues(cp: int)
    requires IsScalarValue(cp) && cp >= 0x80
    ensures AcceptsSequence(Encode(cp)) <==> !(0x800 <= cp <= 0xFFF || 0x10000 <= cp <= 0x3FFFF)
  {
    DecodeEncode(cp);
    AcceptsIffInRange(Encode(cp));
  }

  /** C1 code points are not excluded: C2 80 (U+0080) is accepted. */
  lemma C1CodePointAccepted()
    ensures Shaped([0xC2, 0x80]) && AcceptsSequence([0xC2, 0x80]) && Decode([0xC2, 0x80]) == 0x80
  {
  }
}
