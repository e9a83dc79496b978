/** issurrogate and istoobig as written, on a platform where `char` is
    signed. checkandprint stores the bytes it read in `char bytes[5]`, so a
    byte of 0x80 or more is held as a negative value, and the comparisons
    `bytes[0]==0xED` and `bytes[0]==0xF4` compare it with 237 and 244: they
    can never hold. The range checks then never fire, and the program accepts
    surrogate halves and code points above U+10FFFF. Utf8.IsSurrogate and
    Utf8.IsTooBig are the intended, unsigned checks that the rest of the
    model uses. */
module SignedChar {
  import opened Utf8

  /** The value a byte has once stored in a signed two's-complement `char`. */
  function AsSignedChar(b: byte): (v: int)
    ensures -128 <= v <= 127
    ensures v < 0 <==> b >= 0x80
    ensures v % 256 == b
  {
    if b < 0x80 then b else b - 256
  }

  /** issurrogate as written, with signed `char`. The mask `& 0b111111` of a
      negative value keeps its low six bits, which is `% 64` here. */
  predicate IsSurrogateAsWritten(bytes: seq<byte>)
    requires |bytes| >= 2
  {
    var lead, bit := AsSignedChar(bytes[0]), (AsSignedChar(bytes[1]) % 64) / 32;
    lead == 0xED && bit == 1
  }

  /** istoobig as written, with signed `char`. */
  predicate IsTooBigAsWritten(bytes: seq<byte>)
    requires |bytes| >= 2
  {
    var lead, bits := AsSignedChar(bytes[0]), (AsSignedChar(bytes[1]) % 64) / 16;
    lead == 0xF4 && bits > 0
  }

  /** The masks agree with the unsigned reading; only the lead comparison
      differs. */
  lemma MaskUnaffected(b: byte)
    ensures AsSignedChar(b) % 64 == b % 64
  {
  }

  /** As written, neither check can ever hold: a lead byte is at least 0xC2,
      so its signed value is negative. */
  lemma {:induction false} ChecksNeverFire(bytes: seq<byte>)
    requires |bytes| >= 2 && Classify(bytes[0]).Lead?
    ensures !IsSurrogateAsWritten(bytes) && !IsTooBigAsWritten(bytes)
  {
    assert bytes[0] >= 0xC2;
    assert AsSignedChar(bytes[0]) < 0;
  }

  /** The verdict checkandprint reaches as written on a complete sequence. */
  predicate AcceptsSequenceAsWritten(bytes: seq<byte>)
    requires 2 <= |bytes| <= 4
  {
    Classify(bytes[0]) == Lead(|bytes| - 1) && !IsSurrogateAsWritten(bytes) && !IsTooBigAsWritten(bytes)
  }

  /** ED A0 80, the encoding of the surrogate half U+D800 (test 2a of the
      source's notes), is accepted as written, and the intended check
      rejects it. */
  lemma SurrogateAcceptedAsWritten()
    ensures Shaped([0xED, 0xA0, 0x80]) && Decode([0xED, 0xA0, 0x80]) == 0xD800
    ensures !IsScalarValue(Decode([0xED, 0xA0, 0x80]))
    ensures AcceptsSequenceAsWritten([0xED, 0xA0, 0x80])
    ensures !AcceptsSequence([0xED, 0xA0, 0x80])
  {
    ChecksNeverFire([0xED, 0xA0, 0x80]);
  }

  /** F4 90 80 80, which would be U+110000 (test 1a), is accepted as
      written, and the intended check rejects it. */
  lemma TooBigAcceptedAsWritten()
    ensures Shaped([0xF4, 0x90, 0x80, 0x80]) && Decode([0xF4, 0x90, 0x80, 0x80]) == 0x110000
    ensures !IsScalarValue(Decode([0xF4, 0x90, 0x80, 0x80]))
    ensures AcceptsSequenceAsWritten([0xF4, 0x90, 0x80, 0x80])
    ensures !AcceptsSequence([0xF4, 0x90, 0x80, 0x80])
  {
    ChecksNeverFire([0xF4, 0x90, 0x80, 0x80]);
  }
}
