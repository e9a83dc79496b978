/** The test inputs listed in the notes at the end of utf8strings.c, stated
    as facts about the model: what one step of the main loop does with each,
    and what the whole program prints for it with the built-in minimum run
    length of 4. */
module SourceTests {
  import opened Utf8
  import opened Lexer
  import opened Accumulator

  /** What the program prints for an input with the built-in minimum run
      length. */
  function Output(input: seq<byte>): seq<byte> {
    Printed(Runs(Tokens(input, 0)), DefaultMinLen)
  }

  /** Test 1a: F4 90 80 80 would be U+110000, beyond Unicode; it is rejected
      and nothing is printed. */
  lemma BeyondUnicodeRejected()
    ensures NextToken([0xF4, 0x90, 0x80, 0x80], 0) == (Skip([0xF4, 0x90, 0x80, 0x80]), 4)
    ensures Output([0xF4, 0x90, 0x80, 0x80]) == []
  {
    var x: seq<byte> := [0xF4, 0x90, 0x80, 0x80];
    ContinuationRunIs(x, 1, 3, 3);
    assert x[0..4] == x;
    assert Tokens(x, 0) == [Skip(x)];
    assert Runs([Skip(x)]) == [[], []];
  }

  /** Test 1b: F4 8F BF BF is U+10FFFF, the last code point; it is accepted
      as one character. On its own it is a run of one, below the minimum, so
      the program prints nothing for it. */
  lemma LastCodePointAccepted()
    ensures NextToken([0xF4, 0x8F, 0xBF, 0xBF], 0) == (Char([0xF4, 0x8F, 0xBF, 0xBF]), 4)
    ensures Output([0xF4, 0x8F, 0xBF, 0xBF]) == []
  {
    var x: seq<byte> := [0xF4, 0x8F, 0xBF, 0xBF];
    ContinuationRunIs(x, 1, 3, 3);
    assert x[0..4] == x;
    assert Tokens(x, 0) == [Char(x)];
    assert [Char(x)][1..] == [] && [x] + [] == [x];
    assert Runs([Char(x)]) == [[x]];
  }

  /** Test 2a: ED A0 80 is U+D800, a surrogate half; it is rejected. */
  lemma SurrogateRejected()
    ensures NextToken([0xED, 0xA0, 0x80], 0) == (Skip([0xED, 0xA0, 0x80]), 3)
  {
    var x: seq<byte> := [0xED, 0xA0, 0x80];
    ContinuationRunIs(x, 1, 2, 2);
    assert x[0..3] == x;
  }

  /** Test 2b: ED 9F BF is U+D7FF, just below the surrogates; it is accepted. */
  lemma BelowSurrogatesAccepted()
    ensures NextToken([0xED, 0x9F, 0xBF], 0) == (Char([0xED, 0x9F, 0xBF]), 3)
  {
    var x: seq<byte> := [0xED, 0x9F, 0xBF];
    ContinuationRunIs(x, 1, 2, 2);
    assert x[0..3] == x;
  }

  /** A sequence cut short by a byte that is not a continuation byte is
      rejected, and that byte is read again on its own: in C3 41 the lead C3
      is dropped and the next step reads the A. */
  lemma PushedBackByteReread()
    ensures NextToken([0xC3, 0x41], 0) == (Skip([0xC3]), 1)
    ensures NextToken([0xC3, 0x41], 1) == (Char([0x41]), 2)
  {
    var x: seq<byte> := [0xC3, 0x41];
    ContinuationRunIs(x, 1, 1, 0);
    assert x[0..1] == [0xC3];
  }

  /** End of input inside a sequence: the partial character is dropped. */
  lemma TruncatedAtEnd()
    ensures NextToken([0xE2, 0x82], 0) == (Skip([0xE2, 0x82]), 2)
  {
    var x: seq<byte> := [0xE2, 0x82];
    ContinuationRunIs(x, 1, 2, 1);
    assert x[0..2] == x;
  }
}
