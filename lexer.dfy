/** What the main loop of utf8strings.c and checkandprint read from the input,
    one step at a time, as a pure function of the input and a read position.

    The byte source (getc/ungetc) is an input sequence with a cursor: getc
    moves the cursor forward, ungetc of the byte just read moves it back. Each
    step yields a token: an accepted character, or the bytes consumed while
    rejecting (those reset the current run). */
module Lexer {
  import opened Utf8

  datatype Token =
    | Char(bytes: seq<byte>)    // accepted: appended to the run
    | Skip(bytes: seq<byte>)    // rejected: the run is reset

  /** A character the program accepts: printable ASCII or newline, or a
      well-shaped sequence whose code point lies in the accepted ranges. */
  predicate ValidChar(b: seq<byte>) {
    (|b| == 1 && (IsPrint(b[0]) || b[0] == NL))
    || (Shaped(b) && InAcceptedRange(Decode(b), |b|))
  }

  /** The number of continuation bytes checkandprint reads from `from` when it
      wants n of them: it stops at the end of input or at the first byte that
      is not a continuation byte. */
  function ContinuationRun(input: seq<byte>, from: nat, n: nat): (k: nat)
    requires from <= |input|
    decreases n
    ensures k <= n && from + k <= |input|
    ensures forall j :: from <= j < from + k ==> IsCont(input[j])
    ensures k < n ==> from + k == |input| || !IsCont(input[from + k])
  {
    if n == 0 || from == |input| || !IsCont(input[from]) then 0
    else 1 + ContinuationRun(input, from + 1, n - 1)
  }

  /** ContinuationRun is determined by what it promises: a count k of
      continuation bytes, stopped early only by the end of input or by a byte
      that is not a continuation byte, is the count. */
  lemma ContinuationRunIs(input: seq<byte>, from: nat, n: nat, k: nat)
    requires from + k <= |input| && k <= n
    requires forall j :: from <= j < from + k ==> IsCont(input[j])
    requires k < n ==> from + k == |input| || !IsCont(input[from + k])
    ensures ContinuationRun(input, from, n) == k
  {
  }

  /** checkandprint on the lead byte input[start], wanting n continuation
      bytes. The result is the token and the position the next read happens
      at. A short read ends either at the end of input or just before the
      offending byte, which was pushed back and will be read again. */
  function ReadSequence(input: seq<byte>, start: nat, n: nat): (r: (Token, nat))
    requires start < |input| && 1 <= n
    ensures start + 1 <= r.1 <= start + 1 + n && r.1 <= |input|
    ensures r.0.bytes == input[start..r.1]
  {
    var k := ContinuationRun(input, start + 1, n);
    var end := start + 1 + k;
    var bytes := input[start..end];
    if k < n then (Skip(bytes), end)
    else if IsSurrogate(bytes) || IsTooBig(bytes) then (Skip(bytes), end)
    else (Char(bytes), end)
  }

  /** One iteration of the main loop, reading the byte at pos. */
  function NextToken(input: seq<byte>, pos: nat): (r: (Token, nat))
    requires pos < |input|
    ensures pos < r.1 <= |input| && r.0.bytes == input[pos..r.1]
  {
    var c := input[pos];
    match Classify(c)
    case Single => (Char([c]), pos + 1)
    case Reject => (Skip([c]), pos + 1)
    case Lead(n) => ReadSequence(input, pos, n)
  }

  /** The tokens of the main loop from pos to the end of input. */
  function Tokens(input: seq<byte>, pos: nat): seq<Token>
    requires pos <= |input|
    decreases |input| - pos
  {
    if pos == |input| then []
    else
      var (t, next) := NextToken(input, pos);
      [t] + Tokens(input, next)
  }

  /** The bytes of a token sequence, in order. */
  function Flatten(toks: seq<Token>): seq<byte> {
    if toks == [] then [] else toks[0].bytes + Flatten(toks[1..])
  }

  /** The tokens cut the input into consecutive pieces: every input byte is
      either part of exactly one accepted character or one rejected piece,
      in the original order, and accepted bytes are the input's own bytes. */
  lemma {:induction false} TokensCoverInput(input: seq<byte>, pos: nat)
    requires pos <= |input|
    ensures Flatten(Tokens(input, pos)) == input[pos..]
    decreases |input| - pos
  {
    if pos < |input| {
      var (t, next) := NextToken(input, pos);
      TokensCoverInput(input, next);
      assert Tokens(input, pos)[1..] == Tokens(input, next);
      assert input[pos..] == input[pos..next] + input[next..];
    }
  }

  /** A step accepts exactly the valid character that begins at pos: what it
      accepts is valid, and when a valid character begins there it is
      accepted whole. */
  lemma NextTokenAcceptsValid(input: seq<byte>, pos: nat)
    requires pos < |input|
    ensures NextToken(input, pos).0.Char? ==> ValidChar(NextToken(input, pos).0.bytes)
    ensures forall end :: pos < end <= pos + 4 && end <= |input| && ValidChar(input[pos..end]) ==>
              NextToken(input, pos).0 == Char(input[pos..end])
  {
    var (t, next) := NextToken(input, pos);
    var c := input[pos];
    if t.Char? && Classify(c).Lead? {
      var b := t.bytes;
      assert |b| == Classify(c).continuations + 1;
      assert Shaped(b);
      AcceptsIffInRange(b);
    }
    forall end | pos < end <= pos + 4 && end <= |input| && ValidChar(input[pos..end])
      ensures t == Char(input[pos..end])
    {
      var k := end - pos;
      var b := input[pos..end];
      if k >= 2 {
        assert Shaped(b);
        AcceptsIffInRange(b);
        assert forall j :: pos + 1 <= j < pos + k ==> IsCont(input[j]) by {
          forall j | pos + 1 <= j < pos + k ensures IsCont(input[j]) {
            assert input[j] == b[j - pos];
          }
        }
        assert ContinuationRun(input, pos + 1, k - 1) == k - 1;
      }
    }
  }

  /** A rejected piece swallows nothing that could start a character: after
      its first byte it holds only continuation bytes, which are rejected on
      their own anyway. The byte that broke the sequence is left unread. */
  lemma SkipHoldsOnlyContinuations(input: seq<byte>, pos: nat)
    requires pos < |input|
    ensures NextToken(input, pos).0.Skip? ==>
              forall j :: 1 <= j < |NextToken(input, pos).0.bytes| ==> IsCont(NextToken(input, pos).0.bytes[j])
  {
  }

  /** Every character accepted over the whole input is valid, so 1 to 4
      bytes long. */
  lemma {:induction false} TokensAcceptOnlyValid(input: seq<byte>, pos: nat)
    requires pos <= |input|
    ensures forall t :: t in Tokens(input, pos) && t.Char? ==> ValidChar(t.bytes) && 1 <= |t.bytes| <= 4
    decreases |input| - pos
  {
    if pos < |input| {
      var (t, next) := NextToken(input, pos);
      NextTokenAcceptsValid(input, pos);
      TokensAcceptOnlyValid(input, next);
    }
  }
}
