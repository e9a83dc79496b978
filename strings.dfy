/** utf8strings.c as a program: the byte source, the output buffer `buf` of
    minlen*4+1 bytes with its index, the run counter and the neednewline flag,
    and the main loop. Every method is proved against the pure layers: the
    main loop writes exactly what the streaming accumulator writes over the
    token stream, which is every run of at least minlen characters, one per
    line. */
module Strings {
  import opened Utf8
  import opened Lexer
  import opened Accumulator

  /** getc's end-of-file value. */
  const EOF: int := -1

  /** Every accepted character in the tokens of an input has at least one
      byte, as the accumulator needs. */
  lemma TokensFit(input: seq<byte>, pos: nat)
    requires pos <= |input|
    ensures CharsNonEmpty(Tokens(input, pos))
  {
    var toks := Tokens(input, pos);
    TokensAcceptOnlyValid(input, pos);
    forall i | 0 <= i < |toks| && toks[i].Char?
      ensures toks[i].bytes != []
    {
      assert toks[i] in toks;
    }
  }

  /** What is still to be written when the program has read up to pos in
      accumulator state a: the accumulator over the remaining tokens, ending
      with the final newline of main. */
  ghost function Pending(input: seq<byte>, pos: nat, a: Acc, minlen: nat): seq<byte>
    requires pos <= |input|
  {
    TokensFit(input, pos);
    Stream(Tokens(input, pos), a, minlen)
  }

  /** Pending, unfolded on the token read at pos. */
  lemma PendingStep(input: seq<byte>, pos: nat, a: Acc, minlen: nat)
    requires pos < |input|
    ensures NextToken(input, pos).0.Char? ==> NextToken(input, pos).0.bytes != []
    ensures Pending(input, pos, a, minlen)
              == Step(a, NextToken(input, pos).0, minlen).1
                 + Pending(input, NextToken(input, pos).1, Step(a, NextToken(input, pos).0, minlen).0, minlen)
  {
    var (t, next) := NextToken(input, pos);
    var toks := Tokens(input, pos);
    TokensFit(input, pos);
    TokensFit(input, next);
    assert toks[0] == t && toks[1..] == Tokens(input, next);
  }

  /** Every character of every run is one the program accepts: printable
      ASCII, a newline, or a well-formed sequence of 1 to 4 bytes whose code
      point is in the accepted ranges. No invalid code point is ever printed. */
  lemma PrintedCharsAreValid(input: seq<byte>)
    ensures forall i, j :: 0 <= i < |Runs(Tokens(input, 0))| && 0 <= j < |Runs(Tokens(input, 0))[i]| ==>
              ValidChar(Runs(Tokens(input, 0))[i][j]) && 1 <= |Runs(Tokens(input, 0))[i][j]| <= 4
  {
    RunsHoldAcceptedChars(Tokens(input, 0));
    TokensAcceptOnlyValid(input, 0);
  }

  /** The runs of the input, interleaved with the rejected pieces, are the
      input: what is printed is taken verbatim and in order. */
  lemma RunsRebuildInput(input: seq<byte>)
    ensures |Runs(Tokens(input, 0))| == |Skipped(Tokens(input, 0))| + 1
    ensures Interleave(Runs(Tokens(input, 0)), Skipped(Tokens(input, 0))) == input
  {
    TokensCoverInput(input, 0);
    RunsRebuildStream(Tokens(input, 0));
    assert input[0..] == input;
  }

  /** Text made only of printable ASCII and newlines is one run, whose
      bytes are the text. */
  lemma {:induction false} TextIsOneRun(input: seq<byte>, pos: nat)
    requires pos <= |input|
    requires forall j :: pos <= j < |input| ==> IsPrint(input[j]) || input[j] == NL
    ensures |Runs(Tokens(input, pos))| == 1
    ensures |Runs(Tokens(input, pos))[0]| == |input| - pos && Bytes(Runs(Tokens(input, pos))[0]) == input[pos..]
    decreases |input| - pos
  {
    if pos < |input| {
      var c := input[pos];
      assert NextToken(input, pos) == (Char([c]), pos + 1);
      var toks := Tokens(input, pos);
      assert toks == [Char([c])] + Tokens(input, pos + 1);
      assert toks[1..] == Tokens(input, pos + 1);
      TextIsOneRun(input, pos + 1);
      var R := Runs(Tokens(input, pos + 1));
      var run := [[c]] + R[0];
      assert Runs(toks) == [run];
      assert run[1..] == R[0];
      assert input[pos..] == [c] + input[pos + 1..];
    }
  }

  /** Plain text passes through unchanged: printable ASCII and newlines of at
      least minlen bytes are printed as one line, and shorter text not at
      all. */
  lemma TextPrintedAsOneLine(input: seq<byte>, minlen: nat)
    requires forall j :: 0 <= j < |input| ==> IsPrint(input[j]) || input[j] == NL
    ensures Printed(Runs(Tokens(input, 0)), minlen) == if |input| >= minlen then Line(input) else []
  {
    TextIsOneRun(input, 0);
    assert input[0..] == input;
    PrintedEnd(Runs(Tokens(input, 0))[0], minlen);
    assert Runs(Tokens(input, 0)) == [Runs(Tokens(input, 0))[0]];
  }

  class Scanner {
    /** The minimum number of characters in a row before anything is written. */
    const minlen: nat
    /** buf: the bytes of the current run not yet written, NUL-terminated. */
    const buf: array<byte>
    /** The byte stream read by getc, and the read position in it. */
    const input: seq<byte>
    var pos: nat
    /** Everything written to standard output so far. */
    var out: seq<byte>
    var found: nat
    var idx: nat
    var neednewline: bool

    /** The allocation and the bounds every access to buf relies on. */
    ghost predicate Framed()
      reads this
    {
      minlen >= 1 && buf.Length == 4 * minlen + 1 && idx <= 4 * minlen && pos <= |input|
    }

    /** The fields seen as the accumulator's state. */
    ghost function State(): Acc
      reads this`found, this`idx, this`neednewline, buf
      requires idx <= buf.Length
    {
      Acc(found, buf[..idx], neednewline)
    }

    /** The frame, the accumulator's invariant, and no NUL among the
        buffered bytes, so that fputs(buf) writes exactly buf[0..idx). */
    ghost predicate Valid()
      reads this, buf
    {
      Framed() && AccInv(State(), minlen)
      && 0 !in buf[..idx]
    }

    /** main's start: buf = malloc(minlen*4+1), nothing found, nothing read. */
    constructor (input: seq<byte>, minlen: nat)
      requires minlen >= 1
      ensures Valid() && fresh(buf)
      ensures this.input == input && this.minlen == minlen
      ensures pos == 0 && out == [] && State() == Initial
    {
      this.minlen := minlen;
      this.input := input;
      buf := new byte[minlen * 4 + 1];
      pos := 0;
      out := [];
      found := 0;
      idx := 0;
      neednewline := false;
    }

    /** getc: the next byte, or EOF at the end of input. */
    method Getc() returns (c: int)
      modifies this`pos
      ensures old(pos) < |input| ==> c == input[old(pos)] && pos == old(pos) + 1
      ensures old(pos) >= |input| ==> c == EOF && pos == old(pos)
    {
      if pos < |input| {
        c := input[pos];
        pos := pos + 1;
      } else {
        c := EOF;
      }
    }

    /** ungetc of the byte just read: it is read again next. */
    method Ungetc(c: int)
      requires 0 < pos <= |input| && input[pos - 1] == c
      modifies this`pos
      ensures pos == old(pos) - 1 && input[pos] == c
    {
      pos := pos - 1;
    }

    /** resetfound: the run is over, the buffer is dropped. */
    method ResetFound()
      requires Valid()
      modifies this`found, this`idx
      ensures Valid() && State() == Reset(old(State()))
    {
      found := 0;
      idx := 0;
    }

    /** maybeputbuf: terminate the buffer; write the newline owed to the
        previous line when the run has just reached minlen; once it has, write
        the buffer, remember whether its line is open, and empty it. */
    method MaybePutBuf()
      requires Framed() && 1 <= idx
      modifies this`out, this`neednewline, this`idx, buf
      ensures Framed() && found == old(found) && pos == old(pos)
      ensures State() == Flush(old(State()), minlen).0
      ensures out == old(out) + Flush(old(State()), minlen).1
    {
      buf[idx] := 0;
      assert buf[..idx] == old(buf[..idx]);
      if found == minlen && neednewline {
        out := out + [NL];
      }
      if found >= minlen {
        out := out + buf[..idx];
        neednewline := buf[idx - 1] != NL;
        idx := 0;
      }
    }

    /** maybeputchar: one more character of one byte, buffered and flushed. */
    method MaybePutChar(c: byte)
      requires Valid() && c != 0
      modifies this`found, this`out, this`neednewline, this`idx, buf
      ensures Valid() && pos == old(pos)
      ensures State() == Accept(old(State()), [c], minlen).0
      ensures out == old(out) + Accept(old(State()), [c], minlen).1
    {
      AcceptKeepsBound(State(), [c], minlen);
      found := found + 1;
      buf[idx] := c;
      idx := idx + 1;
      buf[idx] := 0;
      assert buf[..idx] == old(buf[..idx]) + [c];
      MaybePutBuf();
    }

    /** maybeputsequence: one more character, copied from the NUL-terminated
        b (whose first len bytes are not NUL) into the buffer, then flushed. */
    method MaybePutSequence(b: array<byte>, ghost len: nat)
      requires Valid() && b != buf && 1 <= len <= 4 && len < b.Length && b[len] == 0
      requires 0 !in b[..len]
      modifies this`found, this`out, this`neednewline, this`idx, buf
      ensures Valid() && pos == old(pos)
      ensures State() == Accept(old(State()), b[..len], minlen).0
      ensures out == old(out) + Accept(old(State()), b[..len], minlen).1
    {
      AcceptKeepsBound(State(), b[..len], minlen);
      found := found + 1;
      var k := 0;
      while b[k] != 0
        invariant 0 <= k <= len && idx == old(idx) + k
        invariant buf[..idx] == old(buf[..idx]) + b[..k]
        invariant found == old(found) + 1 && neednewline == old(neednewline) && out == old(out)
        decreases len - k
      {
        buf[idx] := b[k];
        idx := idx + 1;
        k := k + 1;
        assert buf[..idx] == old(buf[..idx]) + b[..k];
      }
      assert k == len;
      MaybePutBuf();
    }

    /** The reading loop of checkandprint (`while (count--)`): after the
        lead byte in bytes[0], read up to count continuation bytes into
        bytes[1..]. It stops at end of input, or at a byte that is not a
        continuation byte, which is pushed back; complete says whether all
        count were read. What it reads is exactly the continuation run. */
    method ReadContinuations(bytes: array<byte>, count: nat) returns (i: nat, complete: bool)
      requires 0 < pos <= |input| && bytes.Length == 5 && bytes[0] == input[pos - 1] && count <= 3
      modifies this`pos, bytes
      ensures i - 1 == ContinuationRun(input, old(pos), count) && pos == old(pos) + (i - 1)
      ensures 1 <= i <= count + 1 && (complete <==> i == count + 1)
      ensures bytes[..i] == input[old(pos) - 1..pos]
    {
      ghost var start := pos - 1;
      i := 1;
      var left := count;
      while left > 0
        invariant 1 <= i <= count + 1 && left == count + 1 - i
        invariant pos == start + i && pos <= |input|
        invariant bytes[..i] == input[start..pos]
        invariant forall j :: start + 1 <= j < pos ==> IsCont(input[j])
        decreases left
      {
        left := left - 1;
        var d := Getc();
        if d == EOF {
          ContinuationRunIs(input, start + 1, count, i - 1);
          return i, false;
        }
        if d / 64 != 2 {
          Ungetc(d);
          ContinuationRunIs(input, start + 1, count, i - 1);
          return i, false;
        }
        bytes[i] := d;
        i := i + 1;
        assert bytes[..i] == input[start..pos];
      }
      ContinuationRunIs(input, start + 1, count, count);
      complete := true;
    }

    /** checkandprint: c was just read and wants count continuation bytes.
        On end of input, or on a byte that is not a continuation byte (pushed
        back), or on a surrogate or too-big sequence, the run is reset;
        otherwise the whole sequence is one more character. */
    method CheckAndPrint(c: byte, count: nat)
      requires Valid() && 0 < pos <= |input| && input[pos - 1] == c && c != 0 && 1 <= count <= 3
      modifies this, buf
      ensures Valid()
      ensures pos == ReadSequence(input, old(pos) - 1, count).1
      ensures State() == Step(old(State()), ReadSequence(input, old(pos) - 1, count).0, minlen).0
      ensures out == old(out) + Step(old(State()), ReadSequence(input, old(pos) - 1, count).0, minlen).1
    {
      var bytes := new byte[5];
      bytes[0] := c;
      var i, complete := ReadContinuations(bytes, count);
      if !complete {
        ResetFound();
        return;
      }
      if IsSurrogate(bytes[..i]) || IsTooBig(bytes[..i]) {
        ResetFound();
        return;
      }
      ghost var read := bytes[..i];
      forall j | 0 <= j < i
        ensures bytes[j] != 0
      {
        if j > 0 {
          assert bytes[j] == read[j] == input[old(pos) - 1 + j];
          ContinuationRange(bytes[j]);
        }
      }
      bytes[i] := 0;
      assert bytes[..i] == read;
      MaybePutSequence(bytes, i);
    }

    /** main's loop: read bytes until end of input, classify each, and hand
        it to maybeputchar, checkandprint or resetfound; then the final
        newline when a line is still open. */
    method Run()
      requires Valid()
      modifies this, buf
      ensures Valid() && pos == |input|
      ensures out == old(out) + Pending(input, old(pos), old(State()), minlen)
    {
      ghost var goal := out + Pending(input, pos, State(), minlen);
      var c := Getc();
      ghost var at: nat := old(pos);
      while c != EOF
        invariant Valid() && at <= pos <= |input|
        invariant c == EOF ==> at == |input|
        invariant c != EOF ==> at == pos - 1 && c == input[at]
        invariant out + Pending(input, at, State(), minlen) == goal
        decreases |input| - at
      {
        var b: byte := c;
        ghost var a, written := State(), out;
        ghost var t, next := NextToken(input, at).0, NextToken(input, at).1;
        PendingStep(input, at, a, minlen);
        match Classify(b) {
          case Single =>
            MaybePutChar(b);
          case Reject =>
            ResetFound();
          case Lead(n) =>
            CheckAndPrint(b, n);
        }
        assert pos == next && State() == Step(a, t, minlen).0 && out == written + Step(a, t, minlen).1;
        Reassociate(written, Step(a, t, minlen).1, Pending(input, next, State(), minlen));
        at := pos;
        c := Getc();
      }
      if neednewline {
        out := out + [NL];
      }
    }
  }

  /** The whole program on an input: every run of at least minlen valid
      characters, verbatim, one per line. */
  method Utf8Strings(input: seq<byte>, minlen: nat) returns (output: seq<byte>)
    requires minlen >= 1
    ensures output == Printed(Runs(Tokens(input, 0)), minlen)
    ensures output != [] ==> output[|output| - 1] == NL
    ensures output == [] <==> forall i :: 0 <= i < |Runs(Tokens(input, 0))| ==> |Runs(Tokens(input, 0))[i]| < minlen
  {
    var s := new Scanner(input, minlen);
    s.Run();
    output := s.out;
    ghost var rs := Runs(Tokens(input, 0));
    assert output == Printed(rs, minlen) by {
      TokensFit(input, 0);
      StreamPrintsLongRuns(Tokens(input, 0), minlen);
    }
    assert output != [] ==> output[|output| - 1] == NL by {
      PrintedEndsWithNewline(rs, minlen);
    }
    assert output == [] <==> forall i :: 0 <= i < |rs| ==> |rs[i]| < minlen by {
      PrintedCharsAreValid(input);
      PrintedEmptyIff(rs, minlen);
    }
  }
}
