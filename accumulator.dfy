/** The run accumulator of utf8strings.c (maybeputchar, maybeputsequence,
    maybeputbuf, resetfound and the final newline of main) as a pure state
    machine over the token stream, and the reference it is proved against:
    every run of at least minlen characters printed as one line. */
module Accumulator {
  import opened Utf8
  import opened Lexer

  /** The accumulator's state: `found` characters in the current run,
      `pending` the bytes buffered and not yet written (buf[0..idx)), and
      `nl` the neednewline flag. */
  datatype Acc = Acc(found: nat, pending: seq<byte>, nl: bool)

  const Initial: Acc := Acc(0, [], false)

  /** The minimum run length the program is built with (`int minlen=4`). */
  const DefaultMinLen: nat := 4

  function Last(s: seq<byte>): byte
    requires s != []
  {
    s[|s| - 1]
  }

  /** maybeputbuf on a state whose buffer is not empty: the separator newline
      when the run has just reached minlen after an earlier line left open,
      then, once the run is long enough, the whole buffer. Returns the new
      state and the bytes written. */
  function Flush(a: Acc, minlen: nat): (Acc, seq<byte>)
    requires a.pending != []
  {
    var sep := if a.found == minlen && a.nl then [NL] else [];
    if a.found >= minlen then (Acc(a.found, [], Last(a.pending) != NL), sep + a.pending)
    else (a, sep)
  }

  /** maybeputchar / maybeputsequence: count one more character, buffer its
      bytes, and flush. */
  function Accept(a: Acc, ch: seq<byte>, minlen: nat): (Acc, seq<byte>)
    requires ch != []
  {
    Flush(Acc(a.found + 1, a.pending + ch, a.nl), minlen)
  }

  /** resetfound: start a new run; the neednewline flag is kept. */
  function Reset(a: Acc): Acc {
    Acc(0, [], a.nl)
  }

  /** The accumulator's invariant: a run still below minlen buffers at most 4
      bytes per character; a run that reached minlen has written everything. */
  ghost predicate AccInv(a: Acc, minlen: nat) {
    (a.found < minlen ==> |a.pending| <= 4 * a.found)
    && (a.found >= minlen ==> a.pending == [])
  }

  /** The buffer bound of the minlen*4+1 allocation: accepting a character of
      at most 4 bytes in a state that keeps AccInv buffers at most 4 * minlen
      bytes (so the terminator still fits), and keeps AccInv. */
  lemma AcceptKeepsBound(a: Acc, ch: seq<byte>, minlen: nat)
    requires minlen >= 1 && AccInv(a, minlen) && 1 <= |ch| <= 4
    ensures |a.pending| + |ch| <= 4 * minlen
    ensures AccInv(Accept(a, ch, minlen).0, minlen) && Accept(a, ch, minlen).0.found == a.found + 1
  {
  }

  /** The flush rule while the run is below minlen: nothing is written until
      the character that brings the count to minlen; that one writes the
      newline owed to an open line, then the whole buffer, empties the buffer
      and records whether the line is left open. */
  lemma FlushWhileBuffering(a: Acc, ch: seq<byte>, minlen: nat)
    requires ch != [] && a.found < minlen
    ensures a.found + 1 < minlen ==> Accept(a, ch, minlen) == (Acc(a.found + 1, a.pending + ch, a.nl), [])
    ensures a.found + 1 >= minlen ==>
      Accept(a, ch, minlen) == (Acc(a.found + 1, [], Last(ch) != NL), Open(a.nl) + (a.pending + ch))
  {
  }

  /** The flush rule once the run has reached minlen (buffer empty): the
      character is written at once, the count still grows, and no separator
      is written. */
  lemma FlushWhileStreaming(a: Acc, ch: seq<byte>, minlen: nat)
    requires ch != [] && a.found >= minlen && a.pending == []
    ensures Accept(a, ch, minlen) == (Acc(a.found + 1, [], Last(ch) != NL), ch)
  {
    assert [] + ch == ch;
  }

  /** Every accepted character in the token stream has at least one byte. */
  ghost predicate CharsNonEmpty(toks: seq<Token>) {
    forall i :: 0 <= i < |toks| && toks[i].Char? ==> toks[i].bytes != []
  }

  /** One token's effect: an accepted character goes through Accept, a
      rejected piece resets the run and writes nothing. */
  function Step(a: Acc, t: Token, minlen: nat): (Acc, seq<byte>)
    requires t.Char? ==> t.bytes != []
  {
    match t
    case Skip(_) => (Reset(a), [])
    case Char(ch) => Accept(a, ch, minlen)
  }

  /** The newline owed to a line left open. */
  function Open(nl: bool): seq<byte> {
    if nl then [NL] else []
  }

  /** What the streaming accumulator writes for the remaining tokens,
      including the newline main writes at end of input when neednewline is
      set. */
  function Stream(toks: seq<Token>, a: Acc, minlen: nat): seq<byte>
    requires CharsNonEmpty(toks)
  {
    if toks == [] then Open(a.nl)
    else
      var (a', written) := Step(a, toks[0], minlen);
      written + Stream(toks[1..], a', minlen)
  }

  // ---------------------------------------------------------------------
  // The reference: runs, and each long run printed as a line.

  /** A run: the characters accepted between two rejections. */
  type Run = seq<seq<byte>>

  /** The runs of a token stream, in order: maximal groups of accepted
      characters, separated by rejected pieces (possibly empty). */
  function Runs(toks: seq<Token>): (rs: seq<Run>)
    ensures |rs| >= 1
  {
    if toks == [] then [[]]
    else
      var rest := Runs(toks[1..]);
      match toks[0]
      case Char(ch) => [[ch] + rest[0]] + rest[1..]
      case Skip(_) => [[]] + rest
  }

  /** The bytes of a run's characters, in order. */
  function Bytes(run: Run): seq<byte> {
    if run == [] then [] else run[0] + Bytes(run[1..])
  }

  /** A printed line: the run's bytes, with a newline added unless the run
      already ends with one. */
  function Line(s: seq<byte>): seq<byte> {
    if s != [] && Last(s) != NL then s + [NL] else s
  }

  /** The runs of at least minlen characters, each printed as a line; shorter
      runs print nothing. */
  function Printed(rs: seq<Run>, minlen: nat): seq<byte> {
    if rs == [] then []
    else (if |rs[0]| >= minlen then Line(Bytes(rs[0])) else []) + Printed(rs[1..], minlen)
  }

  /** What is printed is closed: it ends with a newline unless it is empty. */
  lemma {:induction false} PrintedEndsWithNewline(rs: seq<Run>, minlen: nat)
    ensures Printed(rs, minlen) != [] ==> Last(Printed(rs, minlen)) == NL
  {
    if rs != [] {
      PrintedEndsWithNewline(rs[1..], minlen);
      var line := if |rs[0]| >= minlen then Line(Bytes(rs[0])) else [];
      var rest := Printed(rs[1..], minlen);
      if rest == [] {
        assert line + rest == line;
      } else {
        assert Last(line + rest) == Last(rest);
      }
    }
  }

  /** Nothing is printed exactly when every run is shorter than minlen. */
  lemma {:induction false} PrintedEmptyIff(rs: seq<Run>, minlen: nat)
    requires minlen >= 1
    requires forall i, j :: 0 <= i < |rs| && 0 <= j < |rs[i]| ==> rs[i][j] != []
    ensures Printed(rs, minlen) == [] <==> forall i :: 0 <= i < |rs| ==> |rs[i]| < minlen
  {
    if rs != [] {
      PrintedEmptyIff(rs[1..], minlen);
      if |rs[0]| >= minlen {
        assert RunNonEmpty(rs[0]) by {
          forall j | 0 <= j < |rs[0]| ensures rs[0][j] != [] {
            assert rs[0][j] == rs[0][j];
          }
        }
        BytesNonEmpty(rs[0]);
      }
      assert forall i :: 1 <= i < |rs| ==> rs[i] == rs[1..][i - 1];
    }
  }

  /** Every character of every run is an accepted character of the stream. */
  lemma {:induction false} RunsHoldAcceptedChars(toks: seq<Token>)
    ensures forall i, j :: 0 <= i < |Runs(toks)| && 0 <= j < |Runs(toks)[i]| ==> Char(Runs(toks)[i][j]) in toks
  {
    if toks != [] {
      RunsHoldAcceptedChars(toks[1..]);
      var R := Runs(toks[1..]);
      var rs := Runs(toks);
      forall i, j | 0 <= i < |rs| && 0 <= j < |rs[i]|
        ensures Char(rs[i][j]) in toks
      {
        match toks[0]
        case Skip(_) =>
          assert rs[i] == R[i - 1];
          assert Char(R[i - 1][j]) in toks[1..];
        case Char(ch) =>
          if i == 0 && j == 0 {
            assert rs[0][0] == ch;
          } else if i == 0 {
            assert rs[0][j] == R[0][j - 1];
            assert Char(R[0][j - 1]) in toks[1..];
          } else {
            assert rs[i] == R[i];
            assert Char(R[i][j]) in toks[1..];
          }
      }
    }
  }

  /** The rejected pieces of a token stream, in order. */
  function Skipped(toks: seq<Token>): seq<seq<byte>> {
    if toks == [] then []
    else (if toks[0].Skip? then [toks[0].bytes] else []) + Skipped(toks[1..])
  }

  /** The runs' bytes with the rejected pieces between them, in order. */
  function Interleave(rs: seq<Run>, gaps: seq<seq<byte>>): seq<byte>
    requires |rs| == |gaps| + 1
    decreases |gaps|
  {
    if gaps == [] then Bytes(rs[0])
    else Bytes(rs[0]) + gaps[0] + Interleave(rs[1..], gaps[1..])
  }

  /** A character at the head of the first run comes first. */
  lemma InterleaveCons(ch: seq<byte>, rs: seq<Run>, gaps: seq<seq<byte>>)
    requires |rs| == |gaps| + 1
    ensures Interleave([[ch] + rs[0]] + rs[1..], gaps) == ch + Interleave(rs, gaps)
  {
    var rs' := [[ch] + rs[0]] + rs[1..];
    var b := Bytes(rs[0]);
    assert Bytes(rs'[0]) == ch + b by {
      assert rs'[0] == [ch] + rs[0] && ([ch] + rs[0])[1..] == rs[0];
    }
    if gaps != [] {
      var rest := gaps[0] + Interleave(rs[1..], gaps[1..]);
      assert Interleave(rs', gaps) == (ch + b) + rest by {
        assert rs'[1..] == rs[1..];
      }
      Reassociate(ch, b, rest);
    }
  }

  /** The runs lose nothing and reorder nothing: interleaved with the
      rejected pieces, in order, they give back the stream's bytes exactly.
      So every run is a verbatim, contiguous piece of the input. */
  lemma {:induction false} RunsRebuildStream(toks: seq<Token>)
    ensures |Runs(toks)| == |Skipped(toks)| + 1
    ensures Interleave(Runs(toks), Skipped(toks)) == Flatten(toks)
  {
    if toks != [] {
      RunsRebuildStream(toks[1..]);
      var R, S := Runs(toks[1..]), Skipped(toks[1..]);
      match toks[0]
      case Skip(b) =>
        assert Skipped(toks) == [b] + S;
        assert ([[]] + R)[1..] == R && ([b] + S)[1..] == S;
        assert Interleave(Runs(toks), Skipped(toks)) == [] + b + Interleave(R, S);
      case Char(ch) =>
        assert Skipped(toks) == [] + S == S;
        InterleaveCons(ch, R, S);
    }
  }

  // ---------------------------------------------------------------------
  // The streaming accumulator prints exactly the reference.

  ghost predicate RunNonEmpty(run: Run) {
    forall i :: 0 <= i < |run| ==> run[i] != []
  }

  lemma {:induction false} BytesAppend(run: Run, ch: seq<byte>)
    ensures Bytes(run + [ch]) == Bytes(run) + ch
  {
    if run == [] {
      assert [] + [ch] == [ch];
    } else {
      assert (run + [ch])[1..] == run[1..] + [ch];
      BytesAppend(run[1..], ch);
    }
  }

  lemma BytesNonEmpty(run: Run)
    requires run != [] && RunNonEmpty(run)
    ensures Bytes(run) != []
  {
  }

  /** The current run `cur` in front of the runs still to come. */
  function Prepend(cur: Run, rs: seq<Run>): seq<Run>
    requires |rs| >= 1
  {
    [cur + rs[0]] + rs[1..]
  }

  /** Stream, unfolded on a rejected piece. */
  lemma StreamSkip(toks: seq<Token>, a: Acc, minlen: nat)
    requires CharsNonEmpty(toks) && toks != [] && toks[0].Skip?
    ensures Stream(toks, a, minlen) == Stream(toks[1..], Acc(0, Bytes([]), a.nl), minlen)
  {
    assert [] + Stream(toks[1..], Reset(a), minlen) == Stream(toks[1..], Reset(a), minlen);
  }

  /** Stream, unfolded on an accepted character. */
  lemma StreamChar(toks: seq<Token>, a: Acc, minlen: nat)
    requires CharsNonEmpty(toks) && toks != [] && toks[0].Char?
    ensures Stream(toks, a, minlen)
              == Accept(a, toks[0].bytes, minlen).1 + Stream(toks[1..], Accept(a, toks[0].bytes, minlen).0, minlen)
  {
  }

  /** Closing a line: its bytes, then the newline owed if it is open. */
  lemma LineCloses(s: seq<byte>, rest: seq<byte>)
    requires s != []
    ensures s + (Open(Last(s) != NL) + rest) == Line(s) + rest
  {
    if Last(s) != NL {
      assert s + ([NL] + rest) == (s + [NL]) + rest;
    } else {
      assert [] + rest == rest;
    }
  }

  /** Runs, unfolded: a rejected piece closes the current run, an accepted
      character joins it. */
  lemma RunsStep(toks: seq<Token>, cur: Run)
    requires toks != []
    ensures toks[0].Skip? ==> Prepend(cur, Runs(toks)) == [cur] + Runs(toks[1..])
    ensures toks[0].Char? ==> Prepend(cur, Runs(toks)) == Prepend(cur + [toks[0].bytes], Runs(toks[1..]))
  {
    var R := Runs(toks[1..]);
    if toks[0].Skip? {
      assert cur + [] == cur;
    } else {
      assert cur + ([toks[0].bytes] + R[0]) == (cur + [toks[0].bytes]) + R[0];
    }
  }

  lemma Reassociate(x: seq<byte>, y: seq<byte>, z: seq<byte>)
    ensures x + (y + z) == (x + y) + z
  {
  }

  lemma PrependEmpty(rs: seq<Run>)
    requires |rs| >= 1
    ensures Prepend([], rs) == rs
  {
    assert [] + rs[0] == rs[0] && [rs[0]] + rs[1..] == rs;
  }

  lemma PrintedCons(cur: Run, rs: seq<Run>, minlen: nat)
    ensures Printed([cur] + rs, minlen) == (if |cur| >= minlen then Line(Bytes(cur)) else []) + Printed(rs, minlen)
  {
    assert ([cur] + rs)[1..] == rs;
  }

  lemma PrintedEnd(cur: Run, minlen: nat)
    ensures Prepend(cur, Runs([])) == [cur]
    ensures Printed([cur], minlen) == (if |cur| >= minlen then Line(Bytes(cur)) else [])
  {
    assert cur + [] == cur;
    PrintedCons(cur, [], minlen);
  }

  /** The streaming accumulator agrees with the reference from any point
      inside a run `cur` still below minlen: nothing of the run is written
      yet, and only the newline owed to the previous line is pending. */
  lemma {:induction false} StreamBelow(toks: seq<Token>, cur: Run, nl: bool, minlen: nat)
    requires minlen >= 1 && CharsNonEmpty(toks) && RunNonEmpty(cur) && |cur| < minlen
    ensures Stream(toks, Acc(|cur|, Bytes(cur), nl), minlen)
              == Open(nl) + Printed(Prepend(cur, Runs(toks)), minlen)
    decreases |toks|, 1
  {
    if toks == [] {
      PrintedEnd(cur, minlen);
    } else {
      var rest := toks[1..];
      match toks[0]
      case Skip(_) =>
        StreamBelow(rest, [], nl, minlen);
        BelowSkip(toks, cur, nl, minlen);
      case Char(ch) =>
        var cur' := cur + [ch];
        assert RunNonEmpty(cur');
        if |cur'| < minlen {
          StreamBelow(rest, cur', nl, minlen);
        } else {
          StreamAbove(rest, cur', minlen);
        }
        BelowChar(toks, cur, nl, minlen);
    }
  }

  lemma BelowSkip(toks: seq<Token>, cur: Run, nl: bool, minlen: nat)
    requires CharsNonEmpty(toks) && toks != [] && toks[0].Skip? && |cur| < minlen
    requires Stream(toks[1..], Acc(0, Bytes([]), nl), minlen)
               == Open(nl) + Printed(Prepend([], Runs(toks[1..])), minlen)
    ensures Stream(toks, Acc(|cur|, Bytes(cur), nl), minlen)
              == Open(nl) + Printed(Prepend(cur, Runs(toks)), minlen)
  {
    var R := Runs(toks[1..]);
    var a := Acc(|cur|, Bytes(cur), nl);
    StreamSkip(toks, a, minlen);
    assert Printed(Prepend(cur, Runs(toks)), minlen) == Printed(R, minlen) by {
      RunsStep(toks, cur);
      PrintedCons(cur, R, minlen);
    }
    assert Prepend([], R) == R by {
      PrependEmpty(R);
    }
  }

  lemma BelowChar(toks: seq<Token>, cur: Run, nl: bool, minlen: nat)
    requires CharsNonEmpty(toks) && toks != [] && toks[0].Char? && |cur| < minlen
    requires |cur| + 1 < minlen ==>
      Stream(toks[1..], Acc(|cur + [toks[0].bytes]|, Bytes(cur + [toks[0].bytes]), nl), minlen)
        == Open(nl) + Printed(Prepend(cur + [toks[0].bytes], Runs(toks[1..])), minlen)
    requires |cur| + 1 >= minlen ==>
      Bytes(cur + [toks[0].bytes]) != [] &&
      Bytes(cur + [toks[0].bytes])
        + Stream(toks[1..], Acc(|cur + [toks[0].bytes]|, [], Last(Bytes(cur + [toks[0].bytes])) != NL), minlen)
        == Printed(Prepend(cur + [toks[0].bytes], Runs(toks[1..])), minlen)
    ensures Stream(toks, Acc(|cur|, Bytes(cur), nl), minlen)
              == Open(nl) + Printed(Prepend(cur, Runs(toks)), minlen)
  {
    var ch := toks[0].bytes;
    var cur' := cur + [ch];
    var rest := toks[1..];
    var a := Acc(|cur|, Bytes(cur), nl);
    assert Bytes(cur') == Bytes(cur) + ch && (Bytes(cur') != [] ==> Last(Bytes(cur')) == Last(ch)) by {
      BytesAppend(cur, ch);
    }
    assert Prepend(cur, Runs(toks)) == Prepend(cur', Runs(rest)) by {
      RunsStep(toks, cur);
    }
    var r := Accept(a, ch, minlen);
    assert Stream(toks, a, minlen) == r.1 + Stream(rest, r.0, minlen) by {
      StreamChar(toks, a, minlen);
    }
    FlushWhileBuffering(a, ch, minlen);
    if |cur'| >= minlen {
      Reassociate(Open(nl), Bytes(cur'), Stream(rest, r.0, minlen));
    }
  }

  /** The same from inside a run `cur` that has reached minlen: its bytes
      are already written, and neednewline records whether its line is still
      open. */
  lemma {:induction false} StreamAbove(toks: seq<Token>, cur: Run, minlen: nat)
    requires minlen >= 1 && CharsNonEmpty(toks) && RunNonEmpty(cur) && |cur| >= minlen
    ensures Bytes(cur) != []
    ensures Bytes(cur) + Stream(toks, Acc(|cur|, [], Last(Bytes(cur)) != NL), minlen)
              == Printed(Prepend(cur, Runs(toks)), minlen)
    decreases |toks|, 0
  {
    BytesNonEmpty(cur);
    if toks == [] {
      PrintedEnd(cur, minlen);
    } else {
      var rest := toks[1..];
      match toks[0]
      case Skip(_) =>
        StreamBelow(rest, [], Last(Bytes(cur)) != NL, minlen);
        AboveSkip(toks, cur, minlen);
      case Char(ch) =>
        var cur' := cur + [ch];
        assert RunNonEmpty(cur');
        StreamAbove(rest, cur', minlen);
        AboveChar(toks, cur, minlen);
    }
  }

  lemma AboveSkip(toks: seq<Token>, cur: Run, minlen: nat)
    requires CharsNonEmpty(toks) && toks != [] && toks[0].Skip? && |cur| >= minlen && Bytes(cur) != []
    requires Stream(toks[1..], Acc(0, Bytes([]), Last(Bytes(cur)) != NL), minlen)
               == Open(Last(Bytes(cur)) != NL) + Printed(Prepend([], Runs(toks[1..])), minlen)
    ensures Bytes(cur) + Stream(toks, Acc(|cur|, [], Last(Bytes(cur)) != NL), minlen)
              == Printed(Prepend(cur, Runs(toks)), minlen)
  {
    var R := Runs(toks[1..]);
    var nl := Last(Bytes(cur)) != NL;
    var a := Acc(|cur|, [], nl);
    StreamSkip(toks, a, minlen);
    assert Printed(Prepend(cur, Runs(toks)), minlen) == Line(Bytes(cur)) + Printed(R, minlen) by {
      RunsStep(toks, cur);
      PrintedCons(cur, R, minlen);
    }
    calc {
      Bytes(cur) + Stream(toks, a, minlen);
      Bytes(cur) + (Open(nl) + Printed(Prepend([], R), minlen));
      { PrependEmpty(R); }
      Bytes(cur) + (Open(nl) + Printed(R, minlen));
      { LineCloses(Bytes(cur), Printed(R, minlen)); }
      Line(Bytes(cur)) + Printed(R, minlen);
    }
  }

  lemma AboveChar(toks: seq<Token>, cur: Run, minlen: nat)
    requires CharsNonEmpty(toks) && toks != [] && toks[0].Char? && |cur| >= minlen && Bytes(cur) != []
    requires Bytes(cur + [toks[0].bytes]) != [] &&
      Bytes(cur + [toks[0].bytes])
        + Stream(toks[1..], Acc(|cur + [toks[0].bytes]|, [], Last(Bytes(cur + [toks[0].bytes])) != NL), minlen)
        == Printed(Prepend(cur + [toks[0].bytes], Runs(toks[1..])), minlen)
    ensures Bytes(cur) + Stream(toks, Acc(|cur|, [], Last(Bytes(cur)) != NL), minlen)
              == Printed(Prepend(cur, Runs(toks)), minlen)
  {
    var ch := toks[0].bytes;
    var cur' := cur + [ch];
    var rest := toks[1..];
    var a := Acc(|cur|, [], Last(Bytes(cur)) != NL);
    var a' := Acc(|cur'|, [], Last(ch) != NL);
    assert Stream(toks, a, minlen) == ch + Stream(rest, a', minlen) by {
      StreamChar(toks, a, minlen);
      FlushWhileStreaming(a, ch, minlen);
    }
    assert Bytes(cur') == Bytes(cur) + ch && Last(Bytes(cur')) == Last(ch) by {
      BytesAppend(cur, ch);
    }
    assert Prepend(cur, Runs(toks)) == Prepend(cur', Runs(rest)) by {
      RunsStep(toks, cur);
    }
    Reassociate(Bytes(cur), ch, Stream(rest, a', minlen));
  }

  /** The accumulator's output over a whole token stream is the reference:
      every run of at least minlen characters, printed verbatim as a line
      (a newline is added unless the run ends with one), and nothing of any
      shorter run. */
  lemma StreamPrintsLongRuns(toks: seq<Token>, minlen: nat)
    requires minlen >= 1 && CharsNonEmpty(toks)
    ensures Stream(toks, Initial, minlen) == Printed(Runs(toks), minlen)
  {
    StreamBelow(toks, [], false, minlen);
    PrependEmpty(Runs(toks));
  }
}
