# utf8strings, modelled in Dafny

utf8strings is a UTF-8-aware `strings`. It reads a byte stream and prints only the runs of valid, printable text that are at least `minlen` characters long (4 by default). Characters are counted, not bytes.

The model covers the whole decoding and accumulating core of `utf8strings.c`:

- **Byte classification** in the main loop. A byte is printable ASCII or a newline, a byte rejected outright, or the lead byte of a 2-, 3- or 4-byte sequence.
- **`checkandprint`**, which reads the continuation bytes. A byte that is not a continuation byte is pushed back with `ungetc`, and end of file mid-sequence rejects the sequence.
- **`issurrogate` and `istoobig`**, the two range checks.
- **The run accumulator**: `maybeputchar`, `maybeputsequence`, `maybeputbuf` and `resetfound`, which share the `minlen*4+1`-byte buffer, the run counter `found` and the `neednewline` flag. The final newline of `main` is part of it.

The model is in three layers:

- **`Utf8`** holds the byte-level rules. It proves what `Classify` and the range checks amount to in byte ranges and in code points, with `Decode`/`Encode` as an independent reference for UTF-8. In `Lexer`, `ValidChar` states which characters the program accepts.
- **`Lexer`** and **`Accumulator`** are pure specifications. The main loop is a function from input and read position to tokens (an accepted character, or the bytes consumed while rejecting). The accumulator is a state machine over those tokens (`Stream`).
  - The reference for that state machine is `Printed(Runs(...))`: every run of at least `minlen` characters printed as a line.
  - `StreamPrintsLongRuns` proves that the state machine produces exactly that output.
- **`Strings.Scanner`** is the program itself: a class with the input cursor, the `buf` array, `idx`, `found` and `neednewline`. `resetfound`, `maybeputbuf`, `maybeputchar`, `maybeputsequence` and `checkandprint` are its methods, with the reading loop of `checkandprint` split out as `ReadContinuations`. Each is proved against the pure layer. `getc` and `ungetc` are the methods `Getc` and `Ungetc` on the input cursor. `issurrogate` and `istoobig` compute values and stay pure: they are the predicates `Utf8.IsSurrogate` and `Utf8.IsTooBig`, which `Scanner.CheckAndPrint` calls. `main` is `Scanner.Run`, its loop and final newline, together with `Strings.Utf8Strings`, which allocates the scanner, runs it, and ties its output to the reference.

`SignedChar` models `issurrogate` and `istoobig` as written, where `char` is signed (see Findings). `SourceTests` states the test inputs from the notes at the end of the source.

In three places the code does something other than what its own notes, or UTF-8 itself, would lead a reader to expect. The model follows the code each time:

- **C1 code points.** The notes (`utf8strings.c:150`) say U+0080.. are skipped as control characters. The code rejects only the bytes 0x80..0x9F when they start a character (line 36), and those are stray continuation bytes anyway. The sequence C2 80 (U+0080) is accepted; see `Utf8.C1CodePointAccepted`.
- **Stricter than RFC 3629.** Line 37 rejects the overlong leads C0 and C1 explicitly. Lines 41-42 additionally reject the leads whose data bits are all zero, E0 and F0. Unlike C0 and C1, those two can begin valid, non-overlong encodings, so the code also refuses U+0800..U+0FFF (E0 A0 80 is U+0800) and U+10000..U+3FFFF (F0 90 80 80 is U+10000). See `Utf8.StricterThanRfc3629` and `Utf8.AcceptedScalarValues`.
- **Single-character tests.** Tests 1b and 2b in the notes say a single valid character "should show something". With the built-in minimum of 4, one character alone prints nothing; see `SourceTests.LastCodePointAccepted`.

## Model

| member | source | states |
|---|---|---|
| Utf8.Classify | utf8strings.c:33-43 | The guard chain of the main loop. A byte is taken on its own iff it is printable ASCII or a newline. It leads a 2-byte sequence iff C2..DF, a 3-byte one iff E1..EF, and a 4-byte one iff F1..F4. |
| Utf8.RejectedBytes | utf8strings.c:34-45 | A byte is rejected on the spot iff it is a control byte other than newline, DEL, 0x80..0xC1, E0, F0 or F5..FF. |
| Utf8.ContinuationRange | utf8strings.c:97 | `c>>6 == 0b10` holds exactly for 0x80..0xBF. |
| Utf8.ContinuationRejected | utf8strings.c:35-45 | A continuation byte that is not preceded by a lead byte is rejected. |
| Utf8.IsSurrogate | utf8strings.c:117-124 | issurrogate, read with unsigned bytes: the lead is 0xED and the top data bit of the first continuation byte is set. Its meaning is stated by `Utf8.SurrogateBytes` (ED A0..BF) and, in code points, by `Utf8.AcceptsIffInRange` (U+D800..U+DFFF excluded). |
| Utf8.IsTooBig | utf8strings.c:126-131 | istoobig, read with unsigned bytes: the lead is 0xF4 and one of the top two data bits of the first continuation byte is set. Its meaning is stated by `Utf8.TooBigBytes` (F4 90..BF) and by `Utf8.AcceptsIffInRange` (nothing above U+10FFFF). |
| Utf8.SurrogateBytes | utf8strings.c:117-124 | issurrogate holds on a continuation-shaped sequence iff it starts ED A0..BF. |
| Utf8.TooBigBytes | utf8strings.c:126-131 | istoobig holds iff the sequence starts F4 90..BF. |
| Utf8.AcceptsIffInRange | utf8strings.c:105-109 | On a well-shaped sequence, the main loop's lead check and the two range checks together accept it iff the decoded code point lies in the accepted range for its length: U+0080..U+07FF in 2 bytes, U+1000..U+FFFF minus the surrogates in 3, and U+40000..U+10FFFF in 4. |
| Utf8.AcceptedRangeIsValid | utf8strings.c:136-148 | Every accepted code point is a Unicode scalar value whose shortest encoding has exactly the length that was read. Nothing accepted is overlong, a surrogate half, or above U+10FFFF. |
| Utf8.DecodeEncode | utf8strings.c:118-121 | For every scalar value from U+0080, the RFC 3629 encoding is well shaped and decodes back to the code point. |
| Utf8.EncodeDecode | utf8strings.c:136-148 | Every accepted sequence decodes to a scalar value, and is exactly that value's RFC 3629 encoding. |
| Utf8.StricterThanRfc3629 | utf8strings.c:41-42 | The valid encodings of U+0800 (E0 A0 80) and U+10000 (F0 90 80 80) are refused. |
| Utf8.AcceptedScalarValues | utf8strings.c:37-42 | A scalar value from U+0080 is accepted iff it is not in U+0800..U+0FFF or U+10000..U+3FFFF. |
| Utf8.C1CodePointAccepted | utf8strings.c:36 | C2 80, which encodes the C1 control U+0080, is accepted. |
| Lexer.ContinuationRun | utf8strings.c:92-103 | The number of continuation bytes read is at most the number wanted. All of them are continuation bytes, and fewer are read only at end of input or before a byte that is not one. |
| Lexer.ContinuationRunIs | utf8strings.c:92-103 | Any count with those three properties is the count read. |
| Lexer.ReadSequence | utf8strings.c:85-114 | checkandprint consumes the lead byte and up to n more bytes, and its token holds exactly the bytes consumed. A byte that broke the sequence is not consumed. |
| Lexer.NextToken | utf8strings.c:33-46 | Each step of the main loop consumes at least one byte and stays within the input, and its token holds exactly the bytes consumed. |
| Lexer.Tokens | utf8strings.c:32-46 | The main loop over the whole input: one token per iteration, from the read position to end of file. Its contract is carried by `Lexer.TokensCoverInput`, `Lexer.TokensAcceptOnlyValid` and `Strings.Scanner.Run`. |
| Lexer.TokensCoverInput | utf8strings.c:32-46 | The tokens cut the input into consecutive pieces. Flattened, they are the input. |
| Lexer.NextTokenAcceptsValid | utf8strings.c:33-46 | Whatever a step accepts is a valid character. When a valid character of 1 to 4 bytes begins at the read position, the step accepts it whole. |
| Lexer.SkipHoldsOnlyContinuations | utf8strings.c:97-100 | A rejected piece holds only continuation bytes after its first byte, so pushback never drops a byte that could start a character. |
| Lexer.TokensAcceptOnlyValid | utf8strings.c:33-46 | Every character accepted anywhere in the input is valid and 1 to 4 bytes long. |
| Accumulator.Flush | utf8strings.c:52-61 | maybeputbuf as a function of the state: the separator newline, then the buffer once the run has reached minlen. Its behaviour is stated by `Accumulator.FlushWhileBuffering` and `Accumulator.FlushWhileStreaming`. `Strings.Scanner.MaybePutBuf` is proved to write and update exactly as it does. |
| Accumulator.Accept | utf8strings.c:63-78 | maybeputchar and maybeputsequence: count one character, buffer its bytes, flush. Its contract is carried by `Accumulator.AcceptKeepsBound` and the two FlushWhile lemmas. `Strings.Scanner.MaybePutChar` and `Strings.Scanner.MaybePutSequence` are proved against it. |
| Accumulator.Reset | utf8strings.c:80-83 | resetfound: the count is zeroed, the buffer emptied, neednewline kept. `Strings.Scanner.ResetFound` is proved against it. |
| Accumulator.Stream | utf8strings.c:32-48 | What the accumulator writes over the main loop's tokens, including the final newline of line 48. `Accumulator.StreamPrintsLongRuns` proves it equal to the reference `Printed(Runs(...))`, and `Strings.Scanner.Run` is proved to write exactly it. |
| Accumulator.AcceptKeepsBound | utf8strings.c:63-78 | Accepting a character of 1 to 4 bytes keeps at most 4*minlen bytes in the buffer, so the terminator still fits in the minlen*4+1 allocation. It also keeps the accumulator invariant and counts one more character. |
| Accumulator.FlushWhileBuffering | utf8strings.c:52-61 | Below minlen nothing is written. The character that reaches minlen writes the newline owed to an open line, then the whole buffer. It empties the buffer and records whether the line was left open. |
| Accumulator.FlushWhileStreaming | utf8strings.c:52-61 | Once the run has reached minlen, each character is written at once, with no separator. |
| Accumulator.PrintedEndsWithNewline | utf8strings.c:48 | Output that is not empty ends with a newline. |
| Accumulator.PrintedEmptyIff | utf8strings.c:54-55 | Nothing is printed iff every run is shorter than minlen. |
| Accumulator.RunsHoldAcceptedChars | utf8strings.c:80-83 | Every character of every run is a character the token stream accepted. |
| Accumulator.RunsRebuildStream | utf8strings.c:71-76 | The runs interleaved with the rejected pieces are the flattened token stream. |
| Accumulator.StreamPrintsLongRuns | utf8strings.c:52-83 | The streaming accumulator, from its initial state and including the final newline, writes exactly every run of at least minlen characters, each as a line. |
| Strings.PrintedCharsAreValid | utf8strings.c:105-113 | Every character of every run is printable ASCII, a newline, or a well-formed sequence in the accepted ranges, and is 1 to 4 bytes long. |
| Strings.RunsRebuildInput | utf8strings.c:71-76 | The runs interleaved with the rejected pieces are the input, so what is printed is the input's own bytes, in order. |
| Strings.TextPrintedAsOneLine | utf8strings.c:34 | Text made only of printable ASCII and newlines is printed unchanged as one line if it has at least minlen bytes, and otherwise not at all. |
| Strings.Scanner.constructor | utf8strings.c:29 | Allocates a buffer of minlen*4+1 bytes. The read position, the output, the counter and the flag start at zero or empty. |
| Strings.Scanner.Getc | utf8strings.c:33 | Returns the next byte and advances, or returns EOF at end of input. |
| Strings.Scanner.Ungetc | utf8strings.c:98 | Pushes back the byte just read. That byte is the next one read. |
| Strings.Scanner.ResetFound | utf8strings.c:80-83 | Zeroes the counter, empties the buffer, and keeps the flag. |
| Strings.Scanner.MaybePutBuf | utf8strings.c:52-61 | Writes and updates the state exactly as the flush rule says. |
| Strings.Scanner.MaybePutChar | utf8strings.c:63-69 | Accepts one non-NUL byte as a character. The new state and the bytes written are those of `Accumulator.Accept` on the old state. It keeps the buffer bound and keeps the buffer free of NUL bytes. |
| Strings.Scanner.MaybePutSequence | utf8strings.c:71-78 | Copies the NUL-terminated sequence into the buffer, accepts it as one character, and keeps the buffer bound. |
| Strings.Scanner.ReadContinuations | utf8strings.c:89-103 | Reads continuation bytes into `bytes` until it has count of them, reaches end of input, or pushes back a byte that is not one. It reports whether the read was complete. |
| Strings.Scanner.CheckAndPrint | utf8strings.c:85-114 | Consumes, writes and updates the state exactly as the accumulator does on the token ReadSequence yields. |
| Strings.Scanner.Run | utf8strings.c:32-48 | Reads the input to its end and writes exactly what the streaming accumulator writes over the remaining tokens, including the final newline. |
| Strings.Utf8Strings | utf8strings.c:25-49 | The program prints every run of at least minlen characters, each as a line. The output is empty iff every run is shorter than minlen, and otherwise ends with a newline. |
| SourceTests.BeyondUnicodeRejected | utf8strings.c:160-161 | F4 90 80 80 is rejected as a whole, and nothing is printed. |
| SourceTests.LastCodePointAccepted | utf8strings.c:163-164 | F4 8F BF BF (U+10FFFF) is accepted as one character. Alone it is below the minimum of 4, so nothing is printed. |
| SourceTests.SurrogateRejected | utf8strings.c:166-167 | ED A0 80 (U+D800) is rejected. |
| SourceTests.BelowSurrogatesAccepted | utf8strings.c:169-170 | ED 9F BF (U+D7FF) is accepted. |
| SourceTests.PushedBackByteReread | utf8strings.c:97-100 | In C3 41, the lead is rejected and the A is read again and accepted. |
| SourceTests.TruncatedAtEnd | utf8strings.c:93-96 | A sequence cut off by end of input is rejected. |
| SignedChar.AsSignedChar | utf8strings.c:89-90 | Storing a byte in a signed `char` gives a value in -128..127 that is negative iff the byte is 0x80 or more, and congruent to the byte mod 256. |
| SignedChar.IsSurrogateAsWritten | utf8strings.c:123 | issurrogate as written, with the bytes held in a signed `char`. `SignedChar.ChecksNeverFire` states that it never holds for a lead byte. |
| SignedChar.IsTooBigAsWritten | utf8strings.c:130 | istoobig as written, with signed `char`. `SignedChar.ChecksNeverFire` states that it never holds for a lead byte. |
| SignedChar.MaskUnaffected | utf8strings.c:123 | The 6-bit masks read the same bits from the signed value. |
| SignedChar.ChecksNeverFire | utf8strings.c:117-131 | With signed `char`, neither range check can hold for any lead byte. |
| SignedChar.SurrogateAcceptedAsWritten | utf8strings.c:123 | As written, ED A0 80 (U+D800) is accepted. The intended check rejects it. |
| SignedChar.TooBigAcceptedAsWritten | utf8strings.c:130 | As written, F4 90 80 80 (U+110000) is accepted. The intended check rejects it. |

## Left out

- Argument handling, `fopen`, `perror`, `exit`, and `errno` as the exit status (lines 25-27 and 49) are I/O. Not modelled.
- The `malloc` failure path (line 30) is left out. Allocation in Dafny cannot fail.
- The byte source is the input as a sequence with a read cursor, and standard output is the sequence `out`. `getc`, `ungetc`, `puts` and `fputs` act on these.
- Strings.Scanner.Ungetc: requires that the byte pushed back is the one just read. That is the only way the source uses it, and it is what the one byte of pushback `ungetc` guarantees.
- `isprint` is fixed to the C locale (0x20..0x7E). The program never calls `setlocale`.
- `found` is an unbounded `nat`. The source's `int` would overflow after 2^31 - 1 characters in one run.
- Strings.Utf8Strings: takes minlen as a parameter, with minlen ≥ 1. The source fixes it at 4 (`Accumulator.DefaultMinLen`, which `SourceTests` uses).
- `fputs(buf, stdout)` is modelled as writing `buf[0..idx)`. The two are the same because `Strings.Scanner.Valid` keeps every buffered byte non-zero. `MaybePutChar` is only handed printable bytes or a newline, and `CheckAndPrint` proves the bytes of a sequence non-zero.
- Unicode's tables of assigned and printable code points are left out, as notes B (lines 152-157) say they are in the source.
- Strings.Scanner.CheckAndPrint: states the result of its two early `return`s and the range-check failure as one rejected token. The order of the reads is kept; the three exits differ only in the bytes consumed, which the token records.

## Findings

| source | as written | input that shows it | evidently intended | confidence | as-written member | corrected member |
|---|---|---|---|---|---|---|
| utf8strings.c:123 | `bytes[0]==0xED` compares a `char`. Where `char` is signed, 0xED is stored as -19, so the comparison never holds and issurrogate is always false. | ED A0 80 (U+D800) is accepted and can be printed. | Compare the byte as unsigned, rejecting ED A0..BF. | not executed; applies where `char` is signed | SignedChar.SurrogateAcceptedAsWritten | Utf8.AcceptsIffInRange |
| utf8strings.c:130 | `bytes[0]==0xF4` has the same signed-`char` comparison, so istoobig is always false. | F4 90 80 80 (U+110000) is accepted and can be printed. | Compare the byte as unsigned, rejecting F4 90..BF. | not executed; applies where `char` is signed | SignedChar.TooBigAcceptedAsWritten | Utf8.TooBigBytes |
