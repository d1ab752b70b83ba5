/** The entropy file (core-rust/src/lib.rs): its generator, the scanner that finds its lines, and the drawing of
    coordinates. The random draws are arguments. */
module EntropyFile {
  import opened Wrappers
  import opened Bytes

  const LF: byte := 10
  const CR: byte := 13

  const LETTERS := "ABCDEFGHIJKLMNOPQRSTUVWXYZ"
  const SMALL_LETTERS := "abcdefghijklmnopqrstuvwxyz"
  const DIGITS_AND_SIGNS := "0123456789!@#$%^&*()-_=+"
  const MORE_SIGNS := "[]{}|;:,.<>?/~ "

  function Charset(): bytes {
    Ascii(LETTERS) + Ascii(SMALL_LETTERS) + Ascii(DIGITS_AND_SIGNS) + Ascii(MORE_SIGNS)
  }

  predicate Printable(c: byte) { 32 <= c < 127 }

  predicate AllPrintable(s: string) { forall i | 0 <= i < |s| :: ' ' <= s[i] <= '~' }

  lemma LettersPrintable()
    ensures AllPrintable(LETTERS) && |LETTERS| == 26
  {
  }

  lemma SmallLettersPrintable()
    ensures AllPrintable(SMALL_LETTERS) && |SMALL_LETTERS| == 26
  {
  }

  lemma DigitsPrintable()
    ensures AllPrintable(DIGITS_AND_SIGNS) && |DIGITS_AND_SIGNS| == 24
  {
  }

  lemma SignsPrintable()
    ensures AllPrintable(MORE_SIGNS) && |MORE_SIGNS| == 15
  {
  }

  lemma JoinPrintable(a: string, b: string, c: string, d: string)
    requires AllPrintable(a) && AllPrintable(b) && AllPrintable(c) && AllPrintable(d)
    ensures var all := Ascii(a) + Ascii(b) + Ascii(c) + Ascii(d);
            |all| == |a| + |b| + |c| + |d| && forall i | 0 <= i < |all| :: Printable(all[i])
  {
  }

  lemma CharsetIsPrintable()
    ensures |Charset()| == 91
    ensures forall i | 0 <= i < |Charset()| :: Printable(Charset()[i])
  {
    LettersPrintable();
    SmallLettersPrintable();
    DigitsPrintable();
    SignsPrintable();
    JoinPrintable(LETTERS, SMALL_LETTERS, DIGITS_AND_SIGNS, MORE_SIGNS);
  }

  // ---------------------------------------------------------------- generator

  /** A line as the generator makes it. */
  predicate IsLine(line: bytes) { 80 <= |line| <= 120 && forall i | 0 <= i < |line| :: Printable(line[i]) }

  function Joined(lines: seq<bytes>): bytes {
    if lines == [] then [] else Joined(lines[..|lines| - 1]) + lines[|lines| - 1] + [LF]
  }

  /** A line as the draws make it: 80 to 120 bytes, each the charset's at the place drawn. */
  predicate DrawnLine(line: bytes, lenDraw: nat, byteDraw: nat -> nat) {
    CharsetIsPrintable();
    && |line| == 80 + lenDraw % 41
    && forall i: nat | i < |line| :: line[i] == Charset()[byteDraw(i) % 91]
  }

  /** rust: the loop of do_generate_entropy_file, given what the random source yields for each length and each byte. One
      buffer is reused; a shorter line leaves old bytes behind it, which are not written. */
  method Generate(lineCount: nat, lenDraw: nat -> nat, byteDraw: nat -> nat -> nat)
    returns (file: bytes, ghost lines: seq<bytes>)
    ensures |lines| == lineCount && file == Joined(lines)
    ensures forall i | 0 <= i < |lines| :: IsLine(lines[i]) && DrawnLine(lines[i], lenDraw(i), byteDraw(i))
  {
    CharsetIsPrintable();
    hide Charset, IsLine, DrawnLine;
    file, lines := [], [];
    var buf := new byte[120](_ => 0);
    for lineNum := 0 to lineCount
      invariant |lines| == lineNum && file == Joined(lines)
      invariant forall i | 0 <= i < |lines| :: IsLine(lines[i]) && DrawnLine(lines[i], lenDraw(i), byteDraw(i))
    {
      var lineLen := 80 + lenDraw(lineNum) % 41;
      for i := 0 to lineLen
        invariant forall j | 0 <= j < i :: buf[j] == Charset()[byteDraw(lineNum)(j) % 91]
      {
        buf[i] := Charset()[byteDraw(lineNum)(i) % 91];
      }
      LineDrawn(buf[..lineLen], lenDraw(lineNum), byteDraw(lineNum));
      file := file + buf[..lineLen];
      file := file + [LF];
      var more := lines + [buf[..lineLen]];
      assert more[..|lines|] == lines;
      lines := more;
    }
  }

  lemma LineDrawn(line: bytes, lenDraw: nat, byteDraw: nat -> nat)
    requires |Charset()| == 91 && |line| == 80 + lenDraw % 41
    requires forall i | 0 <= i < |line| :: line[i] == Charset()[byteDraw(i) % 91]
    ensures IsLine(line) && DrawnLine(line, lenDraw, byteDraw)
  {
    CharsetIsPrintable();
    hide Charset;
  }

  lemma LettersWritten(i: nat)
    requires i < 26
    ensures LETTERS[i] as int == 65 + i && SMALL_LETTERS[i] as int == 97 + i
  {
  }

  /** The charset, in order. */
  lemma CharsetWritten(i: nat)
    requires i < 91
    ensures |Charset()| == 91
    ensures i < 26 ==> Charset()[i] == 65 + i
    ensures 26 <= i < 52 ==> Charset()[i] == 97 + (i - 26)
    ensures 52 <= i < 76 ==> Charset()[i] == DIGITS_AND_SIGNS[i - 52] as int
    ensures 76 <= i ==> Charset()[i] == MORE_SIGNS[i - 76] as int
  {
    LettersPrintable();
    SmallLettersPrintable();
    DigitsPrintable();
    SignsPrintable();
    hide LETTERS, SMALL_LETTERS, DIGITS_AND_SIGNS, MORE_SIGNS;
    if i < 26 {
      LettersWritten(i);
    } else if i < 52 {
      LettersWritten(i - 26);
    }
  }

  // ---------------------------------------------------------------- scanner

  datatype LineStart = LineStart(block: nat, line: nat, offset: nat)

  /** A byte that is not a line break. */
  predicate InText(data: bytes, i: nat) {
    i < |data| && data[i] != LF && data[i] != CR
  }

  /** The last byte is a break that counts: any newline, and a carriage return unless the byte before it counts. */
  predicate EndsLine(data: bytes) {
    data != [] &&
    var n := |data| - 1;
    data[n] == LF || (data[n] == CR && !EndsLine(data[..n]))
  }

  /** How many breaks count. */
  function Breaks(data: bytes): nat {
    if data == [] then 0 else Breaks(data[..|data| - 1]) + if EndsLine(data) then 1 else 0
  }

  /** A byte of text that opens a line: nothing or a break before it. */
  predicate Opens(data: bytes, i: nat) {
    InText(data, i) && (i == 0 || !InText(data, i - 1))
  }

  /** The first bytes of the maximal runs of text, each numbered by the breaks that count before it. */
  function Starts(data: bytes): seq<LineStart> {
    if data == [] then []
    else
      var n := |data| - 1;
      Starts(data[..n]) + if Opens(data, n) then [LineStart(0, Breaks(data[..n]), n)] else []
  }

  function Newlines(data: bytes): nat {
    if data == [] then 0 else Newlines(data[..|data| - 1]) + if data[|data| - 1] == LF then 1 else 0
  }

  predicate NoCR(data: bytes) { forall i | 0 <= i < |data| :: data[i] != CR }

  /** Every carriage return comes directly after a newline. */
  predicate CRsFollowLFs(data: bytes) { forall i | 0 <= i < |data| && data[i] == CR :: i > 0 && data[i - 1] == LF }

  /** Line numbers count newlines exactly when every carriage return comes directly after one. */
  lemma {:induction false} NumbersCountNewlines(data: bytes)
    ensures Breaks(data) >= Newlines(data)
    ensures Breaks(data) == Newlines(data) <==> CRsFollowLFs(data)
    ensures CRsFollowLFs(data) ==> (EndsLine(data) <==> data != [] && data[|data| - 1] == LF)
  {
    if data != [] {
      var n := |data| - 1;
      var front := data[..n];
      NumbersCountNewlines(front);
      assert CRsFollowLFs(data) <==> CRsFollowLFs(front) && (data[n] == CR ==> n > 0 && data[n - 1] == LF) by {
        assert forall i | 0 <= i < n :: front[i] == data[i];
      }
    }
  }

  /** After text or at the start of the file, "\r\n" counts as two lines and "\n\r" as one. */
  lemma BreakPairs(before: bytes)
    requires before == [] || InText(before, |before| - 1)
    ensures Breaks(before + [CR, LF]) == Breaks(before) + 2
    ensures Breaks(before + [LF, CR]) == Breaks(before) + 1
  {
    hide Breaks;
    BreaksNext(before, CR);
    BreaksNext(before + [CR], LF);
    BreaksNext(before, LF);
    BreaksNext(before + [LF], CR);
    assert before + [CR] + [LF] == before + [CR, LF] && before + [LF] + [CR] == before + [LF, CR];
  }

  lemma BreaksNext(data: bytes, b: byte)
    ensures EndsLine(data + [b]) <==> b == LF || (b == CR && !EndsLine(data))
    ensures Breaks(data + [b]) == Breaks(data) + if EndsLine(data + [b]) then 1 else 0
  {
    assert (data + [b])[..|data|] == data;
  }

  lemma OpensPrefix(data: bytes, n: nat, i: nat)
    requires i < n <= |data|
    ensures Opens(data[..n], i) <==> Opens(data, i)
  {
  }

  /** The list Starts gives is complete and correct: an entry for each opening byte, and no other. */
  lemma {:induction false} StartsExactly(data: bytes, s: LineStart)
    ensures s in Starts(data) <==>
            Opens(data, s.offset) && s.block == 0 && s.line == Breaks(data[..s.offset])
  {
    if data != [] {
      var n := |data| - 1;
      StartsExactly(data[..n], s);
      if s.offset < n {
        OpensPrefix(data, n, s.offset);
        assert data[..n][..s.offset] == data[..s.offset];
      }
    }
  }

  lemma {:induction false} StartsAscend(data: bytes)
    ensures forall i | 0 <= i < |Starts(data)| :: Starts(data)[i].offset < |data|
    ensures forall i, j | 0 <= i < j < |Starts(data)| :: Starts(data)[i].offset < Starts(data)[j].offset
  {
    if data != [] {
      StartsAscend(data[..|data| - 1]);
    }
  }

  /** rust: the scanning loop of do_generate_random_coordinates. */
  method Scan(data: bytes) returns (lineStarts: seq<LineStart>)
    ensures lineStarts == Starts(data)
  {
    var currentLine, currentChar, inNewline := 0, 0, false;
    lineStarts := [];
    for i := 0 to |data|
      invariant lineStarts == Starts(data[..i])
      invariant currentLine + (if inNewline then 1 else 0) == Breaks(data[..i])
      invariant inNewline <==> EndsLine(data[..i])
      invariant currentChar == 0 <==> i == 0 || !InText(data, i - 1)
    {
      var b := data[i];
      assert data[..i + 1][..i] == data[..i];
      OpensPrefix(data, i + 1, i);
      if inNewline {
        inNewline := false;
        currentLine := currentLine + 1;
        currentChar := 0;
        if b == CR { continue; }
      }
      if b == LF || b == CR {
        currentChar := 0;
        inNewline := true;
        continue;
      }
      if currentChar == 0 {
        lineStarts := lineStarts + [LineStart(0, currentLine, i)];
      }
      currentChar := currentChar + 1;
    }
    assert data[..|data|] == data;
  }

  // ---------------------------------------------------------------- drawing coordinates

  datatype Coordinate = Coordinate(block: nat, line: nat, charIndex: nat)

  /** How many bytes of text follow from offset on, up to the next line break. */
  function RunLength(data: bytes, offset: nat): (n: nat)
    requires offset <= |data|
    ensures offset + n <= |data|
    ensures forall i | offset <= i < offset + n :: InText(data, i)
    ensures offset + n == |data| || !InText(data, offset + n)
    decreases |data| - offset
  {
    if offset == |data| || !InText(data, offset) then 0 else 1 + RunLength(data, offset + 1)
  }

  /** The coordinate names a byte of text on the line that s starts, counted from there. */
  predicate Names(data: bytes, s: LineStart, c: Coordinate) {
    && c.block == s.block && c.line == s.line && s.offset <= |data|
    && c.charIndex < RunLength(data, s.offset)
  }

  /** The coordinate two draws give: a start, and a byte of its run of text. */
  function Chosen(data: bytes, starts: seq<LineStart>, lineDraw: nat, charDraw: nat): (c: Coordinate)
    requires starts != [] && forall i | 0 <= i < |starts| :: InText(data, starts[i].offset)
    ensures var s := starts[lineDraw % |starts|]; Names(data, s, c) && c.charIndex == charDraw % RunLength(data, s.offset)
  {
    var s := starts[lineDraw % |starts|];
    assert InText(data, s.offset);
    Coordinate(s.block, s.line, charDraw % RunLength(data, s.offset))
  }

  /** rust: do_generate_random_coordinates, less reading the file and writing JSON, given what the random source yields
      for each line and each byte. */
  method Draw(data: bytes, count: nat, lineDraw: nat -> nat, charDraw: nat -> nat) returns (r: Result<seq<Coordinate>, ()>)
    ensures r.Err? <==> forall i | 0 <= i < |data| :: !InText(data, i)
    ensures (forall i | 0 <= i < |Starts(data)| :: InText(data, Starts(data)[i].offset)) && (r.Ok? ==> Starts(data) != [])
    ensures r.Ok? ==> |r.value| == count
    ensures r.Ok? ==> forall i | 0 <= i < count :: r.value[i] == Chosen(data, Starts(data), lineDraw(i), charDraw(i))
  {
    var lineStarts := Scan(data);
    SomeStart(data);
    forall i | 0 <= i < |lineStarts| ensures InText(data, lineStarts[i].offset) {
      StartsExactly(data, lineStarts[i]);
    }
    if lineStarts == [] { return Err(()); }
    var coords := [];
    for i := 0 to count
      invariant |coords| == i
      invariant forall k | 0 <= k < i :: coords[k] == Chosen(data, lineStarts, lineDraw(k), charDraw(k))
    {
      var lineIdx := lineDraw(i) % |lineStarts|;
      var s := lineStarts[lineIdx];
      var remaining := RunLength(data, s.offset);
      if remaining == 0 { continue; }
      var charIdx := charDraw(i) % remaining;
      coords := coords + [Coordinate(s.block, s.line, charIdx)];
    }
    r := Ok(coords);
  }

  /** A file has a start unless it has no text at all. */
  lemma {:induction false} SomeStart(data: bytes)
    ensures Starts(data) == [] <==> forall i | 0 <= i < |data| :: !InText(data, i)
  {
    if data != [] {
      var n := |data| - 1;
      hide EndsLine, Breaks;
      SomeStart(data[..n]);
      assert forall i | 0 <= i < n :: InText(data[..n], i) <==> InText(data, i);
    }
  }

  /** A coordinate's byte is on the line its number says: text all the way back to the start, which follows a break. */
  lemma {:induction false} NamedByteIsOnItsLine(data: bytes, s: LineStart, c: Coordinate)
    requires s in Starts(data) && Names(data, s, c)
    ensures s.offset + c.charIndex < |data| && Breaks(data[..s.offset + c.charIndex]) == c.line
    ensures forall i | s.offset <= i <= s.offset + c.charIndex :: InText(data, i)
    ensures s.offset == 0 || !InText(data, s.offset - 1)
    decreases c.charIndex
  {
    StartsExactly(data, s);
    assert InText(data, s.offset + c.charIndex);
    if c.charIndex > 0 {
      NamedByteIsOnItsLine(data, s, c.(charIndex := c.charIndex - 1));
      var n := s.offset + c.charIndex;
      assert data[..n][..n - 1] == data[..n - 1];
      assert InText(data, n - 1);
    }
  }

  // ---------------------------------------------------------------- scanner against generator

  /** Where line i of a generated file begins. */
  function Offset(lines: seq<bytes>, i: nat): nat
    requires i <= |lines|
  {
    |Joined(lines[..i])|
  }

  lemma {:induction false} StartsOfText(before: bytes, text: bytes)
    requires before == [] || before[|before| - 1] == LF
    requires forall i | 0 <= i < |text| :: text[i] != LF && text[i] != CR
    ensures Starts(before + text)
            == Starts(before) + if text == [] then [] else [LineStart(0, Breaks(before), |before|)]
    ensures Breaks(before + text) == Breaks(before)
  {
    if text == [] {
      assert before + text == before;
    } else {
      var n := |text| - 1;
      StartsOfText(before, text[..n]);
      assert (before + text)[..|before| + n] == before + text[..n];
    }
  }

  lemma JoinedEndsLine(lines: seq<bytes>)
    ensures Joined(lines) == [] || Joined(lines)[|Joined(lines)| - 1] == LF
  {
  }

  lemma OneMoreLine(before: bytes, line: bytes)
    requires before == [] || before[|before| - 1] == LF
    requires line != [] && forall i | 0 <= i < |line| :: Printable(line[i])
    ensures var more := before + line + [LF];
            && Starts(more) == Starts(before) + [LineStart(0, Breaks(before), |before|)]
            && Breaks(more) == Breaks(before) + 1
  {
    StartsOfText(before, line);
    var more := before + line + [LF];
    assert more[..|more| - 1] == before + line;
  }

  /** The scan of a generated file: line i is found at its offset and numbered i, for each i, and nothing else. */
  lemma {:induction false} ScanFindsGeneratedLines(lines: seq<bytes>)
    requires forall i | 0 <= i < |lines| :: IsLine(lines[i])
    ensures NoCR(Joined(lines)) && Breaks(Joined(lines)) == |lines|
    ensures |Starts(Joined(lines))| == |lines|
    ensures forall i | 0 <= i < |lines| :: Starts(Joined(lines))[i] == LineStart(0, i, Offset(lines, i))
  {
    hide Starts, Breaks;
    if lines == [] {
      StartsOfNothing();
    } else {
      var n := |lines| - 1;
      var front, line := lines[..n], lines[n];
      ScanFindsGeneratedLines(front);
      JoinedEndsLine(front);
      assert IsLine(line);
      OneMoreLine(Joined(front), line);
      assert Joined(lines) == Joined(front) + line + [LF];
      forall i | 0 <= i < n ensures Offset(lines, i) == Offset(front, i) {
        assert front[..i] == lines[..i];
      }
      forall i | 0 <= i < |lines| ensures Starts(Joined(lines))[i] == LineStart(0, i, Offset(lines, i)) {
        if i < n {
          assert Starts(Joined(lines))[i] == Starts(Joined(front))[i];
        }
      }
    }
  }

  lemma StartsOfNothing()
    ensures Starts([]) == [] && Breaks([]) == 0
  {
  }

  /** Each line stands in the file whole at its offset, so the run of text there is the line. */
  lemma {:induction false} GeneratedLineAt(lines: seq<bytes>, i: nat)
    requires (forall j | 0 <= j < |lines| :: IsLine(lines[j])) && i < |lines|
    ensures Offset(lines, i) + |lines[i]| < |Joined(lines)|
    ensures Joined(lines)[Offset(lines, i)..Offset(lines, i) + |lines[i]|] == lines[i]
    ensures Joined(lines)[Offset(lines, i) + |lines[i]|] == LF
  {
    var n := |lines| - 1;
    if i < n {
      GeneratedLineAt(lines[..n], i);
      assert lines[..n][..i] == lines[..i];
      var a, b := Offset(lines, i), Offset(lines, i) + |lines[i]|;
      assert Joined(lines)[a..b] == Joined(lines[..n])[a..b];
    }
  }

  /** So every coordinate drawn from a generated file with at least one line names a real byte of a real line. */
  lemma DrawnFromGenerated(lines: seq<bytes>, s: LineStart, c: Coordinate)
    requires (forall i | 0 <= i < |lines| :: IsLine(lines[i])) && s in Starts(Joined(lines))
    ensures s.line < |lines|
    ensures Names(Joined(lines), s, c) <==> c.block == 0 && c.line == s.line && c.charIndex < |lines[s.line]|
  {
    hide Starts, Joined, Breaks, RunLength;
    var data := Joined(lines);
    ScanFindsGeneratedLines(lines);
    var i :| 0 <= i < |Starts(data)| && Starts(data)[i] == s;
    GeneratedLineAt(lines, i);
    assert forall k | 0 <= k < |lines[i]| :: Printable(lines[i][k]);
    RunIsLine(data, s.offset, lines[i]);
  }

  lemma RunIsLine(data: bytes, a: nat, line: bytes)
    requires a + |line| < |data| && data[a..a + |line|] == line && data[a + |line|] == LF
    requires forall k | 0 <= k < |line| :: Printable(line[k])
    ensures RunLength(data, a) == |line|
    decreases |line|
  {
    if line != [] {
      assert data[a..a + |line|][0] == data[a] == line[0];
      RunIsLine(data, a + 1, line[1..]);
    }
  }
}
