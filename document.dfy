/** The part of a VS Code `TextDocument` that src/extension.js uses: its file name, its lines
    (`lineAt`, `lineCount`), and the text of a range (`getText`). A document always has at least
    one line; lines end at `\r\n`, `\r` or `\n`, and the last line has no end. */
module Document {

  datatype Line = Line(text: string, eol: string)

  datatype Document = Document(fileName: string, text: string)

  /** A zero-based line and a character offset within it. */
  datatype Position = Position(line: nat, character: nat)

  datatype Range = Range(start: Position, end: Position)

  predicate IsBreak(c: char) {
    c == '\r' || c == '\n'
  }

  predicate NoBreak(s: string) {
    forall k :: 0 <= k < |s| ==> !IsBreak(s[k])
  }

  /** The lines put back together. */
  function Join(lines: seq<Line>): (r: string)
    ensures lines == [] ==> r == []
  {
    if lines == [] then [] else lines[0].text + lines[0].eol + Join(lines[1..])
  }

  /** The index of the first `\r` or `\n` at or after `i`, or `|s|`. */
  function FirstBreak(s: string, i: nat): (k: nat)
    requires i <= |s|
    ensures i <= k <= |s|
    ensures forall m :: i <= m < k ==> !IsBreak(s[m])
    ensures k < |s| ==> IsBreak(s[k])
    decreases |s| - i
  {
    if i == |s| || IsBreak(s[i]) then i else FirstBreak(s, i + 1)
  }

  /** A list of lines as a document holds them: break-free texts, each line but the last ended
      by a full line break (a `\r` right before a `\n` belongs to the same `\r\n`), the last
      one by nothing. */
  predicate WellFormed(lines: seq<Line>) {
    |lines| >= 1 &&
    (forall i :: 0 <= i < |lines| ==> NoBreak(lines[i].text)) &&
    (forall i :: 0 <= i < |lines| - 1 ==> lines[i].eol == "\r\n" || lines[i].eol == "\r" || lines[i].eol == "\n") &&
    (forall i :: 0 <= i < |lines| - 1 && lines[i].eol == "\r" ==> !(lines[i + 1].text == [] && lines[i + 1].eol == "\n")) &&
    lines[|lines| - 1].eol == []
  }

  /** How a document's text falls into lines. */
  function SplitLines(s: string): (r: seq<Line>)
    ensures WellFormed(r)
    ensures Join(r) == s
    decreases |s|
  {
    var k := FirstBreak(s, 0);
    if k == |s| then
      [Line(s, [])]
    else
      var n := if s[k] == '\r' && k + 1 < |s| && s[k + 1] == '\n' then 2 else 1;
      var rest := SplitLines(s[k + n..]);
      SplitStep(s, k, n, rest);
      [Line(s[..k], s[k..k + n])] + rest
  }

  /** One line taken off the front of the text, followed by the lines of the remainder. */
  lemma {:induction false} SplitStep(s: string, k: nat, n: nat, rest: seq<Line>)
    requires k < |s| && k + n <= |s| && IsBreak(s[k])
    requires forall m :: 0 <= m < k ==> !IsBreak(s[m])
    requires n == (if s[k] == '\r' && k + 1 < |s| && s[k + 1] == '\n' then 2 else 1)
    requires WellFormed(rest) && Join(rest) == s[k + n..]
    ensures WellFormed([Line(s[..k], s[k..k + n])] + rest)
    ensures Join([Line(s[..k], s[k..k + n])] + rest) == s
  {
    var head := Line(s[..k], s[k..k + n]);
    ConsJoin(head, rest);
    assert s == s[..k] + s[k..k + n] + s[k + n..];
    BreakEnds(s, k, n, rest);
    ConsWellFormed(head, rest);
  }

  /** The break taken off is a whole `\r\n`, `\r` or `\n`, and a lone `\r` is not followed
      by a `\n`. */
  lemma {:induction false} BreakEnds(s: string, k: nat, n: nat, rest: seq<Line>)
    requires k < |s| && k + n <= |s| && IsBreak(s[k])
    requires n == (if s[k] == '\r' && k + 1 < |s| && s[k + 1] == '\n' then 2 else 1)
    requires |rest| >= 1 && Join(rest) == s[k + n..]
    ensures s[k..k + n] == "\r\n" || s[k..k + n] == "\r" || s[k..k + n] == "\n"
    ensures s[k..k + n] == "\r" ==> !(rest[0].text == [] && rest[0].eol == "\n")
  {
    if n == 1 {
      assert s[k..k + n] == [s[k]];
      if s[k] == '\r' && rest[0].text == [] && rest[0].eol == "\n" {
        JoinStartsWithBreak(rest);
        assert false;
      }
    }
  }

  /** Lines whose first is an empty line ended by `\n` join to a text that starts with `\n`. */
  lemma {:induction false} JoinStartsWithBreak(lines: seq<Line>)
    requires |lines| >= 1 && lines[0].text == [] && lines[0].eol == "\n"
    ensures |Join(lines)| >= 1 && Join(lines)[0] == '\n'
  {
  }

  lemma {:induction false} ConsJoin(head: Line, rest: seq<Line>)
    ensures Join([head] + rest) == head.text + head.eol + Join(rest)
  {
    assert ([head] + rest)[1..] == rest;
  }

  /** A break-free line ended by a line break can go in front of well-formed lines, unless it
      would split a `\r\n`. */
  lemma {:induction false} ConsWellFormed(head: Line, rest: seq<Line>)
    requires NoBreak(head.text) && (head.eol == "\r\n" || head.eol == "\r" || head.eol == "\n")
    requires WellFormed(rest)
    requires head.eol == "\r" ==> !(rest[0].text == [] && rest[0].eol == "\n")
    ensures WellFormed([head] + rest)
  {
    var lines := [head] + rest;
    forall i | 1 <= i < |lines| ensures lines[i] == rest[i - 1] {}
  }

  function Lines(doc: Document): seq<Line> {
    SplitLines(doc.text)
  }

  /** `document.lineCount` */
  function LineCount(doc: Document): (n: nat)
    ensures n >= 1
  {
    |Lines(doc)|
  }

  /** `document.lineAt(i).text` */
  function LineText(doc: Document, i: nat): string
    requires i < LineCount(doc)
  {
    Lines(doc)[i].text
  }

  /** Splitting at a line boundary. */
  lemma {:induction false} JoinSplitAt(lines: seq<Line>, k: nat)
    requires k <= |lines|
    ensures Join(lines) == Join(lines[..k]) + Join(lines[k..])
    decreases k
  {
    if k > 0 {
      JoinSplitAt(lines[1..], k - 1);
      assert lines[1..][..k - 1] == lines[..k][1..];
      assert lines[1..][k - 1..] == lines[k..];
    }
  }

  /** `document.offsetAt(position)`, after the position has been validated: a line past the end
      means the end of the document, a character past the end of its line the end of that line. */
  function OffsetAt(doc: Document, pos: Position): (r: nat)
    ensures r <= |doc.text|
  {
    LineOffset(Lines(doc), pos)
  }

  /** The offset of a validated position among `lines`. */
  function LineOffset(lines: seq<Line>, pos: Position): (r: nat)
    requires |lines| >= 1
    ensures r <= |Join(lines)|
  {
    var n := |lines|;
    var line := if pos.line < n then pos.line else n - 1;
    var character := if pos.line < n && pos.character <= |lines[line].text| then pos.character
                     else |lines[line].text|;
    JoinSplitAt(lines, line);
    assert lines[line..][0] == lines[line];
    |Join(lines[..line])| + character
  }

  /** `document.getText(range)`: the text between the two validated positions. */
  function GetText(doc: Document, range: Range): (r: string)
    ensures |r| <= |doc.text|
  {
    var a := OffsetAt(doc, range.start);
    var b := OffsetAt(doc, range.end);
    var lo, hi := if a <= b then a else b, if a <= b then b else a;
    doc.text[lo..hi]
  }

  /** `new Range(new Position(0, 0), new Position(lineCount - 1, lineAt(lineCount - 1).text.length))` */
  function FullRange(doc: Document): Range {
    Range(Position(0, 0), Position(LineCount(doc) - 1, |LineText(doc, LineCount(doc) - 1)|))
  }

  /** The whole-document range runs from the first to the last character of the text. */
  lemma {:induction false} FullRangeText(doc: Document)
    ensures OffsetAt(doc, FullRange(doc).start) == 0
    ensures OffsetAt(doc, FullRange(doc).end) == |doc.text|
    ensures GetText(doc, FullRange(doc)) == doc.text
  {
    OffsetOfStart(doc);
    OffsetOfEnd(doc);
    assert doc.text[0..|doc.text|] == doc.text;
  }

  lemma {:induction false} OffsetOfStart(doc: Document)
    ensures OffsetAt(doc, Position(0, 0)) == 0
  {
    var lines := Lines(doc);
    assert lines[..0] == [];
  }

  lemma {:induction false} OffsetOfEnd(doc: Document)
    ensures OffsetAt(doc, FullRange(doc).end) == |doc.text|
  {
    var lines := Lines(doc);
    assert FullRange(doc).end == Position(|lines| - 1, |lines[|lines| - 1].text|);
    LastOffset(lines);
  }

  /** The end of the last line is the end of the text. */
  lemma {:induction false} LastOffset(lines: seq<Line>)
    requires |lines| >= 1 && lines[|lines| - 1].eol == []
    ensures LineOffset(lines, Position(|lines| - 1, |lines[|lines| - 1].text|)) == |Join(lines)|
  {
    var n := |lines|;
    var last := lines[n - 1];
    JoinSplitAt(lines, n - 1);
    assert lines[n - 1..] == [last];
    assert Join([last]) == last.text by {
      assert [last][1..] == [];
    }
  }

  /** Line 0 of a document is the text before its first line break. */
  lemma {:induction false} FirstLine(doc: Document)
    ensures LineText(doc, 0) == doc.text[..FirstBreak(doc.text, 0)]
    ensures NoBreak(doc.text) ==> LineText(doc, 0) == doc.text
  {
    var k := FirstBreak(doc.text, 0);
    if k == |doc.text| {
      assert doc.text[..k] == doc.text;
    }
  }

  /** What precedes the first `\r` or `\n` of the text is line 0, however the rest looks. */
  lemma {:induction false} FirstLineOf(first: string, brk: char, rest: string)
    requires NoBreak(first) && IsBreak(brk)
    ensures LineText(Document("", first + [brk] + rest), 0) == first
  {
    var s := first + [brk] + rest;
    assert FirstBreak(s, 0) == |first| by {
      assert s[|first|] == brk;
      assert forall m :: 0 <= m < |first| ==> s[m] == first[m];
      FirstBreakAt(s, 0, |first|);
    }
    FirstLine(Document("", s));
    assert s[..|first|] == first;
  }

  /** The scan for a line break stops at the first one. */
  lemma {:induction false} FirstBreakAt(s: string, i: nat, k: nat)
    requires i <= k < |s| && IsBreak(s[k])
    requires forall m :: i <= m < k ==> !IsBreak(s[m])
    ensures FirstBreak(s, i) == k
    decreases k - i
  {
    if i < k {
      FirstBreakAt(s, i + 1, k);
    }
  }
}
