/** The two formatting providers of src/extension.js (lines 47-62) and `format` (lines 106-129).
    `js_beautify` with the plugin's fixed options is the parameter `beautify`. */
module Formatter {
  import opened RegexText
  import opened Document

  /** `new vscode.TextEdit(range, newText)` */
  datatype TextEdit = TextEdit(range: Range, newText: string)

  /** The text a document has once `edit` is applied to it. */
  function ApplyEdit(doc: Document, edit: TextEdit): string {
    var a := OffsetAt(doc, edit.range.start);
    var b := OffsetAt(doc, edit.range.end);
    var lo := if a <= b then a else b;
    var hi := if a <= b then b else a;
    doc.text[..lo] + edit.newText + doc.text[hi..]
  }

  /** What formatting a whole document is meant to yield: one edit over the whole document
      holding the beautified text, or none when that text is empty. */
  function WholeDocumentEdits(doc: Document, beautify: string -> string): seq<TextEdit> {
    if beautify(doc.text) == [] then [] else [TextEdit(FullRange(doc), beautify(doc.text))]
  }

  /** `format(document, range, options)`: a missing range means the whole document; the text of
      the range is beautified and, unless the result is empty, one edit replaces the range by it. */
  method Format(doc: Document, range: Option<Range>, beautify: string -> string) returns (edits: seq<TextEdit>)
    ensures |edits| <= 1
    ensures var r := if range.Some? then range.value else FullRange(doc);
            (edits == [] <==> beautify(GetText(doc, r)) == []) &&
            (edits != [] ==> edits[0] == TextEdit(r, beautify(GetText(doc, r))))
    ensures range.None? ==> edits == WholeDocumentEdits(doc, beautify)
  {
    var r := if range.Some? then range.value else FullRange(doc);
    var result: seq<TextEdit> := [];
    var content := GetText(doc, r);
    var formatted := beautify(content);
    if formatted != [] {
      result := result + [TextEdit(r, formatted)];
    }
    FullRangeText(doc);
    edits := result;
  }

  /** `provideDocumentFormattingEdits`: `format(document, null, options)`. */
  method ProvideDocumentFormattingEdits(doc: Document, beautify: string -> string) returns (edits: seq<TextEdit>)
    ensures edits == WholeDocumentEdits(doc, beautify)
  {
    edits := Format(doc, None, beautify);
  }

  /** `provideDocumentRangeFormattingEdits`: the range the editor asks for is not used; the
      whole document is formatted, exactly as the document provider does. */
  method ProvideDocumentRangeFormattingEdits(doc: Document, range: Range, beautify: string -> string)
    returns (edits: seq<TextEdit>)
    ensures edits == WholeDocumentEdits(doc, beautify)
  {
    var start := Position(0, 0);
    var end := Position(LineCount(doc) - 1, |LineText(doc, LineCount(doc) - 1)|);
    edits := Format(doc, Some(Range(start, end)), beautify);
    FullRangeText(doc);
  }

  /** Applying the edit of a whole-document format replaces the whole text by the beautified text. */
  lemma {:induction false} WholeEditReplacesText(doc: Document, beautify: string -> string)
    requires WholeDocumentEdits(doc, beautify) != []
    ensures ApplyEdit(doc, WholeDocumentEdits(doc, beautify)[0]) == beautify(doc.text)
  {
    FullRangeText(doc);
    assert doc.text[..0] == [] && doc.text[|doc.text|..] == [];
  }
}
