/** The save pipeline of src/extension.js: the save listener (lines 38-42) and
    `compressJStoJSON` (lines 68-98) over an in-memory file store. Babel followed by UglifyJS is
    the parameter `compile` (None when either throws), the workspace folders are `roots`, and the
    process's working directory, which `path.resolve` falls back on, is `cwd`. */
module Pipeline {
  import opened RegexText
  import Directive
  import Paths
  import Payload
  import FieldPatch
  import Document

  /** How a save ends: the early returns and exceptions of `compressJStoJSON`, or the write. */
  datatype Outcome =
    | NotTriggered              // the test of line 39 fails
    | NameMissing               // `match(...)` is null, so `[0]` throws (line 69)
    | NoWorkspaceFolder         // `workspaceFolders[0]` is missing, so `.uri` throws (line 70)
    | PathDoesNotExist(path: string)   // notice 'path does not exist' (line 75)
    | CompileFailed             // Babel or UglifyJS throws (lines 78-90)
    | FieldNotFound(path: string)      // notice 'not found "evalFunc"' (line 93)
    | Written(path: string)     // `fs.writeFileSync` (line 97)

  /** An outcome together with the file store it leaves behind. */
  datatype Effect = Effect(outcome: Outcome, files: map<string, string>)

  /** Line 0 of the saved document, as `document.lineAt(0).text`. */
  function FirstLine(doc: Document.Document): string {
    Document.LineText(doc, 0)
  }

  /** What the compiler is given: `document.getText().trim()`. */
  function Source(doc: Document.Document): string {
    Payload.Trim(doc.text)
  }

  /** `compressJStoJSON(document)`, step by step in the order of lines 69-97. */
  function Compress(files: map<string, string>, doc: Document.Document, roots: seq<string>, cwd: string,
                    compile: string -> Option<string>): Effect
  {
    var name := Directive.DirectiveName(FirstLine(doc));
    if name.None? then Effect(NameMissing, files)
    else if roots == [] then Effect(NoWorkspaceFolder, files)
    else
      var target := Paths.TargetPath(cwd, roots[0], doc.fileName, name.value);
      if target !in files then Effect(PathDoesNotExist(target), files)
      else
        var code := compile(Source(doc));
        if code.None? then Effect(CompileFailed, files)
        else
          var data := Payload.SwapQuotes(code.value);
          var jsonData := files[target];
          if !FieldPatch.HasField(jsonData) then Effect(FieldNotFound(target), files)
          else Effect(Written(target), files[target := FieldPatch.ReplaceAsWritten(jsonData, data)])
  }

  /** The save listener: run the pipeline when line 0 holds a directive. */
  function Save(files: map<string, string>, doc: Document.Document, roots: seq<string>, cwd: string,
                compile: string -> Option<string>): Effect
  {
    if !Directive.HasDirective(FirstLine(doc)) then Effect(NotTriggered, files)
    else Compress(files, doc, roots, cwd, compile)
  }

  /** The files the pipeline sees; `fs.accessSync` succeeds on exactly the keys of `files`. */
  class FileStore {
    var files: map<string, string>

    constructor(initial: map<string, string>)
      ensures files == initial
    {
      files := initial;
    }

    /** `compressJStoJSON(document)` */
    method CompressJsToJson(doc: Document.Document, roots: seq<string>, cwd: string,
                            compile: string -> Option<string>) returns (outcome: Outcome)
      modifies this
      ensures Effect(outcome, files) == Compress(old(files), doc, roots, cwd, compile)
    {
      var name := Directive.DirectiveName(FirstLine(doc));
      if name.None? {
        return NameMissing;
      }
      if roots == [] {
        return NoWorkspaceFolder;
      }
      var target := Paths.TargetPath(cwd, roots[0], doc.fileName, name.value);
      if target !in files {
        return PathDoesNotExist(target);
      }
      var code := compile(Source(doc));
      if code.None? {
        return CompileFailed;
      }
      var data := Payload.SwapQuotes(code.value);
      var jsonData := files[target];
      if !FieldPatch.HasField(jsonData) {
        return FieldNotFound(target);
      }
      jsonData := FieldPatch.ReplaceAsWritten(jsonData, data);
      files := files[target := jsonData];
      return Written(target);
    }

    /** The handler given to `onDidSaveTextDocument`. */
    method OnSave(doc: Document.Document, roots: seq<string>, cwd: string,
                  compile: string -> Option<string>) returns (outcome: Outcome)
      modifies this
      ensures Effect(outcome, files) == Save(old(files), doc, roots, cwd, compile)
    {
      if Directive.HasDirective(FirstLine(doc)) {
        outcome := CompressJsToJson(doc, roots, cwd, compile);
      } else {
        outcome := NotTriggered;
      }
    }
  }

  // ---------------------------------------------------------------------------------------
  // What a save does to the store

  /** A save that does not write leaves every file as it was; one that writes changes the
      target's content only, and the target is a file that already existed. */
  lemma {:induction false} SaveWritesOnlyTarget(files: map<string, string>, doc: Document.Document, roots: seq<string>,
                             cwd: string, compile: string -> Option<string>)
    ensures var e := Save(files, doc, roots, cwd, compile);
            !e.outcome.Written? ==> e.files == files
    ensures var e := Save(files, doc, roots, cwd, compile);
            e.outcome.Written? ==>
              e.outcome.path in files && e.files.Keys == files.Keys &&
              forall k :: k in files && k != e.outcome.path ==> e.files[k] == files[k]
  {
    var line := FirstLine(doc);
    if Directive.HasDirective(line) {
      var name := Directive.DirectiveName(line);
      if name.Some? && roots != [] {
        var target := Paths.TargetPath(cwd, roots[0], doc.fileName, name.value);
        if target in files && compile(Source(doc)).Some? && FieldPatch.HasField(files[target]) {
          var v := FieldPatch.ReplaceAsWritten(files[target], Payload.SwapQuotes(compile(Source(doc)).value));
          assert Save(files, doc, roots, cwd, compile) == Effect(Written(target), files[target := v]);
          MapUpdateKeeps(files, target, v);
        }
      }
    }
  }

  lemma {:induction false} MapUpdateKeeps(m: map<string, string>, t: string, v: string)
    requires t in m
    ensures m[t := v].Keys == m.Keys
    ensures forall k :: k in m && k != t ==> m[t := v][k] == m[k]
  {
  }

  /** The listener runs the pipeline exactly when line 0 passes the test of line 39, and then
      the name lookup of line 69 never fails. */
  lemma {:induction false} SaveTriggers(files: map<string, string>, doc: Document.Document, roots: seq<string>,
                     cwd: string, compile: string -> Option<string>)
    ensures Save(files, doc, roots, cwd, compile).outcome == NotTriggered <==>
            !Directive.HasDirective(FirstLine(doc))
    ensures Save(files, doc, roots, cwd, compile).outcome != NameMissing
  {
    var line := FirstLine(doc);
    Directive.DirectiveNameIffTest(line);
    if Directive.HasDirective(line) {
      CompressRuns(files, doc, roots, cwd, compile);
    }
  }

  /** Once the name is found, the pipeline ends in neither of the two outcomes before it. */
  lemma {:induction false} CompressRuns(files: map<string, string>, doc: Document.Document, roots: seq<string>,
                                        cwd: string, compile: string -> Option<string>)
    requires Directive.DirectiveName(FirstLine(doc)).Some?
    ensures Compress(files, doc, roots, cwd, compile).outcome != NotTriggered
    ensures Compress(files, doc, roots, cwd, compile).outcome != NameMissing
  {
    var name := Directive.DirectiveName(FirstLine(doc)).value;
    if roots != [] {
      var target := Paths.TargetPath(cwd, roots[0], doc.fileName, name);
      if target in files && compile(Source(doc)).Some? {
        assert Compress(files, doc, roots, cwd, compile).outcome ==
               if FieldPatch.HasField(files[target]) then Written(target) else FieldNotFound(target);
      }
    }
  }

  /** A save writes exactly when every check passes, and what it writes is the target run
      through the replacement of line 96 with the compiled code, its double quotes made single. */
  lemma {:induction false} SaveWritesIff(files: map<string, string>, doc: Document.Document, roots: seq<string>,
                      cwd: string, compile: string -> Option<string>)
    ensures var e := Save(files, doc, roots, cwd, compile);
            var name := Directive.DirectiveName(FirstLine(doc));
            e.outcome.Written? <==>
              name.Some? && roots != [] &&
              Paths.TargetPath(cwd, roots[0], doc.fileName, name.value) in files &&
              compile(Source(doc)).Some? &&
              FieldPatch.HasField(files[Paths.TargetPath(cwd, roots[0], doc.fileName, name.value)])
    ensures var e := Save(files, doc, roots, cwd, compile);
            var name := Directive.DirectiveName(FirstLine(doc));
            e.outcome.Written? ==>
              e.outcome.path == Paths.TargetPath(cwd, roots[0], doc.fileName, name.value) &&
              e.files[e.outcome.path] ==
                FieldPatch.ReplaceAsWritten(files[e.outcome.path], Payload.SwapQuotes(compile(Source(doc)).value))
  {
    Directive.DirectiveNameIffTest(FirstLine(doc));
  }

  /** A save whose checks all pass writes the target as line 96 rewrites it. */
  lemma {:induction false} SaveWrites(files: map<string, string>, doc: Document.Document, roots: seq<string>,
                                      cwd: string, compile: string -> Option<string>, name: string, target: string)
    requires Directive.DirectiveName(FirstLine(doc)) == Some(name) && roots != []
    requires target == Paths.TargetPath(cwd, roots[0], doc.fileName, name)
    requires target in files && compile(Source(doc)).Some? && FieldPatch.HasField(files[target])
    ensures Save(files, doc, roots, cwd, compile) ==
            Effect(Written(target), files[target := FieldPatch.ReplaceAsWritten(files[target], Payload.SwapQuotes(compile(Source(doc)).value))])
  {
    Directive.DirectiveNameIffTest(FirstLine(doc));
  }

  /** A target file holding one `evalFunc` field gets the compiled code, with single quotes,
      between that field's quotes and is otherwise kept as it was, provided the code holds no
      `$` for line 96 to expand. */
  lemma {:induction false} SaveIntoSingleField(files: map<string, string>, doc: Document.Document, roots: seq<string>,
                            cwd: string, compile: string -> Option<string>, name: string, target: string,
                            pre: string, opener: string, prev: string, post: string)
    requires Directive.DirectiveName(FirstLine(doc)) == Some(name) && roots != []
    requires target == Paths.TargetPath(cwd, roots[0], doc.fileName, name)
    requires compile(Source(doc)).Some? && '$' !in compile(Source(doc)).value
    requires opener == FieldPatch.ValueOpener || opener == FieldPatch.SpacedValueOpener
    requires '"' !in prev && forall c :: c in prev ==> !IsLineTerminator(c)
    requires target in files && files[target] == pre + opener + prev + "\"" + post
    requires FieldPatch.OnlyKeyAt(files[target], |pre|)
    ensures var data := Payload.SwapQuotes(compile(Source(doc)).value);
            Save(files, doc, roots, cwd, compile) == Effect(Written(target), files[target := pre + opener + data + "\"" + post]) &&
            '"' !in data
  {
    var data := Payload.SwapQuotes(compile(Source(doc)).value);
    FieldPatch.SingleSpan(pre, opener, prev, post);
    FieldPatch.HasFieldIffSpan(files[target]);
    SaveSplices(files, doc, roots, cwd, compile, name, target);
    FieldPatch.PatchSingleField(pre, opener, prev, post, data);
    Payload.SwapQuotesRemovesQuotes(compile(Source(doc)).value);
  }

  /** Saving the same document twice into a single-field target leaves the store as the
      first save left it, when the compiled code spans one line, holds no `$` and is not
      `evalFunc`. */
  lemma {:induction false} SaveTwiceIsSaveOnce(files: map<string, string>, doc: Document.Document, roots: seq<string>,
                            cwd: string, compile: string -> Option<string>, name: string, target: string,
                            pre: string, opener: string, prev: string, post: string)
    requires Directive.DirectiveName(FirstLine(doc)) == Some(name) && roots != []
    requires target == Paths.TargetPath(cwd, roots[0], doc.fileName, name)
    requires compile(Source(doc)).Some? && '$' !in compile(Source(doc)).value
    requires forall c :: c in compile(Source(doc)).value ==> !IsLineTerminator(c)
    requires Payload.SwapQuotes(compile(Source(doc)).value) != "evalFunc"
    requires opener == FieldPatch.ValueOpener || opener == FieldPatch.SpacedValueOpener
    requires '"' !in prev && forall c :: c in prev ==> !IsLineTerminator(c)
    requires target in files && files[target] == pre + opener + prev + "\"" + post
    requires FieldPatch.OnlyKeyAt(files[target], |pre|)
    ensures var once := Save(files, doc, roots, cwd, compile);
            Save(once.files, doc, roots, cwd, compile) == Effect(Written(target), once.files)
  {
    var code := compile(Source(doc)).value;
    var data := Payload.SwapQuotes(code);
    var original := files[target];
    SaveIntoSingleField(files, doc, roots, cwd, compile, name, target, pre, opener, prev, post);
    Payload.SwapQuotesKeepsLines(code);
    FieldPatch.PatchIdempotent(pre, opener, prev, post, data);
    FieldPatch.PatchSingleField(pre, opener, prev, post, data);
    var once := files[target := FieldPatch.Patch(original, data)];
    FieldPatch.AsWrittenAgreesWithoutDollar(once[target], data, 0);
    SaveKeeps(once, doc, roots, cwd, compile, name, target);
  }

  /** A save whose rewrite leaves the target as it is leaves the whole store as it is. */
  lemma {:induction false} SaveKeeps(files: map<string, string>, doc: Document.Document, roots: seq<string>,
                                     cwd: string, compile: string -> Option<string>, name: string, target: string)
    requires Directive.DirectiveName(FirstLine(doc)) == Some(name) && roots != []
    requires target == Paths.TargetPath(cwd, roots[0], doc.fileName, name)
    requires target in files && compile(Source(doc)).Some? && FieldPatch.HasField(files[target])
    requires FieldPatch.ReplaceAsWritten(files[target], Payload.SwapQuotes(compile(Source(doc)).value)) == files[target]
    ensures Save(files, doc, roots, cwd, compile) == Effect(Written(target), files)
  {
    SaveWrites(files, doc, roots, cwd, compile, name, target);
    assert files[target := files[target]] == files;
  }

  /** Whenever the compiled code holds no `$`, a save performs the intended splice: every
      value span of the target becomes the code. */
  lemma {:induction false} SaveSplices(files: map<string, string>, doc: Document.Document, roots: seq<string>,
                                       cwd: string, compile: string -> Option<string>, name: string, target: string)
    requires Directive.DirectiveName(FirstLine(doc)) == Some(name) && roots != []
    requires target == Paths.TargetPath(cwd, roots[0], doc.fileName, name)
    requires target in files && compile(Source(doc)).Some? && FieldPatch.HasField(files[target])
    requires '$' !in compile(Source(doc)).value
    ensures Save(files, doc, roots, cwd, compile) ==
            Effect(Written(target), files[target := FieldPatch.Patch(files[target], Payload.SwapQuotes(compile(Source(doc)).value))])
  {
    var code := compile(Source(doc)).value;
    SaveWrites(files, doc, roots, cwd, compile, name, target);
    Payload.SwapQuotesKeepsLines(code);
    FieldPatch.AsWrittenAgreesWithoutDollar(files[target], Payload.SwapQuotes(code), 0);
  }

  /** The defect of line 96 seen from a save: compiled code `$&` leaves a single-field target,
      and so the whole store, exactly as it was, although the save reports a write. */
  lemma {:induction false} SaveOfDollarAmpersandKeepsStore(files: map<string, string>, doc: Document.Document,
                            roots: seq<string>, cwd: string, compile: string -> Option<string>, name: string,
                            target: string, pre: string, opener: string, prev: string, post: string)
    requires Directive.DirectiveName(FirstLine(doc)) == Some(name) && roots != []
    requires target == Paths.TargetPath(cwd, roots[0], doc.fileName, name)
    requires compile(Source(doc)) == Some("$&")
    requires opener == FieldPatch.ValueOpener || opener == FieldPatch.SpacedValueOpener
    requires '"' !in prev && forall c :: c in prev ==> !IsLineTerminator(c)
    requires target in files && files[target] == pre + opener + prev + "\"" + post
    requires FieldPatch.OnlyKeyAt(files[target], |pre|)
    ensures Save(files, doc, roots, cwd, compile) == Effect(Written(target), files)
  {
    Payload.SwapQuotesIdempotent("$&");
    FieldPatch.SingleSpan(pre, opener, prev, post);
    FieldPatch.HasFieldIffSpan(files[target]);
    FieldPatch.DollarAmpersandKeepsOldValue(pre, opener, prev, post);
    SaveKeeps(files, doc, roots, cwd, compile, name, target);
  }
}
