/** POSIX path resolution as Node's `path.resolve` performs it, and the choice of the target
    JSON file at src/extension.js:70-71. `process.cwd()` is the parameter `cwd`. */
module Paths {
  import opened RegexText

  predicate IsAbsolute(p: string) {
    |p| > 0 && p[0] == '/'
  }

  /** `p.split('/')` */
  function Split(p: string): (r: seq<string>)
    ensures |r| >= 1
    ensures forall k :: 0 <= k < |r| ==> '/' !in r[k]
    decreases |p|
  {
    if p == "" then [""]
    else if p[0] == '/' then [""] + Split(p[1..])
    else
      var rest := Split(p[1..]);
      [[p[0]] + rest[0]] + rest[1..]
  }

  /** `segs.join('/')` */
  function Join(segs: seq<string>): string {
    if |segs| == 0 then ""
    else if |segs| == 1 then segs[0]
    else segs[0] + "/" + Join(segs[1..])
  }

  /** Splitting and joining again gives back the path. */
  lemma {:induction false} JoinSplit(p: string)
    ensures Join(Split(p)) == p
    decreases |p|
  {
    if p != "" {
      JoinSplit(p[1..]);
      var rest := Split(p[1..]);
      if p[0] != '/' && |rest| > 1 {
        assert Split(p)[1..] == rest[1..];
      }
    }
  }

  /** Joining slash-free segments and splitting again gives back the segments. */
  lemma {:induction false} SplitJoin(segs: seq<string>)
    requires |segs| >= 1
    requires forall k :: 0 <= k < |segs| ==> '/' !in segs[k]
    ensures Split(Join(segs)) == segs
    decreases |segs|
  {
    if |segs| == 1 {
      SplitPlain(segs[0]);
    } else {
      SplitJoin(segs[1..]);
      SplitAppend(segs[0], Join(segs[1..]));
      SplitPlain(segs[0]);
      assert segs == [segs[0]] + segs[1..];
    }
  }

  /** A slash-free string is a single segment. */
  lemma {:induction false} SplitPlain(w: string)
    requires '/' !in w
    ensures Split(w) == [w]
    decreases |w|
  {
    if w != "" {
      assert '/' !in w[1..] by {
        forall k | 0 <= k < |w| - 1 ensures w[1..][k] != '/' { assert w[1..][k] == w[k + 1]; }
      }
      SplitPlain(w[1..]);
      assert w == [w[0]] + w[1..];
    }
  }

  /** Splitting distributes over joining with a slash. */
  lemma {:induction false} SplitAppend(a: string, b: string)
    ensures Split(a + "/" + b) == Split(a) + Split(b)
    decreases |a|
  {
    if a == "" {
      assert a + "/" + b == "/" + b;
      assert ("/" + b)[1..] == b;
    } else {
      var t := a + "/" + b;
      assert t[0] == a[0] && t[1..] == a[1..] + "/" + b;
      SplitAppend(a[1..], b);
    }
  }

  /** One segment of Node's `normalizeString`: empty and `.` segments vanish, `..` drops the
      last kept segment unless that is itself `..`, and is kept only above a relative root. */
  function Step(stack: seq<string>, seg: string, aboveRoot: bool): seq<string> {
    if seg == "" || seg == "." then stack
    else if seg == ".." then
      if |stack| > 0 && stack[|stack| - 1] != ".." then stack[..|stack| - 1]
      else if aboveRoot then stack + [".."]
      else stack
    else stack + [seg]
  }

  /** `normalizeString` over a list of segments, from a stack already built. */
  function Fold(stack: seq<string>, segs: seq<string>, aboveRoot: bool): seq<string>
    decreases |segs|
  {
    if segs == [] then stack else Fold(Step(stack, segs[0], aboveRoot), segs[1..], aboveRoot)
  }

  /** Normalising a concatenation is normalising its second part from the first's result. */
  lemma {:induction false} FoldAppend(stack: seq<string>, a: seq<string>, b: seq<string>, aboveRoot: bool)
    ensures Fold(stack, a + b, aboveRoot) == Fold(Fold(stack, a, aboveRoot), b, aboveRoot)
    decreases |a|
  {
    if a == [] {
      assert a + b == b;
    } else {
      assert (a + b)[0] == a[0] && (a + b)[1..] == a[1..] + b;
      FoldAppend(Step(stack, a[0], aboveRoot), a[1..], b, aboveRoot);
    }
  }

  /** Segments a normalised absolute path can hold. */
  predicate Clean(stack: seq<string>) {
    forall k :: 0 <= k < |stack| ==> stack[k] != "" && stack[k] != "." && stack[k] != ".." && '/' !in stack[k]
  }

  /** Below an absolute root only plain segments survive normalisation. */
  lemma {:induction false} FoldKeepsClean(stack: seq<string>, segs: seq<string>)
    requires Clean(stack)
    requires forall k :: 0 <= k < |segs| ==> '/' !in segs[k]
    ensures Clean(Fold(stack, segs, false))
    decreases |segs|
  {
    if segs != [] {
      FoldKeepsClean(Step(stack, segs[0], false), segs[1..]);
    }
  }

  /** Plain segments are kept as they are. */
  lemma {:induction false} FoldOfClean(stack: seq<string>, segs: seq<string>)
    requires Clean(segs)
    ensures Fold(stack, segs, false) == stack + segs
    decreases |segs|
  {
    if segs != [] {
      FoldOfClean(stack + [segs[0]], segs[1..]);
      assert stack + [segs[0]] + segs[1..] == stack + segs;
    }
  }

  /** The string `path.resolve` builds before normalising: the arguments taken from the right,
      each followed by `/`, skipping empty ones, up to and including the first absolute one
      met; `process.cwd()` comes last if none is absolute. The flag says whether the string
      is absolute. `acc` is what has been gathered from the arguments to the right. */
  function Gather(cwd: string, args: seq<string>, acc: string): (string, bool)
    decreases |args|
  {
    if |args| == 0 then
      if cwd == "" then (acc, false) else (cwd + "/" + acc, IsAbsolute(cwd))
    else
      var a := args[|args| - 1];
      if a == "" then Gather(cwd, args[..|args| - 1], acc)
      else if IsAbsolute(a) then (a + "/" + acc, true)
      else Gather(cwd, args[..|args| - 1], a + "/" + acc)
  }

  /** `path.resolve(...args)` on POSIX, with `cwd` for `process.cwd()`. */
  function Resolve(cwd: string, args: seq<string>): string {
    var (joined, absolute) := Gather(cwd, args, "");
    var stack := Fold([], Split(joined), !absolute);
    if absolute then "/" + Join(stack)
    else if stack == [] then "."
    else Join(stack)
  }

  /** What has been gathered to the right stays at the end of the gathered string. */
  lemma {:induction false} GatherAppends(cwd: string, args: seq<string>, acc: string)
    ensures Gather(cwd, args, acc).0 == Gather(cwd, args, "").0 + acc
    ensures Gather(cwd, args, acc).1 == Gather(cwd, args, "").1
    decreases |args|
  {
    if |args| == 0 {
      assert cwd + "/" + "" + acc == cwd + "/" + acc;
    } else {
      var a := args[|args| - 1];
      var pre := args[..|args| - 1];
      if a == "" {
        GatherAppends(cwd, pre, acc);
      } else if !IsAbsolute(a) {
        GatherAppends(cwd, pre, a + "/" + acc);
        GatherAppends(cwd, pre, a + "/" + "");
        var g := Gather(cwd, pre, "").0;
        assert g + (a + "/" + "") + acc == g + (a + "/" + acc);
      } else {
        assert a + "/" + "" + acc == a + "/" + acc;
      }
    }
  }

  /** From an absolute working directory the gathered string is absolute and ends with `/`. */
  lemma {:induction false} GatherAbsolute(cwd: string, args: seq<string>)
    requires IsAbsolute(cwd)
    ensures Gather(cwd, args, "").1
    ensures exists x :: Gather(cwd, args, "").0 == x + "/" && IsAbsolute(x)
    decreases |args|
  {
    if |args| == 0 {
      assert Gather(cwd, args, "").0 == cwd + "/" + "" == cwd + "/";
    } else {
      var a := args[|args| - 1];
      var pre := args[..|args| - 1];
      if a == "" {
        GatherAbsolute(cwd, pre);
      } else if IsAbsolute(a) {
        assert Gather(cwd, args, "").0 == a + "/" + "" == a + "/";
      } else {
        GatherAbsolute(cwd, pre);
        GatherAppends(cwd, pre, a + "/" + "");
        var x :| Gather(cwd, pre, "").0 == x + "/" && IsAbsolute(x);
        assert Gather(cwd, args, "").0 == x + "/" + (a + "/" + "") == (x + "/" + a) + "/";
      }
    }
  }

  /** The normalised stack of `path.resolve` from an absolute working directory. */
  function Stack(cwd: string, args: seq<string>): seq<string> {
    Fold([], Split(Gather(cwd, args, "").0), false)
  }

  /** From an absolute working directory, `path.resolve` always yields an absolute path made
      of plain segments. */
  lemma {:induction false} ResolveIsAbsolute(cwd: string, args: seq<string>)
    requires IsAbsolute(cwd)
    ensures Resolve(cwd, args) == "/" + Join(Stack(cwd, args))
    ensures IsAbsolute(Resolve(cwd, args))
    ensures Clean(Stack(cwd, args))
  {
    GatherAbsolute(cwd, args);
    FoldKeepsClean([], Split(Gather(cwd, args, "").0));
  }

  /** A later absolute argument overrides every earlier one (and the working directory). */
  lemma {:induction false} ResolveFromAbsolute(cwd: string, cwd': string, args: seq<string>, k: nat, acc: string)
    requires k < |args| && IsAbsolute(args[k])
    ensures Gather(cwd, args, acc) == Gather(cwd', args[k..], acc)
    decreases |args|
  {
    var n := |args|;
    var a := args[n - 1];
    if k < n - 1 {
      var pre := args[..n - 1];
      assert args[k..][|args[k..]| - 1] == a;
      assert args[k..][..|args[k..]| - 1] == pre[k..];
      if a == "" {
        ResolveFromAbsolute(cwd, cwd', pre, k, acc);
      } else if !IsAbsolute(a) {
        ResolveFromAbsolute(cwd, cwd', pre, k, a + "/" + acc);
      }
    }
  }

  /** Normalising the path of a stack of plain segments gives that stack back. */
  lemma {:induction false} NormalisedIsFixpoint(stack: seq<string>)
    requires Clean(stack)
    ensures Fold([], Split("/" + Join(stack) + "/"), false) == stack
  {
    var j := Join(stack);
    assert "/" + j + "/" == "" + "/" + (j + "/" + "");
    SplitAppend("", j + "/" + "");
    SplitAppend(j, "");
    var parts := if stack == [] then [""] else stack;
    if stack != [] {
      SplitJoin(stack);
    }
    assert Split(j) == parts;
    assert Split("/" + j + "/") == [""] + parts + [""];
    FoldAppend([], [""] + parts, [""], false);
    FoldAppend([], [""], parts, false);
    if stack != [] {
      FoldOfClean([], stack);
    }
  }

  /** Resolving an already resolved path, whatever precedes it, gives it back. */
  lemma {:induction false} ResolveResolved(cwd: string, cwd': string, args: seq<string>, pre: seq<string>)
    requires IsAbsolute(cwd)
    ensures Resolve(cwd', pre + [Resolve(cwd, args)]) == Resolve(cwd, args)
  {
    var r := Resolve(cwd, args);
    ResolveIsAbsolute(cwd, args);
    var full := pre + [r];
    ResolveFromAbsolute(cwd', cwd', full, |pre|, "");
    assert full[|pre|..] == [r];
    assert Gather(cwd', full, "") == (r + "/" + "", true);
    assert r + "/" + "" == "/" + Join(Stack(cwd, args)) + "/";
    NormalisedIsFixpoint(Stack(cwd, args));
  }

  /** Resolving is left to right: `resolve(...args, rel)` is `resolve(resolve(...args), rel)`,
      which is `rel` itself (normalised) when `rel` is absolute and `base/rel` otherwise. */
  lemma {:induction false} ResolveAppend(cwd: string, args: seq<string>, rel: string)
    requires IsAbsolute(cwd)
    ensures Resolve(cwd, args + [rel]) == Resolve(cwd, [Resolve(cwd, args), rel])
  {
    var r := Resolve(cwd, args);
    ResolveIsAbsolute(cwd, args);
    var full := args + [rel];
    assert full[..|full| - 1] == args && full[|full| - 1] == rel;
    var two := [r, rel];
    assert two[..1] == [r] && two[1] == rel;
    if rel == "" {
      assert Gather(cwd, full, "") == Gather(cwd, args, "");
      assert Gather(cwd, two, "") == Gather(cwd, [r], "");
      ResolveResolved(cwd, cwd, args, []);
      assert [] + [r] == [r];
    } else if IsAbsolute(rel) {
      ResolveFromAbsolute(cwd, cwd, full, |args|, "");
      ResolveFromAbsolute(cwd, cwd, two, 1, "");
      assert full[|args|..] == [rel] == two[1..];
    } else {
      ResolveAppendRelative(cwd, args, rel);
    }
  }

  /** A trailing slash adds only an empty segment, which normalisation drops. */
  lemma {:induction false} TrailingSlash(x: string)
    ensures Fold([], Split(x + "/"), false) == Fold([], Split(x), false)
  {
    assert x + "/" == x + "/" + "";
    SplitAppend(x, "");
    FoldAppend([], Split(x), [""], false);
  }

  /** Normalising `x/rel/` is normalising `rel` from the stack of `x`. */
  lemma {:induction false} SlashEnd(x: string, rel: string)
    ensures Fold([], Split(x + "/" + (rel + "/" + "")), false) ==
            Fold(Fold([], Split(x), false), Split(rel), false)
  {
    SplitAppend(x, rel + "/" + "");
    SplitAppend(rel, "");
    assert Split(x + "/" + (rel + "/" + "")) == (Split(x) + Split(rel)) + [""];
    FoldAppend([], Split(x) + Split(rel), [""], false);
    FoldAppend([], Split(x), Split(rel), false);
  }

  /** The case of `ResolveAppend` where the last argument is a non-empty relative path. */
  lemma {:induction false} ResolveAppendRelative(cwd: string, args: seq<string>, rel: string)
    requires IsAbsolute(cwd) && rel != "" && !IsAbsolute(rel)
    ensures Resolve(cwd, args + [rel]) == Resolve(cwd, [Resolve(cwd, args), rel])
  {
    var r := Resolve(cwd, args);
    ResolveIsAbsolute(cwd, args);
    GatherAbsolute(cwd, args);
    var x :| Gather(cwd, args, "").0 == x + "/" && IsAbsolute(x);
    var full := args + [rel];
    assert full[..|full| - 1] == args && full[|full| - 1] == rel;
    assert Gather(cwd, full, "") == Gather(cwd, args, rel + "/" + "");
    GatherAppends(cwd, args, rel + "/" + "");
    assert Gather(cwd, full, "") == (x + "/" + (rel + "/" + ""), true);
    var two := [r, rel];
    assert two[..1] == [r] && two[1] == rel;
    assert Gather(cwd, two, "") == (r + "/" + (rel + "/" + ""), true);
    var s := Stack(cwd, args);
    SlashEnd(x, rel);
    SlashEnd(r, rel);
    TrailingSlash(x);
    assert s == Fold([], Split(x), false);
    TrailingSlash(r);
    assert r + "/" == "/" + Join(s) + "/";
    NormalisedIsFixpoint(s);
  }

  /** The target of lines 70-71: `jsonUri = path.resolve(root, name)`, then
      `path.resolve(fileName, '../', name.includes('../') ? name : jsonUri)`. */
  function TargetPath(cwd: string, root: string, fileName: string, name: string): string {
    var jsonUri := Resolve(cwd, [root, name]);
    Resolve(cwd, [fileName, "../", if Contains(name, "../") then name else jsonUri])
  }

  /** The double resolution collapses to one rule: a name containing `../` is resolved against
      the document's directory, any other name against the first workspace root; the result
      is always absolute. */
  lemma {:induction false} TargetChoice(cwd: string, root: string, fileName: string, name: string)
    requires IsAbsolute(cwd)
    ensures IsAbsolute(TargetPath(cwd, root, fileName, name))
    ensures !Contains(name, "../") ==> TargetPath(cwd, root, fileName, name) == Resolve(cwd, [root, name])
    ensures Contains(name, "../") ==>
              TargetPath(cwd, root, fileName, name) == Resolve(cwd, [Resolve(cwd, [fileName, "../"]), name])
  {
    var t := TargetPath(cwd, root, fileName, name);
    if Contains(name, "../") {
      ResolveAppend(cwd, [fileName, "../"], name);
      assert [fileName, "../"] + [name] == [fileName, "../", name];
      ResolveIsAbsolute(cwd, [fileName, "../", name]);
    } else {
      ResolveResolved(cwd, cwd, [root, name], [fileName, "../"]);
      assert [fileName, "../"] + [Resolve(cwd, [root, name])] ==
             [fileName, "../", Resolve(cwd, [root, name])];
      ResolveIsAbsolute(cwd, [root, name]);
    }
  }

  /** Without `../` in the name, the document's own path plays no part. */
  lemma {:induction false} TargetIgnoresDocument(cwd: string, root: string, f: string, g: string, name: string)
    requires IsAbsolute(cwd) && !Contains(name, "../")
    ensures TargetPath(cwd, root, f, name) == TargetPath(cwd, root, g, name)
  {
    TargetChoice(cwd, root, f, name);
    TargetChoice(cwd, root, g, name);
  }
}
