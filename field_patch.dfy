/** The textual patch of the target JSON file: the guard of src/extension.js:92 and the global
    replacement of src/extension.js:96. Every value span that starts right after `"evalFunc":"`
    (or `"evalFunc": "`) and runs to the next `"` on the same line is replaced; every other
    character of the file is kept. */
module FieldPatch {
  import opened RegexText

  const Key: string := "\"evalFunc\":"
  /** The two texts that `"evalFunc":( ?)"` matches. */
  const ValueOpener: string := "\"evalFunc\":\""
  const SpacedValueOpener: string := "\"evalFunc\": \""

  /** If `"evalFunc":( ?)"` matches at index `i`, the index just after its last `"`. */
  function ValueStart(s: string, i: nat): (r: Option<nat>)
    ensures r.Some? ==> i + 12 <= r.value <= |s| && s[r.value - 1] == '"'
    ensures r.Some? ==> (r.value == i + 12 && OccursAt(s, ValueOpener, i)) ||
                        (r.value == i + 13 && OccursAt(s, SpacedValueOpener, i))
  {
    if OccursAt(s, SpacedValueOpener, i) then Some(i + 13)
    else if OccursAt(s, ValueOpener, i) then Some(i + 12)
    else None
  }

  /** `/"evalFunc":( ?)".*?"/` matches starting at index `i`. */
  predicate FieldAt(s: string, i: nat) {
    ValueStart(s, i).Some? && FirstStop(s, ValueStart(s, i).value, '"').Some?
  }

  /** The guard of line 92 (a fresh literal, so `test` searches the whole text). */
  predicate HasField(s: string) {
    exists i: nat | i < |s| :: FieldAt(s, i)
  }

  /** The lookbehind `(?<="evalFunc":( ?)\")` holds at position `p`. */
  predicate OpensValue(s: string, p: nat) {
    (p >= 12 && OccursAt(s, ValueOpener, p - 12)) ||
    (p >= 13 && OccursAt(s, SpacedValueOpener, p - 13))
  }

  /** Where the match of `(?<="evalFunc":( ?)\").*?(?=\")` starting at `p` ends, if there is one. */
  function SpanAt(s: string, p: nat): (r: Option<nat>)
    requires p <= |s|
    ensures r.Some? ==> OpensValue(s, p) && p <= r.value < |s| && s[r.value] == '"'
  {
    if OpensValue(s, p) then FirstStop(s, p, '"') else None
  }

  /** The text of the capture group `( ?)` for a match at `p`. */
  function Capture(s: string, p: nat): string {
    if p >= 13 && OccursAt(s, SpacedValueOpener, p - 13) then " " else ""
  }

  /** The expansion `String.prototype.replace` applies to a replacement string (the
      GetSubstitution operation of the ECMAScript specification), for a pattern with one
      capture group and no named groups: `$$` is `$`, `$&` the match, `` $` `` the text
      before it, `$'` the text after it, `$1` and `$01` the capture; any other `$` stays. */
  function Substitute(t: string, matched: string, before: string, after: string, cap: string): string
    decreases |t|
  {
    if t == [] then []
    else
      var (piece, used) := Token(t, matched, before, after, cap);
      piece + Substitute(t[used..], matched, before, after, cap)
  }

  /** The expansion of the first token of `t` and how many characters it spans. */
  function Token(t: string, matched: string, before: string, after: string, cap: string): (r: (string, nat))
    requires t != []
    ensures 1 <= r.1 <= |t|
  {
    if t[0] != '$' || |t| == 1 then ([t[0]], 1)
    else if t[1] == '$' then ("$", 2)
    else if t[1] == '&' then (matched, 2)
    else if t[1] == '`' then (before, 2)
    else if t[1] == '\'' then (after, 2)
    else if |t| >= 3 && t[1] == '0' && t[2] == '1' then (cap, 3)
    else if t[1] == '1' then (cap, 2)
    else ("$", 1)
  }

  /** The text put in place of the span `s[p..q]`. */
  type Replacer = (nat, nat) -> string

  /** The payload as it stands, whatever the span. */
  function Verbatim(d: string): Replacer {
    (p: nat, q: nat) => d
  }

  /** The payload expanded for the span `s[p..q]`, as `String.prototype.replace` does. */
  function Expanded(s: string, d: string): Replacer {
    (p: nat, q: nat) => if p <= q <= |s| then Substitute(d, s[p..q], s[..p], s[q..], Capture(s, p)) else d
  }

  /** The global replacement from search position `p` on: after a match ending at `q` the
      search resumes at `q`, after an empty match one character further. */
  function RewriteFrom(s: string, rep: Replacer, p: nat): string
    requires p <= |s|
    decreases |s| - p
  {
    if p == |s| then []
    else match SpanAt(s, p)
      case Some(q) =>
        if q == p then rep(p, q) + [s[p]] + RewriteFrom(s, rep, p + 1)
        else rep(p, q) + RewriteFrom(s, rep, q)
      case None => [s[p]] + RewriteFrom(s, rep, p + 1)
  }

  /** Line 96 as written: `jsonData.replace(regex, data)` with a string `data`. */
  function ReplaceAsWritten(s: string, d: string): string {
    RewriteFrom(s, Expanded(s, d), 0)
  }

  /** The splice line 96 is meant to perform: each value span becomes the payload itself. */
  function Patch(s: string, d: string): string {
    RewriteFrom(s, Verbatim(d), 0)
  }

  // ---------------------------------------------------------------------------------------
  // Where values open

  /** Both openers end with a double quote. */
  lemma {:induction false} OpensValueAfterQuote(s: string, p: nat)
    requires OpensValue(s, p)
    ensures 0 < p <= |s| && s[p - 1] == '"'
  {
    if p >= 12 && OccursAt(s, ValueOpener, p - 12) {
      SliceAt(s, p - 12, p, 11);
    } else {
      SliceAt(s, p - 13, p, 12);
    }
  }

  /** A value opens at `p` exactly when some `"evalFunc":( ?)"` ends at `p`. */
  lemma {:induction false} OpensValueIff(s: string, p: nat)
    ensures OpensValue(s, p) ==> exists i: nat :: i < p && ValueStart(s, i) == Some(p)
    ensures forall i: nat :: ValueStart(s, i) == Some(p) ==> OpensValue(s, p)
  {
    if p >= 12 && OccursAt(s, ValueOpener, p - 12) {
      if OccursAt(s, SpacedValueOpener, p - 12) {
        SliceAt(s, p - 12, p, 11);
        SliceAt(s, p - 12, p + 1, 11);
        assert false;
      }
      assert ValueStart(s, p - 12) == Some(p);
    } else if p >= 13 && OccursAt(s, SpacedValueOpener, p - 13) {
      assert ValueStart(s, p - 13) == Some(p);
    }
  }

  /** The guard of line 92 holds exactly when the replacement of line 96 has a span to replace. */
  lemma {:induction false} HasFieldIffSpan(s: string)
    ensures HasField(s) <==> exists p: nat :: p <= |s| && SpanAt(s, p).Some?
  {
    if HasField(s) {
      var i: nat :| i < |s| && FieldAt(s, i);
      var p := ValueStart(s, i).value;
      OpensValueIff(s, p);
      assert SpanAt(s, p).Some?;
    }
    if exists p: nat :: p <= |s| && SpanAt(s, p).Some? {
      var p: nat :| p <= |s| && SpanAt(s, p).Some?;
      OpensValueIff(s, p);
      var i: nat :| i < p && ValueStart(s, i) == Some(p);
      assert FieldAt(s, i);
    }
  }

  /** No value opens strictly inside a span or right at its closing quote. */
  lemma {:induction false} NoSpanInside(s: string, p: nat, q: nat, x: nat)
    requires p <= |s| && SpanAt(s, p) == Some(q)
    requires p < x <= q
    ensures !OpensValue(s, x)
  {
    if OpensValue(s, x) {
      OpensValueAfterQuote(s, x);
      assert false;
    }
  }

  /** Where no span starts the rewrite copies one character and moves on. */
  lemma {:induction false} RewriteCopies(s: string, rep: Replacer, p: nat)
    requires p < |s| && SpanAt(s, p).None?
    ensures RewriteFrom(s, rep, p) == [s[p]] + RewriteFrom(s, rep, p + 1)
  {
  }

  /** A span starting at `p` and ending at `q` is replaced, and the search resumes at `q`
      (one further for an empty span, after copying the closing quote). */
  lemma {:induction false} RewriteReplaces(s: string, rep: Replacer, p: nat, q: nat)
    requires p < |s| && SpanAt(s, p) == Some(q)
    ensures q == p ==> RewriteFrom(s, rep, p) == rep(p, q) + [s[p]] + RewriteFrom(s, rep, p + 1)
    ensures q > p ==> RewriteFrom(s, rep, p) == rep(p, q) + RewriteFrom(s, rep, q)
  {
  }

  /** Where no value opens, the rewrite copies the text unchanged. */
  lemma {:induction false} CopyThrough(s: string, rep: Replacer, a: nat, b: nat)
    requires a <= b <= |s|
    requires forall x: nat :: a <= x < b ==> SpanAt(s, x).None?
    ensures RewriteFrom(s, rep, a) == s[a..b] + RewriteFrom(s, rep, b)
    decreases b - a
  {
    if a < b {
      CopyThrough(s, rep, a + 1, b);
      CopyOne(s, rep, a, b);
    }
  }

  /** One more copied character in front of a copied stretch. */
  lemma {:induction false} CopyOne(s: string, rep: Replacer, a: nat, b: nat)
    requires a < b <= |s| && SpanAt(s, a).None?
    requires RewriteFrom(s, rep, a + 1) == s[a + 1..b] + RewriteFrom(s, rep, b)
    ensures RewriteFrom(s, rep, a) == s[a..b] + RewriteFrom(s, rep, b)
  {
    RewriteCopies(s, rep, a);
    assert s[a..b] == [s[a]] + s[a + 1..b];
    Assoc([s[a]], s[a + 1..b], RewriteFrom(s, rep, b));
  }

  // ---------------------------------------------------------------------------------------
  // No field: nothing changes

  /** A text the guard rejects is left as it is by the rewrite, whatever the replacement. */
  lemma {:induction false} NoFieldNoChange(s: string, rep: Replacer)
    requires !HasField(s)
    ensures RewriteFrom(s, rep, 0) == s
  {
    HasFieldIffSpan(s);
    CopyThrough(s, rep, 0, |s|);
  }

  // ---------------------------------------------------------------------------------------
  // A file with a single field

  /** `"evalFunc":` occurs in `s` only at index `k`. */
  predicate OnlyKeyAt(s: string, k: nat) {
    forall i: nat | i < |s| :: OccursAt(s, Key, i) ==> i == k
  }

  /** Every opener, spaced or not, starts with the key. */
  lemma {:induction false} OpenerHasKey(s: string, i: nat)
    ensures OccursAt(s, ValueOpener, i) ==> OccursAt(s, Key, i)
    ensures OccursAt(s, SpacedValueOpener, i) ==> OccursAt(s, Key, i)
  {
    if OccursAt(s, ValueOpener, i) {
      assert s[i..i + 11] == s[i..i + 12][..11];
    }
    if OccursAt(s, SpacedValueOpener, i) {
      assert s[i..i + 11] == s[i..i + 13][..11];
    }
  }

  /** In a file holding one field, `pre` + opener + `prev` + `"` + `post`, the value opens
      at one place only. */
  lemma {:induction false} SingleOpening(pre: string, opener: string, prev: string, post: string, x: nat)
    requires opener == ValueOpener || opener == SpacedValueOpener
    requires OnlyKeyAt(pre + opener + prev + "\"" + post, |pre|)
    ensures OpensValue(pre + opener + prev + "\"" + post, x) <==> x == |pre| + |opener|
  {
    var s := pre + opener + prev + "\"" + post;
    var rest := prev + "\"" + post;
    assert s == pre + opener + rest;
    MiddleAt(pre, opener, rest, |pre|);
    assert OccursAt(s, opener, |pre|);
    OpensOnlyAfterKey(s, |pre|, opener, x);
  }

  /** The two openers part at their twelfth character. */
  lemma {:induction false} OpenerChars()
    ensures |ValueOpener| == 12 && ValueOpener[11] == '"' && ValueOpener[10] == ':'
    ensures |SpacedValueOpener| == 13 && SpacedValueOpener[11] == ' ' && SpacedValueOpener[12] == '"'
  {
  }

  /** Where the only key of a text starts a value opener, values open right after it and
      nowhere else. */
  lemma {:induction false} OpensOnlyAfterKey(s: string, k: nat, opener: string, x: nat)
    requires opener == ValueOpener || opener == SpacedValueOpener
    requires OccursAt(s, opener, k) && OnlyKeyAt(s, k)
    ensures OpensValue(s, x) <==> x == k + |opener|
  {
    if OpensValue(s, x) {
      if x >= 12 && OccursAt(s, ValueOpener, x - 12) {
        OpenerHasKey(s, x - 12);
        assert x - 12 == k;
        if opener == SpacedValueOpener {
          OpenerChars();
          SliceAt(s, k, k + 13, 11);
          SliceAt(s, x - 12, x, 11);
          assert false;
        }
      } else {
        OpenerHasKey(s, x - 13);
        assert x - 13 == k;
        if opener == ValueOpener {
          OpenerChars();
          SliceAt(s, k, k + 12, 11);
          SliceAt(s, x - 13, x, 11);
          assert false;
        }
      }
    }
  }

  /** A single-field file has exactly one span: the old value. */
  lemma {:induction false} SingleSpan(pre: string, opener: string, prev: string, post: string)
    requires opener == ValueOpener || opener == SpacedValueOpener
    requires '"' !in prev && forall c :: c in prev ==> !IsLineTerminator(c)
    requires OnlyKeyAt(pre + opener + prev + "\"" + post, |pre|)
    ensures var s := pre + opener + prev + "\"" + post;
            SpanAt(s, |pre| + |opener|) == Some(|pre| + |opener| + |prev|) &&
            forall x: nat :: x <= |s| && x != |pre| + |opener| ==> SpanAt(s, x).None?
  {
    var s := pre + opener + prev + "\"" + post;
    var e := |pre| + |opener|;
    forall x: nat | x <= |s| && x != e ensures SpanAt(s, x).None? { SingleOpening(pre, opener, prev, post, x); }
    SingleOpening(pre, opener, prev, post, e);
    assert s == (pre + opener) + prev + ['"'] + post;
    StopAfterPlain(pre + opener, prev, '"', post);
  }

  /** The single-field rewrite: only the value between the quotes changes; what precedes and
      what follows it is kept byte for byte. */
  lemma {:induction false} SingleFieldRewrite(pre: string, opener: string, prev: string, post: string, rep: Replacer)
    requires opener == ValueOpener || opener == SpacedValueOpener
    requires '"' !in prev && forall c :: c in prev ==> !IsLineTerminator(c)
    requires OnlyKeyAt(pre + opener + prev + "\"" + post, |pre|)
    ensures var s := pre + opener + prev + "\"" + post;
            var e := |pre| + |opener|;
            RewriteFrom(s, rep, 0) == pre + opener + rep(e, e + |prev|) + "\"" + post
  {
    var s := pre + opener + prev + "\"" + post;
    var e := |pre| + |opener|;
    var q := e + |prev|;
    SingleSpan(pre, opener, prev, post);
    OneSpanRewrite(s, rep, e, q);
    assert s[..e] == pre + opener;
    assert s[q..] == "\"" + post;
  }

  /** A text with a single span is rewritten around that span only. */
  lemma {:induction false} OneSpanRewrite(s: string, rep: Replacer, e: nat, q: nat)
    requires e <= q < |s| && SpanAt(s, e) == Some(q)
    requires forall x: nat :: x <= |s| && x != e ==> SpanAt(s, x).None?
    ensures RewriteFrom(s, rep, 0) == s[..e] + rep(e, q) + s[q..]
  {
    CopyThrough(s, rep, 0, e);
    assert RewriteFrom(s, rep, |s|) == [];
    RewriteReplaces(s, rep, e, q);
    if q == e {
      CopyThrough(s, rep, e + 1, |s|);
      Regroup(s, e, e + 1, rep(e, q), true);
    } else {
      CopyThrough(s, rep, q, |s|);
      Regroup(s, e, q, rep(e, q), false);
    }
  }

  /** Gluing the pieces of a text rewritten around one span; `copied` says whether the
      closing quote was copied right after an empty span. */
  lemma {:induction false} Regroup(s: string, e: nat, k: nat, r: string, copied: bool)
    requires e <= k <= |s| && (copied ==> k == e + 1)
    ensures s[0..e] + ((if copied then r + [s[e]] else r) + (s[k..|s|] + [])) ==
            s[..e] + r + s[if copied then e else k..]
  {
    if copied {
      assert [s[e]] + s[k..] == s[e..];
    }
  }

  /** Line 96 in the form it is meant to have, on a single-field file. */
  lemma {:induction false} PatchSingleField(pre: string, opener: string, prev: string, post: string, d: string)
    requires opener == ValueOpener || opener == SpacedValueOpener
    requires '"' !in prev && forall c :: c in prev ==> !IsLineTerminator(c)
    requires OnlyKeyAt(pre + opener + prev + "\"" + post, |pre|)
    ensures Patch(pre + opener + prev + "\"" + post, d) == pre + opener + d + "\"" + post
  {
    SingleFieldRewrite(pre, opener, prev, post, Verbatim(d));
  }

  // ---------------------------------------------------------------------------------------
  // Idempotence on a single-field file

  /** The characters of the key. */
  lemma {:induction false} KeyChars()
    ensures |Key| == 11 && Key[0] == '"' && Key[9] == '"' && Key[10] == ':' && Key[8] == 'c'
    ensures forall m :: 0 <= m < 11 && Key[m] == '"' ==> m == 0 || m == 9
    ensures Key[1..9] == "evalFunc"
  {
  }

  /** Putting a payload free of `"` between the quotes of the only field creates no second
      key, unless the payload is `evalFunc` itself. */
  lemma {:induction false} PatchedKeepsOnlyKey(pre: string, opener: string, prev: string, post: string, d: string)
    requires opener == ValueOpener || opener == SpacedValueOpener
    requires OnlyKeyAt(pre + opener + prev + "\"" + post, |pre|)
    requires '"' !in d && d != "evalFunc"
    ensures OnlyKeyAt(pre + opener + d + "\"" + post, |pre|)
  {
    var a := pre + opener;
    var b := "\"" + post;
    var s := a + prev + b;
    var t := a + d + b;
    Regroup5(pre, opener, prev, "\"", post);
    Regroup5(pre, opener, d, "\"", post);
    OpenerTail(pre, opener);
    forall k: nat | k < |t| && OccursAt(t, Key, k) ensures k == |pre| {
      KeyFromOld(a, prev, d, b, k);
    }
  }

  /** A key in the patched text is a key of the old text: the same one if it lies in front of
      the value, one shifted by the change in length if it lies behind. */
  lemma {:induction false} KeyFromOld(a: string, prev: string, d: string, b: string, k: nat)
    requires |a| >= 2 && a[|a| - 1] == '"' && a[|a| - 2] != 'c'
    requires '"' !in d && d != "evalFunc"
    requires |b| > 0 && b[0] == '"'
    requires OccursAt(a + d + b, Key, k)
    ensures OccursAt(a + prev + b, Key, if k + 11 <= |a| then k else k - |d| + |prev|)
    ensures k + 11 > |a| ==> k - |d| + |prev| >= |a|
  {
    var t := a + d + b;
    if k + 11 <= |a| {
      SharedPrefix(a, d, b, prev, k, 11);
    } else if k >= |a| + |d| {
      SharedSuffix(a + d, a + prev, b, k, 11);
    } else if k >= |a| {
      MiddleAt(a, d, b, k);
      SliceAt(t, k, k + 11, 0);
      assert false;
    } else {
      KeyNotAcross(a, d, b, k);
      assert false;
    }
  }

  /** A text that ends in a value opener ends in `"` and, before it, not in `c`. */
  lemma {:induction false} OpenerTail(pre: string, opener: string)
    requires opener == ValueOpener || opener == SpacedValueOpener
    ensures |pre + opener| >= 2 && (pre + opener)[|pre + opener| - 1] == '"'
    ensures (pre + opener)[|pre + opener| - 2] != 'c'
  {
    OpenerChars();
    assert (pre + opener)[|pre + opener| - 1] == opener[|opener| - 1];
    assert (pre + opener)[|pre + opener| - 2] == opener[|opener| - 2];
  }

  /** Two texts that share their front agree on a slice inside it. */
  lemma {:induction false} SharedPrefix(a: string, x: string, b: string, y: string, k: nat, n: nat)
    requires k + n <= |a|
    ensures (a + x + b)[k..k + n] == (a + y + b)[k..k + n]
  {
    assert (a + x + b)[k..k + n] == a[k..k + n];
    assert (a + y + b)[k..k + n] == a[k..k + n];
  }

  /** Two texts that share their end agree on a slice inside it, shifted by the difference
      in length of what precedes it. */
  lemma {:induction false} SharedSuffix(x: string, y: string, b: string, k: nat, n: nat)
    requires |x| <= k && k + n <= |x| + |b|
    ensures (x + b)[k..k + n] == (y + b)[k - |x| + |y|..k - |x| + |y| + n]
  {
    assert (x + b)[k..k + n] == b[k - |x|..k - |x| + n];
    assert (y + b)[k - |x| + |y|..k - |x| + |y| + n] == b[k - |x|..k - |x| + n];
  }

  /** The key cannot start in front of a value opener's closing quote and run on into a
      payload free of `"`. */
  lemma {:induction false} KeyNotAcross(a: string, d: string, b: string, k: nat)
    requires |a| >= 2 && a[|a| - 1] == '"' && a[|a| - 2] != 'c'
    requires '"' !in d && d != "evalFunc"
    requires |b| > 0 && b[0] == '"'
    requires k < |a| < k + 11
    ensures !OccursAt(a + d + b, Key, k)
  {
    var t := a + d + b;
    if OccursAt(t, Key, k) {
      KeyChars();
      var m := |a| - 1 - k;
      SliceAt(t, k, k + 11, m);
      if m == 9 {
        SliceAt(t, k, k + 11, 8);
        assert false;
      } else if m != 0 {
        assert false;
      } else if |d| > 8 {
        MiddleAt(a, d, b, |a| + 8);
        SliceAt(t, k, k + 11, 9);
        assert false;
      } else if |d| == 8 {
        MiddleAt(a, d, b, 0);
        SliceOfSlice(t, k, k + 11, 1, 9);
        assert false;
      } else {
        SliceAt(t, k, k + 11, 1 + |d|);
        assert false;
      }
    }
  }

  /** Patching a single-field file twice with the same payload is patching it once, and the
      guard of line 92 still accepts the result, if the payload is free of `"` and of line
      terminators (and is not the text `evalFunc`). */
  lemma {:induction false} PatchIdempotent(pre: string, opener: string, prev: string, post: string, d: string)
    requires opener == ValueOpener || opener == SpacedValueOpener
    requires '"' !in prev && forall c :: c in prev ==> !IsLineTerminator(c)
    requires OnlyKeyAt(pre + opener + prev + "\"" + post, |pre|)
    requires '"' !in d && (forall c :: c in d ==> !IsLineTerminator(c)) && d != "evalFunc"
    ensures Patch(Patch(pre + opener + prev + "\"" + post, d), d) == Patch(pre + opener + prev + "\"" + post, d)
    ensures HasField(Patch(pre + opener + prev + "\"" + post, d))
  {
    PatchSingleField(pre, opener, prev, post, d);
    PatchedKeepsOnlyKey(pre, opener, prev, post, d);
    PatchSingleField(pre, opener, d, post, d);
    var t := pre + opener + d + "\"" + post;
    var e := |pre| + |opener|;
    SingleOpening(pre, opener, d, post, e);
    assert t == (pre + opener) + d + ['"'] + post;
    StopAfterPlain(pre + opener, d, '"', post);
    HasFieldIffSpan(t);
    assert SpanAt(t, e).Some?;
  }

  // ---------------------------------------------------------------------------------------
  // Every span, in order

  /** All spans `(p, q)` whose match starts at `p` or later, in order of their start. */
  function AllSpansFrom(s: string, p: nat): seq<(nat, nat)>
    requires p <= |s|
    decreases |s| - p
  {
    var rest := if p == |s| then [] else AllSpansFrom(s, p + 1);
    match SpanAt(s, p)
    case Some(q) => [(p, q)] + rest
    case None => rest
  }

  /** A span list in order, starting at `from` or later, each span ending before the next starts. */
  predicate Ordered(s: string, spans: seq<(nat, nat)>, from: nat)
    decreases |spans|
  {
    spans == [] || (from <= spans[0].0 <= spans[0].1 <= |s| && Ordered(s, spans[1..], spans[0].1))
  }

  /** Text with each span of an ordered list replaced by `d`, the gaps copied. */
  function SpliceSpans(s: string, spans: seq<(nat, nat)>, d: string, from: nat): string
    requires from <= |s| && Ordered(s, spans, from)
    decreases |spans|
  {
    if spans == [] then s[from..]
    else s[from..spans[0].0] + d + SpliceSpans(s, spans[1..], d, spans[0].1)
  }

  /** The list holds exactly the spans of the text. */
  lemma {:induction false} AllSpansFromExact(s: string, p: nat, a: nat, b: nat)
    requires p <= |s|
    ensures (a, b) in AllSpansFrom(s, p) <==> p <= a <= |s| && SpanAt(s, a) == Some(b)
    decreases |s| - p
  {
    if p < |s| {
      AllSpansFromExact(s, p + 1, a, b);
    }
  }

  /** Where no value opens, no span starts. */
  lemma {:induction false} AllSpansSkip(s: string, a: nat, b: nat)
    requires a <= b <= |s|
    requires forall x: nat :: a <= x < b ==> SpanAt(s, x).None?
    ensures AllSpansFrom(s, a) == AllSpansFrom(s, b)
    decreases b - a
  {
    if a < b {
      AllSpansSkip(s, a + 1, b);
    }
  }

  /** The spans of a text are ordered and do not overlap. */
  lemma {:induction false} AllSpansOrdered(s: string, p: nat, from: nat)
    requires from <= p <= |s|
    ensures Ordered(s, AllSpansFrom(s, p), from)
    decreases |s| - p, 1
  {
    if p == |s| {
      AllSpansEnd(s);
    } else if SpanAt(s, p).None? {
      AllSpansOrdered(s, p + 1, from);
      AllSpansNone(s, p);
    } else {
      SpanOrdered(s, p, SpanAt(s, p).value, from);
    }
  }

  /** The step of `AllSpansOrdered` where the span `s[p..q]` starts at `p`. */
  lemma {:induction false} SpanOrdered(s: string, p: nat, q: nat, from: nat)
    requires from <= p < |s| && SpanAt(s, p) == Some(q)
    ensures Ordered(s, AllSpansFrom(s, p), from)
    decreases |s| - p, 0
  {
    AllSpansOrdered(s, q + 1, q);
    OrderedAfterSpan(s, p, q, from);
  }

  /** No span starts at the end of the text. */
  lemma {:induction false} AllSpansEnd(s: string)
    ensures AllSpansFrom(s, |s|) == []
  {
    assert SpanAt(s, |s|).None?;
  }

  /** A span at `p` followed by the ordered spans after it. */
  lemma {:induction false} OrderedAfterSpan(s: string, p: nat, q: nat, from: nat)
    requires from <= p < |s| && SpanAt(s, p) == Some(q)
    requires Ordered(s, AllSpansFrom(s, q + 1), q)
    ensures Ordered(s, AllSpansFrom(s, p), from)
  {
    var rest := AllSpansFrom(s, q + 1);
    SkipSpan(s, p, q);
    AllSpansCons(s, p, q);
    assert AllSpansFrom(s, p) == [(p, q)] + rest;
    OrderedCons(s, p, q, rest, from);
  }

  /** No span starts inside a span or at its closing quote. */
  lemma {:induction false} SkipSpan(s: string, p: nat, q: nat)
    requires p <= |s| && SpanAt(s, p) == Some(q)
    ensures q + 1 <= |s| && AllSpansFrom(s, p + 1) == AllSpansFrom(s, q + 1)
  {
    forall x: nat | p + 1 <= x < q + 1 ensures SpanAt(s, x).None? {
      NoSpanInside(s, p, q, x);
    }
    AllSpansSkip(s, p + 1, q + 1);
  }

  /** An ordered list stays ordered behind a span that ends where it may start. */
  lemma {:induction false} OrderedCons(s: string, p: nat, q: nat, rest: seq<(nat, nat)>, from: nat)
    requires from <= p <= q <= |s| && Ordered(s, rest, q)
    ensures Ordered(s, [(p, q)] + rest, from)
  {
    assert ([(p, q)] + rest)[1..] == rest;
  }

  /** Copying one more character in front of a splice. */
  lemma {:induction false} SpliceShift(s: string, spans: seq<(nat, nat)>, d: string, from: nat)
    requires from < |s| && Ordered(s, spans, from + 1)
    ensures Ordered(s, spans, from)
    ensures SpliceSpans(s, spans, d, from) == [s[from]] + SpliceSpans(s, spans, d, from + 1)
  {
    if spans != [] {
      var rest := SpliceSpans(s, spans[1..], d, spans[0].1);
      assert SpliceSpans(s, spans, d, from + 1) == s[from + 1..spans[0].0] + d + rest;
      assert s[from..spans[0].0] == [s[from]] + s[from + 1..spans[0].0];
    } else {
      assert s[from..] == [s[from]] + s[from + 1..];
    }
  }

  /** The rewrite from `p` with the payload as it stands is the splice of all spans from `p`. */
  lemma {:induction false} RewriteIsSplice(s: string, d: string, p: nat)
    requires p <= |s|
    ensures Ordered(s, AllSpansFrom(s, p), p)
    ensures RewriteFrom(s, Verbatim(d), p) == SpliceSpans(s, AllSpansFrom(s, p), d, p)
    decreases |s| - p
  {
    AllSpansOrdered(s, p, p);
    if p < |s| {
      RewriteIsSplice(s, d, p + 1);
      var sp := SpanAt(s, p);
      if sp.None? {
        SpliceCopy(s, d, p);
      } else if sp.value == p {
        SpliceEmpty(s, d, p);
      } else {
        var q := sp.value;
        forall x: nat | p + 1 <= x < q ensures !OpensValue(s, x) { NoSpanInside(s, p, q, x); }
        AllSpansSkip(s, p + 1, q);
        RewriteIsSplice(s, d, q);
        SpliceSpan(s, d, p, q);
      }
    } else {
      assert SpanAt(s, p).None?;
      assert AllSpansFrom(s, p) == [];
      assert RewriteFrom(s, Verbatim(d), p) == [] == s[p..];
    }
  }

  /** The step of `RewriteIsSplice` where no span starts at `p`. */
  lemma {:induction false} SpliceCopy(s: string, d: string, p: nat)
    requires p < |s| && SpanAt(s, p).None?
    requires Ordered(s, AllSpansFrom(s, p + 1), p + 1)
    requires RewriteFrom(s, Verbatim(d), p + 1) == SpliceSpans(s, AllSpansFrom(s, p + 1), d, p + 1)
    ensures Ordered(s, AllSpansFrom(s, p), p)
    ensures RewriteFrom(s, Verbatim(d), p) == SpliceSpans(s, AllSpansFrom(s, p), d, p)
  {
    var rest := AllSpansFrom(s, p + 1);
    RewriteCopies(s, Verbatim(d), p);
    SpliceShift(s, rest, d, p);
    assert AllSpansFrom(s, p) == rest;
  }

  /** The step of `RewriteIsSplice` where an empty span starts at `p`. */
  lemma {:induction false} SpliceEmpty(s: string, d: string, p: nat)
    requires p < |s| && SpanAt(s, p) == Some(p)
    requires Ordered(s, AllSpansFrom(s, p + 1), p + 1)
    requires RewriteFrom(s, Verbatim(d), p + 1) == SpliceSpans(s, AllSpansFrom(s, p + 1), d, p + 1)
    ensures Ordered(s, AllSpansFrom(s, p), p)
    ensures RewriteFrom(s, Verbatim(d), p) == SpliceSpans(s, AllSpansFrom(s, p), d, p)
  {
    var rest := AllSpansFrom(s, p + 1);
    AllSpansCons(s, p, p);
    SpliceShift(s, rest, d, p);
    SpliceCons(s, p, p, rest, d);
    calc {
      RewriteFrom(s, Verbatim(d), p);
      { RewriteReplaces(s, Verbatim(d), p, p); }
      d + [s[p]] + RewriteFrom(s, Verbatim(d), p + 1);
      d + ([s[p]] + SpliceSpans(s, rest, d, p + 1));
      d + SpliceSpans(s, rest, d, p);
      SpliceSpans(s, [(p, p)] + rest, d, p);
    }
  }

  /** The step of `RewriteIsSplice` where a non-empty span `s[p..q]` starts at `p`. */
  lemma {:induction false} SpliceSpan(s: string, d: string, p: nat, q: nat)
    requires p < q < |s| && SpanAt(s, p) == Some(q)
    requires AllSpansFrom(s, p + 1) == AllSpansFrom(s, q)
    requires Ordered(s, AllSpansFrom(s, q), q)
    requires RewriteFrom(s, Verbatim(d), q) == SpliceSpans(s, AllSpansFrom(s, q), d, q)
    ensures Ordered(s, AllSpansFrom(s, p), p)
    ensures RewriteFrom(s, Verbatim(d), p) == SpliceSpans(s, AllSpansFrom(s, p), d, p)
  {
    AllSpansCons(s, p, q);
    RewriteReplaces(s, Verbatim(d), p, q);
    SpliceCons(s, p, q, AllSpansFrom(s, q), d);
  }

  /** A span starting at `p` heads the list of spans from `p`. */
  lemma {:induction false} AllSpansCons(s: string, p: nat, q: nat)
    requires p < |s| && SpanAt(s, p) == Some(q)
    ensures AllSpansFrom(s, p) == [(p, q)] + AllSpansFrom(s, p + 1)
  {
  }

  /** Where no span starts at `p`, the list from `p` is the list from `p + 1`. */
  lemma {:induction false} AllSpansNone(s: string, p: nat)
    requires p < |s| && SpanAt(s, p).None?
    ensures AllSpansFrom(s, p) == AllSpansFrom(s, p + 1)
  {
  }

  /** Splicing a list headed by the span `(p, q)` from `p` on. */
  lemma {:induction false} SpliceCons(s: string, p: nat, q: nat, rest: seq<(nat, nat)>, d: string)
    requires p <= q <= |s| && Ordered(s, rest, q)
    ensures Ordered(s, [(p, q)] + rest, p)
    ensures SpliceSpans(s, [(p, q)] + rest, d, p) == d + SpliceSpans(s, rest, d, q)
  {
    var spans := [(p, q)] + rest;
    assert spans[0] == (p, q) && spans[1..] == rest;
    assert s[p..p] == [];
  }

  /** Line 96 as meant: every value span of the text, and nothing else, becomes the payload. */
  lemma {:induction false} PatchReplacesEverySpan(s: string, d: string)
    ensures Ordered(s, AllSpansFrom(s, 0), 0)
    ensures forall a: nat, b: nat :: (a, b) in AllSpansFrom(s, 0) <==> a <= |s| && SpanAt(s, a) == Some(b)
    ensures Patch(s, d) == SpliceSpans(s, AllSpansFrom(s, 0), d, 0)
  {
    RewriteIsSplice(s, d, 0);
    forall a: nat, b: nat ensures (a, b) in AllSpansFrom(s, 0) <==> a <= |s| && SpanAt(s, a) == Some(b) {
      AllSpansFromExact(s, 0, a, b);
    }
  }

  // ---------------------------------------------------------------------------------------
  // The replacement string as written

  /** Without `$`, the expansion leaves the replacement string as it is. */
  lemma {:induction false} SubstituteWithoutDollar(t: string, matched: string, before: string, after: string, cap: string)
    requires '$' !in t
    ensures Substitute(t, matched, before, after, cap) == t
    decreases |t|
  {
    if t != [] {
      assert '$' !in t[1..] by {
        forall k | 0 <= k < |t| - 1 ensures t[1..][k] != '$' { assert t[1..][k] == t[k + 1]; }
      }
      SubstituteWithoutDollar(t[1..], matched, before, after, cap);
      assert t == [t[0]] + t[1..];
    }
  }

  /** For payloads without `$` line 96 as written performs the intended splice. */
  lemma {:induction false} AsWrittenAgreesWithoutDollar(s: string, d: string, p: nat)
    requires p <= |s| && '$' !in d
    ensures RewriteFrom(s, Expanded(s, d), p) == RewriteFrom(s, Verbatim(d), p)
    decreases |s| - p
  {
    if p < |s| {
      match SpanAt(s, p)
      case None =>
        AsWrittenAgreesWithoutDollar(s, d, p + 1);
      case Some(q) =>
        SubstituteWithoutDollar(d, s[p..q], s[..p], s[q..], Capture(s, p));
        if q == p {
          AsWrittenAgreesWithoutDollar(s, d, p + 1);
        } else {
          AsWrittenAgreesWithoutDollar(s, d, q);
        }
    }
  }

  /** A payload containing `$&` loses its text: line 96 as written puts the old value back
      into a single-field file and leaves it unchanged, while the intended splice writes
      `$&` into the value. */
  lemma {:induction false} DollarAmpersandKeepsOldValue(pre: string, opener: string, prev: string, post: string)
    requires opener == ValueOpener || opener == SpacedValueOpener
    requires '"' !in prev && forall c :: c in prev ==> !IsLineTerminator(c)
    requires OnlyKeyAt(pre + opener + prev + "\"" + post, |pre|)
    ensures ReplaceAsWritten(pre + opener + prev + "\"" + post, "$&") == pre + opener + prev + "\"" + post
    ensures Patch(pre + opener + prev + "\"" + post, "$&") == pre + opener + "$&" + "\"" + post
  {
    AsWrittenKeepsValue(pre, opener, prev, post);
    PatchSingleField(pre, opener, prev, post, "$&");
  }

  /** Line 96 as written, given `$&`, puts the matched value back in place. */
  lemma {:induction false} AsWrittenKeepsValue(pre: string, opener: string, prev: string, post: string)
    requires opener == ValueOpener || opener == SpacedValueOpener
    requires '"' !in prev && forall c :: c in prev ==> !IsLineTerminator(c)
    requires OnlyKeyAt(pre + opener + prev + "\"" + post, |pre|)
    ensures ReplaceAsWritten(pre + opener + prev + "\"" + post, "$&") == pre + opener + prev + "\"" + post
  {
    var s := pre + opener + prev + "\"" + post;
    var e := |pre| + |opener|;
    var q := e + |prev|;
    var a, b := pre + opener, "\"" + post;
    assert s == a + prev + b;
    MiddleAt(a, prev, b, e);
    ExpandedMatched(s, e, q);
    SingleFieldRewrite(pre, opener, prev, post, Expanded(s, "$&"));
  }

  /** The payload `$&` expands to the matched span. */
  lemma {:induction false} ExpandedMatched(s: string, p: nat, q: nat)
    requires p <= q <= |s|
    ensures Expanded(s, "$&")(p, q) == s[p..q]
  {
    SubstituteMatched(s[p..q], s[..p], s[q..], Capture(s, p));
  }

  /** `$&` expands to the matched text. */
  lemma {:induction false} SubstituteMatched(matched: string, before: string, after: string, cap: string)
    ensures Substitute("$&", matched, before, after, cap) == matched
  {
    var t := "$&";
    assert Token(t, matched, before, after, cap) == (matched, 2);
    assert t[2..] == [];
    assert Substitute(t, matched, before, after, cap) == matched + Substitute([], matched, before, after, cap);
  }
}
