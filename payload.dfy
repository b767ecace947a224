/** The text handed to the compiler and the text taken from it:
    `document.getText().trim()` (src/extension.js:78) and `.replace(/\"/g, "'")` (src/extension.js:90). */
module Payload {
  import opened RegexText

  /** What `String.prototype.trim` strips: ECMAScript's WhiteSpace (tab, vertical tab, form feed,
      U+FEFF and the space separators of Unicode category Zs) and its LineTerminators. */
  predicate IsTrimmable(c: char) {
    IsLineTerminator(c) || c == '\t' || c == '\U{B}' || c == '\U{C}' || c == '\U{FEFF}' ||
    c == ' ' || c == '\U{A0}' || c == '\U{1680}' || ('\U{2000}' <= c <= '\U{200A}') ||
    c == '\U{202F}' || c == '\U{205F}' || c == '\U{3000}'
  }

  /** The first index at or after `i` that holds a character `trim` keeps. */
  function SkipLeading(s: string, i: nat): (k: nat)
    requires i <= |s|
    ensures i <= k <= |s|
    ensures forall m :: i <= m < k ==> IsTrimmable(s[m])
    ensures k < |s| ==> !IsTrimmable(s[k])
    decreases |s| - i
  {
    if i == |s| || !IsTrimmable(s[i]) then i else SkipLeading(s, i + 1)
  }

  /** The end of `s[lo..j]` once trailing trimmable characters are dropped. */
  function SkipTrailing(s: string, lo: nat, j: nat): (k: nat)
    requires lo <= j <= |s|
    ensures lo <= k <= j
    ensures forall m :: k <= m < j ==> IsTrimmable(s[m])
    ensures k > lo ==> !IsTrimmable(s[k - 1])
    decreases j - lo
  {
    if j == lo || !IsTrimmable(s[j - 1]) then j else SkipTrailing(s, lo, j - 1)
  }

  /** `s.trim()` */
  function Trim(s: string): (r: string)
    ensures exists i, j :: 0 <= i <= j <= |s| && r == s[i..j] &&
                           (forall m :: 0 <= m < i ==> IsTrimmable(s[m])) &&
                           (forall m :: j <= m < |s| ==> IsTrimmable(s[m]))
    ensures r != [] ==> !IsTrimmable(r[0]) && !IsTrimmable(r[|r| - 1])
    ensures r == [] ==> forall m :: 0 <= m < |s| ==> IsTrimmable(s[m])
  {
    var a := SkipLeading(s, 0);
    var b := SkipTrailing(s, a, |s|);
    s[a..b]
  }

  /** Trimming twice is trimming once. */
  lemma {:induction false} TrimIdempotent(s: string)
    ensures Trim(Trim(s)) == Trim(s)
  {
    var r := Trim(s);
    if r != [] {
      assert SkipLeading(r, 0) == 0;
      assert SkipTrailing(r, 0, |r|) == |r|;
      assert r[0..|r|] == r;
    }
  }

  /** `code.replace(/\"/g, "'")`: every double quote becomes a single quote. */
  function SwapQuotes(s: string): (r: string)
    ensures |r| == |s|
    ensures forall k :: 0 <= k < |s| ==> r[k] == (if s[k] == '"' then '\'' else s[k])
  {
    if s == [] then []
    else [if s[0] == '"' then '\'' else s[0]] + SwapQuotes(s[1..])
  }

  /** The substituted text holds no double quote at all. */
  lemma {:induction false} SwapQuotesRemovesQuotes(s: string)
    ensures '"' !in SwapQuotes(s)
  {
    var r := SwapQuotes(s);
    forall k | 0 <= k < |r| ensures r[k] != '"' {}
  }

  /** Text without double quotes is left alone, so the substitution is idempotent. */
  lemma {:induction false} SwapQuotesIdempotent(s: string)
    ensures '"' !in s ==> SwapQuotes(s) == s
    ensures SwapQuotes(SwapQuotes(s)) == SwapQuotes(s)
  {
    SwapQuotesRemovesQuotes(s);
    var r := SwapQuotes(s);
    assert SwapQuotes(r) == r;
  }

  /** The substitution keeps the line structure: it adds and removes no line terminator. */
  lemma {:induction false} SwapQuotesKeepsLines(s: string)
    ensures forall k :: 0 <= k < |s| ==> (IsLineTerminator(SwapQuotes(s)[k]) <==> IsLineTerminator(s[k]))
    ensures '$' in SwapQuotes(s) <==> '$' in s
    ensures (forall c :: c in s ==> !IsLineTerminator(c)) ==> forall c :: c in SwapQuotes(s) ==> !IsLineTerminator(c)
  {
    var r := SwapQuotes(s);
    if forall c :: c in s ==> !IsLineTerminator(c) {
      forall c | c in r ensures !IsLineTerminator(c) {
        var k :| 0 <= k < |r| && r[k] == c;
        assert s[k] in s;
      }
    }
    if '$' in s {
      var k :| 0 <= k < |s| && s[k] == '$';
      assert r[k] == '$';
    }
    if '$' in r {
      var k :| 0 <= k < |r| && r[k] == '$';
      assert s[k] == '$';
    }
  }
}
