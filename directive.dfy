/** The `BM_PROJECT_PATH(...)` directive on the first line of a saved document:
    the test of src/extension.js:39 and the extraction of src/extension.js:69. */
module Directive {
  import opened RegexText

  /** `BM_PROJECT_PATH(` and `BM_PROJECT_PATH (`: the two ways `BM_PROJECT_PATH( ?)\(` can match. */
  const Opener: string := "BM_PROJECT_PATH("
  const SpacedOpener: string := "BM_PROJECT_PATH ("

  /** If `BM_PROJECT_PATH( ?)\(` matches at index `i`, the index just after its `(`.
      The optional space is tried first; the two alternatives differ at `i + 15`. */
  function OpenerEnd(line: string, i: nat): (r: Option<nat>)
    ensures r.Some? ==> i + 16 <= r.value <= |line| && line[r.value - 1] == '('
    ensures r.Some? ==> (r.value == i + 16 && OccursAt(line, Opener, i)) ||
                        (r.value == i + 17 && OccursAt(line, SpacedOpener, i))
  {
    if OccursAt(line, SpacedOpener, i) then Some(i + 17)
    else if OccursAt(line, Opener, i) then Some(i + 16)
    else None
  }

  /** `/BM_PROJECT_PATH( ?)\(.*?\)/` matches starting at index `i`. */
  predicate MatchesAt(line: string, i: nat) {
    OpenerEnd(line, i).Some? && FirstStop(line, OpenerEnd(line, i).value, ')').Some?
  }

  /** The test of line 39: the expression is a fresh literal on every save, so its
      `lastIndex` starts at 0 and `test` asks whether a match exists anywhere. */
  predicate HasDirective(line: string) {
    exists i: nat | i < |line| :: MatchesAt(line, i)
  }

  /** The text strictly between the opener matched at `i` and the `)` that closes it. */
  function Between(line: string, i: nat): string
    requires MatchesAt(line, i)
  {
    line[OpenerEnd(line, i).value..FirstStop(line, OpenerEnd(line, i).value, ')').value]
  }

  /** The lookbehind `(?<=(BM_PROJECT_PATH( ?)\())` holds at position `p`. */
  predicate OpenedBefore(line: string, p: nat) {
    (p >= 16 && OccursAt(line, Opener, p - 16)) ||
    (p >= 17 && OccursAt(line, SpacedOpener, p - 17))
  }

  /** The first match of `/(?<=(BM_PROJECT_PATH( ?)\()).*?(?=\))/g` at or after `p`. */
  function NameFrom(line: string, p: nat): Option<string>
    requires p <= |line|
    decreases |line| - p
  {
    if OpenedBefore(line, p) && FirstStop(line, p, ')').Some? then
      Some(line[p..FirstStop(line, p, ')').value])
    else if p == |line| then None
    else NameFrom(line, p + 1)
  }

  /** `line.match(...)[0]` of line 69; None is the `null` whose `[0]` throws. */
  function DirectiveName(line: string): Option<string> {
    NameFrom(line, 0)
  }

  /** The lookbehind holds at `p` exactly when some opener ends at `p`. */
  lemma {:induction false} OpenedBeforeIff(line: string, p: nat)
    ensures OpenedBefore(line, p) ==> exists i: nat :: i < p && OpenerEnd(line, i) == Some(p)
    ensures forall i: nat :: OpenerEnd(line, i) == Some(p) ==> OpenedBefore(line, p)
  {
    if p >= 16 && OccursAt(line, Opener, p - 16) {
      if OccursAt(line, SpacedOpener, p - 16) {
        SliceAt(line, p - 16, p, 15);
        SliceAt(line, p - 16, p + 1, 15);
        assert false;
      }
      assert OpenerEnd(line, p - 16) == Some(p);
    } else if p >= 17 && OccursAt(line, SpacedOpener, p - 17) {
      assert OpenerEnd(line, p - 17) == Some(p);
    }
  }

  /** Openers cannot overlap: each begins with the only `B` it contains. */
  lemma {:induction false} OpenersAreOrdered(line: string, i: nat, j: nat)
    requires i < j && OpenerEnd(line, i).Some? && OpenerEnd(line, j).Some?
    ensures OpenerEnd(line, i).value < OpenerEnd(line, j).value
  {
    var e, f := OpenerEnd(line, i).value, OpenerEnd(line, j).value;
    if j < e {
      OpenerChars();
      SliceAt(line, i, e, j - i);
      SliceAt(line, j, f, 0);
      assert false;
    }
  }

  /** Every opener that starts after the one at `i` also ends after it. */
  lemma {:induction false} OpenersFollow(line: string, i: nat)
    ensures forall j: nat :: i < j && OpenerEnd(line, i).Some? && OpenerEnd(line, j).Some? ==>
                             OpenerEnd(line, i).value < OpenerEnd(line, j).value
  {
    forall j: nat | i < j && OpenerEnd(line, i).Some? && OpenerEnd(line, j).Some?
      ensures OpenerEnd(line, i).value < OpenerEnd(line, j).value
    {
      OpenersAreOrdered(line, i, j);
    }
  }

  /** A match at `i` is found by the scan from any earlier position: some match is reported. */
  lemma {:induction false} NameFromReaches(line: string, p: nat, i: nat)
    requires MatchesAt(line, i) && p <= OpenerEnd(line, i).value
    ensures NameFrom(line, p).Some?
    decreases OpenerEnd(line, i).value - p
  {
    if p == OpenerEnd(line, i).value {
      NameAtOpener(line, i);
    } else if !(OpenedBefore(line, p) && FirstStop(line, p, ')').Some?) {
      NameFromReaches(line, p + 1, i);
    }
  }

  /** What the scan from `p` reports is the leftmost match whose opener ends at or after `p`. */
  lemma {:induction false} NameFromIsLeftmost(line: string, p: nat, i: nat)
    requires MatchesAt(line, i) && p <= OpenerEnd(line, i).value
    requires forall j: nat :: j < i && MatchesAt(line, j) ==> OpenerEnd(line, j).value < p
    ensures NameFrom(line, p) == Some(Between(line, i))
    decreases OpenerEnd(line, i).value - p
  {
    if p < OpenerEnd(line, i).value {
      NoNameBefore(line, p, i);
      NameFromIsLeftmost(line, p + 1, i);
    } else {
      NameAtOpener(line, i);
    }
  }

  /** Between the last earlier match and the opener at `i` the scan finds nothing. */
  lemma {:induction false} NoNameBefore(line: string, p: nat, i: nat)
    requires MatchesAt(line, i) && p < OpenerEnd(line, i).value
    requires forall j: nat :: j < i && MatchesAt(line, j) ==> OpenerEnd(line, j).value < p
    ensures !(OpenedBefore(line, p) && FirstStop(line, p, ')').Some?)
  {
    if OpenedBefore(line, p) && FirstStop(line, p, ')').Some? {
      OpenedBeforeIff(line, p);
      OpenersFollow(line, i);
      assert false;
    }
  }

  /** The scan started where the opener at `i` ends reports that match. */
  lemma {:induction false} NameAtOpener(line: string, i: nat)
    requires MatchesAt(line, i)
    ensures NameFrom(line, OpenerEnd(line, i).value) == Some(Between(line, i))
  {
    OpenedBeforeIff(line, OpenerEnd(line, i).value);
  }

  /** Whatever the scan from `p` reports comes from an actual match. */
  lemma {:induction false} NameFromSound(line: string, p: nat)
    requires p <= |line|
    requires NameFrom(line, p).Some?
    ensures exists i: nat :: i < |line| && MatchesAt(line, i) && OpenerEnd(line, i).value >= p &&
                             NameFrom(line, p) == Some(Between(line, i))
    decreases |line| - p, 1
  {
    if OpenedBefore(line, p) && FirstStop(line, p, ')').Some? {
      NameFoundHere(line, p);
    } else {
      NameFoundLater(line, p);
    }
  }

  /** A name not reported right at `p` is the one the scan from `p + 1` reports. */
  lemma {:induction false} NameFoundLater(line: string, p: nat)
    requires p < |line| && NameFrom(line, p).Some?
    requires !(OpenedBefore(line, p) && FirstStop(line, p, ')').Some?)
    ensures exists i: nat :: i < |line| && MatchesAt(line, i) && OpenerEnd(line, i).value >= p &&
                             NameFrom(line, p) == Some(Between(line, i))
    decreases |line| - p, 0
  {
    NameFromSound(line, p + 1);
    var i: nat :| i < |line| && MatchesAt(line, i) && OpenerEnd(line, i).value >= p + 1 &&
                  NameFrom(line, p + 1) == Some(Between(line, i));
    assert NameFrom(line, p) == NameFrom(line, p + 1);
  }

  /** A name reported right at `p` comes from the opener that ends at `p`. */
  lemma {:induction false} NameFoundHere(line: string, p: nat)
    requires p <= |line| && OpenedBefore(line, p) && FirstStop(line, p, ')').Some?
    ensures exists i: nat :: i < |line| && MatchesAt(line, i) && OpenerEnd(line, i).value >= p &&
                             NameFrom(line, p) == Some(Between(line, i))
  {
    OpenedBeforeIff(line, p);
    var i: nat :| i < p && OpenerEnd(line, i) == Some(p);
    assert MatchesAt(line, i);
  }

  /** The extraction of line 69 is defined exactly when the test of line 39 succeeds
      (so the `[0]` never reads a `null` on the save path), and it yields the text between
      the leftmost match's opener and the `)` that closes it. */
  lemma {:induction false} DirectiveNameIffTest(line: string)
    ensures DirectiveName(line).Some? <==> HasDirective(line)
    ensures forall i: nat :: i < |line| && MatchesAt(line, i) &&
                             (forall j: nat :: j < i ==> !MatchesAt(line, j)) ==>
                             DirectiveName(line) == Some(Between(line, i))
  {
    if DirectiveName(line).Some? {
      NameFromSound(line, 0);
    }
    if HasDirective(line) {
      var i: nat :| i < |line| && MatchesAt(line, i);
      NameFromReaches(line, 0, i);
    }
    forall i: nat | i < |line| && MatchesAt(line, i) && (forall j: nat :: j < i ==> !MatchesAt(line, j))
      ensures DirectiveName(line) == Some(Between(line, i))
    {
      NameFromIsLeftmost(line, 0, i);
    }
  }

  /** The extracted name never contains `)` or a line terminator. */
  lemma {:induction false} DirectiveNameShape(line: string)
    requires DirectiveName(line).Some?
    ensures ')' !in DirectiveName(line).value
    ensures forall c :: c in DirectiveName(line).value ==> !IsLineTerminator(c)
  {
    NameFromSound(line, 0);
    var i: nat :| i < |line| && MatchesAt(line, i) && DirectiveName(line) == Some(Between(line, i));
    ScannedText(line, OpenerEnd(line, i).value, ')');
  }

  /** A directive written after any text free of `B`: the test succeeds and the name is
      exactly what stands between the parentheses, which may be empty. */
  lemma {:induction false} DirectiveOf(x: string, opener: string, name: string, z: string)
    requires 'B' !in x
    requires opener == Opener || opener == SpacedOpener
    requires ')' !in name && forall c :: c in name ==> !IsLineTerminator(c)
    ensures HasDirective(x + opener + name + ")" + z)
    ensures DirectiveName(x + opener + name + ")" + z) == Some(name)
  {
    var line := x + opener + name + ")" + z;
    var e := |x| + |opener|;
    var a, b := x + opener, ")" + z;
    Regroup5(x, opener, name, ")", z);
    MiddleAt(x, opener, name + b, |x|);
    if opener == Opener && OccursAt(line, SpacedOpener, |x|) {
      OpenerChars();
      SliceAt(line, |x|, e, 15);
      SliceAt(line, |x|, e + 1, 15);
      assert false;
    }
    assert OpenerEnd(line, |x|) == Some(e);
    StopAfterPlain(a, name, ')', z);
    assert MatchesAt(line, |x|);
    MiddleAt(a, name, b, e);
    assert Between(line, |x|) == name;
    NoneBefore(x, opener + name + b);
    DirectiveNameIffTest(line);
  }

  /** The two openers part at their sixteenth character. */
  lemma {:induction false} OpenerChars()
    ensures |Opener| == 16 && Opener[15] == '('
    ensures |SpacedOpener| == 17 && SpacedOpener[15] == ' '
    ensures Opener[0] == 'B' && forall k :: 0 < k < |Opener| ==> Opener[k] != 'B'
    ensures SpacedOpener[0] == 'B' && forall k :: 0 < k < |SpacedOpener| ==> SpacedOpener[k] != 'B'
  {
  }

  /** No directive starts inside a front free of `B`. */
  lemma {:induction false} NoneBefore(x: string, y: string)
    requires 'B' !in x
    ensures forall j: nat | j < |x| :: !MatchesAt(x + y, j)
  {
    forall j: nat | j < |x| ensures !MatchesAt(x + y, j) {
      OpenerStartsWithB(x + y, j);
      assert (x + y)[j] == x[j];
    }
  }

  /** Instance: empty parentheses name the empty path. */
  lemma {:induction false} EmptyParenthesesExample()
    ensures DirectiveName("BM_PROJECT_PATH()") == Some("")
  {
    assert "" + Opener + "" + ")" + "" == "BM_PROJECT_PATH()";
    DirectiveOf("", Opener, "", "");
  }

  /** Every opener starts with the `B` of its marker. */
  lemma {:induction false} OpenerStartsWithB(line: string, i: nat)
    ensures OpenerEnd(line, i).Some? ==> i < |line| && line[i] == 'B'
  {
    if OpenerEnd(line, i).Some? {
      SliceAt(line, i, OpenerEnd(line, i).value, 0);
    }
  }

  /** The test is case-sensitive, admits at most one space before `(`, and needs a `)`. */
  lemma {:induction false} NotDirectives()
    ensures !HasDirective("bm_project_path(x)")
    ensures !HasDirective("BM_PROJECT_PATH  (x)")
    ensures !HasDirective("BM_PROJECT_PATH(x")
  {
    LowerCaseIsNoDirective();
    TwoSpacesIsNoDirective();
    UnclosedIsNoDirective();
  }

  /** A line whose only `B` is its first character holds a directive only at index 0. */
  lemma {:induction false} OnlyFirstB(line: string)
    requires forall j :: 0 < j < |line| ==> line[j] != 'B'
    requires |line| > 0 ==> !MatchesAt(line, 0)
    ensures !HasDirective(line)
  {
    forall i: nat | i < |line| ensures !MatchesAt(line, i) {
      OpenerStartsWithB(line, i);
    }
  }

  lemma {:induction false} LowerCaseIsNoDirective()
    ensures !HasDirective("bm_project_path(x)")
  {
    var a := "bm_project_path(x)";
    OpenerStartsWithB(a, 0);
    OnlyFirstB(a);
  }

  lemma {:induction false} TwoSpacesIsNoDirective()
    ensures !HasDirective("BM_PROJECT_PATH  (x)")
  {
    var b := "BM_PROJECT_PATH  (x)";
    SliceAt(b, 0, 17, 16);
    SliceAt(b, 0, 16, 15);
    assert OpenerEnd(b, 0).None?;
    OnlyFirstB(b);
  }

  lemma {:induction false} UnclosedIsNoDirective()
    ensures !HasDirective("BM_PROJECT_PATH(x")
  {
    var c := "BM_PROJECT_PATH(x";
    assert OpenerEnd(c, 0) == Some(16);
    OnlyFirstB(c);
  }
}
