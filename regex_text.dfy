/** Text facts shared by the regular expressions of src/extension.js.
    JavaScript's `.` matches any code unit except a line terminator, and the lazy
    `.*?c` (or `.*?(?=c)`) stops at the first `c` it reaches. */
module RegexText {

  datatype Option<T> = None | Some(value: T)

  /** The LineTerminator code points of ECMAScript: exactly what `.` refuses. */
  predicate IsLineTerminator(c: char) {
    c == '\n' || c == '\r' || c == '\U{2028}' || c == '\U{2029}'
  }

  /** `w` occurs in `s` starting at index `i`. */
  predicate OccursAt(s: string, w: string, i: int) {
    0 <= i && i + |w| <= |s| && s[i..i + |w|] == w
  }

  /** `s.includes(w)` */
  predicate Contains(s: string, w: string) {
    exists i | 0 <= i <= |s| :: OccursAt(s, w, i)
  }

  /** Indexing into a slice, stated without preconditions so that it can be used anywhere. */
  lemma {:induction false} SliceAt(s: string, a: int, b: int, k: int)
    ensures 0 <= a && 0 <= k && a + k < b <= |s| ==> s[a..b][k] == s[a + k]
  {
  }

  lemma Assoc(x: string, y: string, z: string)
    ensures x + (y + z) == x + y + z
  {
  }

  /** Regrouping a text made of five pieces. */
  lemma {:induction false} Regroup5(p1: string, p2: string, p3: string, p4: string, p5: string)
    ensures p1 + p2 + p3 + p4 + p5 == (p1 + p2) + p3 + (p4 + p5)
    ensures p1 + p2 + p3 + p4 + p5 == p1 + p2 + (p3 + (p4 + p5))
    ensures p1 + p2 + p3 + p4 + p5 == p1 + (p2 + p3 + (p4 + p5))
  {
  }

  /** A slice of a slice, stated without preconditions. */
  lemma {:induction false} SliceOfSlice(s: string, a: int, b: int, x: int, y: int)
    ensures 0 <= a && 0 <= x <= y && a + y <= b <= |s| ==> s[a..b][x..y] == s[a + x..a + y]
  {
    if 0 <= a && 0 <= x <= y && a + y <= b <= |s| {
      forall j | 0 <= j < y - x ensures s[a..b][x..y][j] == s[a + x..a + y][j] {}
    }
  }

  /** Where the middle part of a concatenation sits, stated without preconditions. */
  lemma {:induction false} MiddleAt(a: string, d: string, b: string, i: int)
    ensures |a| <= i < |a| + |d| ==> (a + d + b)[i] == d[i - |a|]
    ensures (a + d + b)[|a|..|a| + |d|] == d
  {
    var t := a + d + b;
    assert t[|a|..|a| + |d|] == d;
  }

  /** `.` can match every character of `s[k..q]`. */
  predicate Plain(s: string, k: int, q: int)
    requires 0 <= k <= q <= |s|
  {
    forall j :: k <= j < q ==> !IsLineTerminator(s[j])
  }

  /** Where the lazy `.*?c` that starts at `k` stops: the first index `q >= k` with
      `s[q] == c`, provided no line terminator comes before it. */
  function FirstStop(s: string, k: nat, c: char): (r: Option<nat>)
    requires k <= |s|
    requires !IsLineTerminator(c)
    ensures r.Some? ==> k <= r.value < |s| && s[r.value] == c && Plain(s, k, r.value)
    ensures r.Some? ==> forall j :: k <= j < r.value ==> s[j] != c
    ensures r.None? ==> forall q :: k <= q < |s| && s[q] == c ==> !Plain(s, k, q)
    decreases |s| - k
  {
    if k == |s| then None
    else if s[k] == c then Some(k)
    else if IsLineTerminator(s[k]) then None
    else FirstStop(s, k + 1, c)
  }

  /** Any stop the lazy scan could reach proves that it reaches one. */
  lemma {:induction false} FirstStopFinds(s: string, k: nat, c: char, q: nat)
    requires k <= q < |s| && s[q] == c && Plain(s, k, q)
    requires !IsLineTerminator(c)
    ensures FirstStop(s, k, c).Some? && FirstStop(s, k, c).value <= q
  {
  }

  /** What the lazy scan passes over holds neither the stop character nor a line terminator. */
  lemma {:induction false} ScannedText(s: string, k: nat, c: char)
    requires k <= |s| && !IsLineTerminator(c) && FirstStop(s, k, c).Some?
    ensures c !in s[k..FirstStop(s, k, c).value]
    ensures forall d :: d in s[k..FirstStop(s, k, c).value] ==> !IsLineTerminator(d)
  {
    var t := s[k..FirstStop(s, k, c).value];
    forall m | 0 <= m < |t| ensures t[m] == s[k + m] {}
  }

  /** A scan that starts right before a stretch free of `c` and of line terminators stops
      at the `c` that ends it. */
  lemma {:induction false} StopAfterPlain(x: string, y: string, c: char, z: string)
    requires !IsLineTerminator(c)
    requires c !in y && forall d :: d in y ==> !IsLineTerminator(d)
    ensures FirstStop(x + y + [c] + z, |x|, c) == Some(|x| + |y|)
  {
    var s := x + y + [c] + z;
    forall j | |x| <= j < |x| + |y| ensures s[j] == y[j - |x|] {}
    FirstStopFinds(s, |x|, c, |x| + |y|);
  }
}
