/**
 * String primitives the components rely on: substring search (`includes`,
 * `indexOf`, `startsWith`, `endsWith`), ECMAScript `trim`, and an ASCII
 * approximation of `toLowerCase`.
 */
module Text {
  import opened Wrappers

  /** `p` occurs in `s` starting at index `i`. */
  predicate OccursAt(s: string, p: string, i: nat) {
    i + |p| <= |s| && s[i..i + |p|] == p
  }

  predicate StartsWith(s: string, p: string) {
    OccursAt(s, p, 0)
  }

  predicate EndsWith(s: string, p: string) {
    |p| <= |s| && OccursAt(s, p, |s| - |p|)
  }

  /** The leftmost occurrence of `p` in `s` at or after `from` (`s.indexOf(p, from)`). */
  function IndexOf(s: string, p: string, from: nat): (r: Option<nat>)
    ensures r.Some? ==> from <= r.value && OccursAt(s, p, r.value)
    ensures r.Some? ==> forall k :: from <= k < r.value ==> !OccursAt(s, p, k)
    ensures r.None? ==> forall k: nat :: from <= k ==> !OccursAt(s, p, k)
    decreases |s| - from
  {
    if from + |p| > |s| then None
    else if s[from..from + |p|] == p then Some(from)
    else IndexOf(s, p, from + 1)
  }

  /** `s.includes(p)`. */
  function Includes(s: string, p: string): (r: bool)
    ensures r <==> exists i: nat :: OccursAt(s, p, i)
  {
    IndexOf(s, p, 0).Some?
  }

  /** An occurrence inside a slice is an occurrence in the whole string, shifted. */
  lemma OccursInSlice(s: string, a: nat, b: nat, p: string, k: nat)
    requires a <= b <= |s|
    requires OccursAt(s[a..b], p, k)
    ensures OccursAt(s, p, a + k)
  {
    assert k + |p| <= b - a;
    assert forall m :: 0 <= m < |p| ==> p[m] == s[a..b][k + m];
    assert s[a + k..a + k + |p|] == p;
  }

  /** A slice of a slice is a slice of the whole. */
  lemma SliceOfSlice(s: string, a: nat, b: nat, x: nat, y: nat)
    requires a <= b <= |s| && x <= y <= b - a
    ensures s[a..b][x..y] == s[a + x..a + y]
  {
    forall m | 0 <= m < y - x ensures s[a..b][x..y][m] == s[a + x..a + y][m] {
      assert s[a..b][x..y][m] == s[a..b][x + m];
    }
  }

  /** `p` occurs in `a + p + b` right after `a`. */
  lemma OccursBetween(a: string, p: string, b: string)
    ensures OccursAt(a + p + b, p, |a|)
  {
    assert (a + p + b)[|a|..|a| + |p|] == p;
  }

  /** An occurrence in a prefix stays an occurrence when text is appended. */
  lemma OccursInPrefix(s: string, t: string, p: string, k: nat)
    requires OccursAt(s, p, k)
    ensures OccursAt(s + t, p, k)
  {
    assert (s + t)[k..k + |p|] == s[k..k + |p|];
  }

  /** Every string contains the empty string. */
  lemma IncludesEmpty(s: string)
    ensures Includes(s, "")
  {
    assert OccursAt(s, "", 0);
  }

  /** No proper suffix of `p` is also a prefix of `p`: occurrences of `p` cannot overlap. */
  predicate Unbordered(p: string) {
    forall m :: 1 <= m < |p| ==> p[m..] != p[..|p| - m]
  }

  /**
   * When `pre` does not contain an unbordered `p`, no occurrence of `p`
   * starts inside `pre` even once `p` and more text are appended.
   */
  lemma UnborderedNoStraddle(pre: string, p: string, after: string)
    requires Unbordered(p)
    requires !Includes(pre, p)
    ensures forall k: nat :: k < |pre| ==> !OccursAt(pre + p + after, p, k)
  {
    var s := pre + p + after;
    forall k: nat | k < |pre| ensures !OccursAt(s, p, k) {
      if k + |p| <= |pre| {
        assert s[k..k + |p|] == pre[k..k + |p|];
        assert !OccursAt(pre, p, k);
      } else {
        var m := |pre| - k;
        assert s[|pre|..|pre| + |p|] == p;
        assert s[k..k + |p|][m..] == p[..|p| - m];
      }
    }
  }

  // ---------------------------------------------------------------------
  // trim

  /**
   * The characters ECMAScript's `trim` removes: WhiteSpace (TAB, VT, FF,
   * ZWNBSP and every Unicode space separator) and LineTerminator (LF, CR,
   * LS, PS).
   */
  predicate IsSpace(c: char) {
    || c == '\t' || c == '\n' || c == '\U{000B}' || c == '\U{000C}' || c == '\r'
    || c == ' ' || c == '\U{00A0}' || c == '\U{1680}'
    || ('\U{2000}' <= c <= '\U{200A}')
    || c == '\U{2028}' || c == '\U{2029}' || c == '\U{202F}' || c == '\U{205F}'
    || c == '\U{3000}' || c == '\U{FEFF}'
  }

  predicate AllSpace(s: string) {
    forall k :: 0 <= k < |s| ==> IsSpace(s[k])
  }

  function TrimStart(s: string): (r: string)
    ensures |r| <= |s| && r == s[|s| - |r|..]
    ensures AllSpace(s[..|s| - |r|])
    ensures |r| > 0 ==> !IsSpace(r[0])
    decreases |s|
  {
    if |s| > 0 && IsSpace(s[0]) then TrimStart(s[1..]) else s
  }

  function TrimEnd(s: string): (r: string)
    ensures |r| <= |s| && r == s[..|r|]
    ensures AllSpace(s[|r|..])
    ensures |r| > 0 ==> !IsSpace(r[|r| - 1])
    decreases |s|
  {
    if |s| > 0 && IsSpace(s[|s| - 1]) then TrimEnd(s[..|s| - 1]) else s
  }

  /** `s.trim()`: `s` without its leading and trailing white space. */
  function Trim(s: string): (r: string)
    ensures |r| > 0 ==> !IsSpace(r[0]) && !IsSpace(r[|r| - 1])
  {
    TrimEnd(TrimStart(s))
  }

  /**
   * The trimmed text is a contiguous piece of the input and everything cut
   * off on either side is white space.
   */
  lemma TrimCutsOnlySpace(s: string)
    ensures exists a: nat, b: nat :: a <= b <= |s| && Trim(s) == s[a..b] && AllSpace(s[..a]) && AllSpace(s[b..])
  {
    var t := TrimStart(s);
    var a: nat := |s| - |t|;
    var r := TrimEnd(t);
    var b: nat := a + |r|;
    assert r == s[a..b];
    assert s[b..] == t[|r|..];
  }

  /** `s.trim()` is falsy exactly when `s` is nothing but white space. */
  lemma TrimEmptyIff(s: string)
    ensures Trim(s) == "" <==> AllSpace(s)
  {
    var t := TrimStart(s);
    if Trim(s) == "" {
      assert AllSpace(t[0..]);
      assert s == s[..|s| - |t|] + t;
    }
  }

  /** Trimming twice is trimming once. */
  lemma TrimIdempotent(s: string)
    ensures Trim(Trim(s)) == Trim(s)
  {
    var r := Trim(s);
    if |r| > 0 {
      assert TrimStart(r) == r;
      assert TrimEnd(r) == r;
    }
  }

  // ---------------------------------------------------------------------
  // toLowerCase (ASCII letters only)

  function LowerChar(c: char): char {
    if 'A' <= c <= 'Z' then ((c as int) + 32) as char else c
  }

  /** `s.toLowerCase()`, folding the ASCII letters A-Z only. */
  function Lower(s: string): (r: string)
    ensures |r| == |s|
    ensures forall k :: 0 <= k < |s| ==> r[k] == LowerChar(s[k])
  {
    seq(|s|, k requires 0 <= k < |s| => LowerChar(s[k]))
  }

  /** Lower-casing is idempotent. */
  lemma LowerIdempotent(s: string)
    ensures Lower(Lower(s)) == Lower(s)
  {
    assert forall k :: 0 <= k < |s| ==> LowerChar(LowerChar(s[k])) == LowerChar(s[k]);
  }
}
