/**
 * The regular expressions of the components all have the shape
 * `open([\s\S]*?)close`: a literal opening delimiter, the shortest possible
 * body of arbitrary characters, and a literal closing delimiter. A
 * backtracking engine tries start positions from left to right and, at
 * each, the shortest body first. This module models that search and gives
 * an independent, declarative description of the match it finds.
 */
module Fence {
  import opened Wrappers
  import opened Text

  /** `s[i..j + |close|]` matches `open([\s\S]*?)close` with the body `s[i + |open|..j]`. */
  predicate IsMatch(s: string, open: string, close: string, i: nat, j: nat) {
    OccursAt(s, open, i) && i + |open| <= j && OccursAt(s, close, j)
  }

  /** No match of the pattern starts at `i`. */
  ghost predicate NoMatchAt(s: string, open: string, close: string, i: nat) {
    forall j: nat :: !IsMatch(s, open, close, i, j)
  }

  /** The match the regex engine reports: leftmost start, then shortest body. */
  ghost predicate IsFirstMatch(s: string, open: string, close: string, i: nat, j: nat) {
    && IsMatch(s, open, close, i, j)
    && (forall i': nat :: i' < i ==> NoMatchAt(s, open, close, i'))
    && (forall j': nat :: i + |open| <= j' < j ==> !OccursAt(s, close, j'))
  }

  /** The engine's scan over start positions `from`, `from + 1`, ... */
  function MatchFrom(s: string, open: string, close: string, from: nat): (r: Option<(nat, nat)>)
    ensures r.Some? ==> from <= r.value.0 && IsMatch(s, open, close, r.value.0, r.value.1)
    ensures r.Some? ==> forall i': nat :: from <= i' < r.value.0 ==> NoMatchAt(s, open, close, i')
    ensures r.Some? ==> forall j': nat :: r.value.0 + |open| <= j' < r.value.1 ==> !OccursAt(s, close, j')
    ensures r.None? ==> forall i': nat :: from <= i' ==> NoMatchAt(s, open, close, i')
    decreases |s| + 1 - from
  {
    if from > |s| then None
    else if OccursAt(s, open, from) then
      match IndexOf(s, close, from + |open|)
      case Some(j) => Some((from, j))
      case None => MatchFrom(s, open, close, from + 1)
    else MatchFrom(s, open, close, from + 1)
  }

  /** `s.match(/open([\s\S]*?)close/)`: the positions of the match, if any. */
  function FirstMatch(s: string, open: string, close: string): (r: Option<(nat, nat)>)
    ensures r.Some? ==> IsFirstMatch(s, open, close, r.value.0, r.value.1)
    ensures r.None? <==> forall i: nat, j: nat :: !IsMatch(s, open, close, i, j)
  {
    var r := MatchFrom(s, open, close, 0);
    if r.None? then
      assert forall i: nat, j: nat :: !IsMatch(s, open, close, i, j) by {
        forall i: nat, j: nat ensures !IsMatch(s, open, close, i, j) {
          assert NoMatchAt(s, open, close, i);
        }
      }
      r
    else r
  }

  /** The first match is determined by the declarative description alone. */
  lemma FirstMatchUnique(s: string, open: string, close: string, i: nat, j: nat, i2: nat, j2: nat)
    requires IsFirstMatch(s, open, close, i, j)
    requires IsFirstMatch(s, open, close, i2, j2)
    ensures i == i2 && j == j2
  {
    // Each start position carries a match, so neither can lie before the other.
    assert !NoMatchAt(s, open, close, i);
    assert !NoMatchAt(s, open, close, i2);
  }

  /** The body of the first match never contains the closing delimiter. */
  lemma BodyHasNoClose(s: string, open: string, close: string, i: nat, j: nat)
    requires |close| > 0
    requires IsFirstMatch(s, open, close, i, j)
    ensures !Includes(s[i + |open|..j], close)
  {
    if Includes(s[i + |open|..j], close) {
      var k: nat :| OccursAt(s[i + |open|..j], close, k);
      OccursInSlice(s, i + |open|, j, close, k);
    }
  }

  /**
   * If `open` occurs nowhere before `|pre|` and the body contains no
   * closing delimiter (which cannot straddle the body's end either), the
   * first match of `pre + open + body + close + rest` has exactly `body`
   * as its capture.
   */
  lemma {:induction false} WrappedBodyIsFirstMatch(pre: string, open: string, body: string, close: string, rest: string)
    requires |close| > 0 && forall m :: 1 <= m < |close| ==> close[m] != close[0]
    requires !Includes(body, close)
    requires forall k: nat :: k < |pre| ==> !OccursAt(pre + open + body + close + rest, open, k)
    ensures IsFirstMatch(pre + open + body + close + rest, open, close, |pre|, |pre| + |open| + |body|)
  {
    var s := pre + open + body + close + rest;
    var i := |pre|;
    var j := |pre| + |open| + |body|;
    assert s[i..i + |open|] == open;
    assert s[j..j + |close|] == close;
    assert IsMatch(s, open, close, i, j);
    forall i': nat | i' < i ensures NoMatchAt(s, open, close, i') {
      assert !OccursAt(s, open, i');
    }
    forall j': nat | i + |open| <= j' < j ensures !OccursAt(s, close, j') {
      // Either the occurrence lies inside the body, or it straddles the
      // body's end, where the text holds close[0] but the occurrence would
      // need a later character of `close`.
      var m := j' - (i + |open|);
      assert s[i + |open|..j] == body;
      if j' + |close| <= j {
        assert !OccursAt(body, close, m);
        assert body[m..m + |close|] == s[j'..j' + |close|];
      } else if j' + |close| <= |s| {
        var d := j - j';
        assert s[j'..j' + |close|][d] == s[j] == close[0] != close[d];
      }
    }
  }
}
