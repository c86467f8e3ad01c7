/**
 * Code extraction from an assistant reply (the two regular expressions in
 * `handleSendMessage` of src/components/Playground.tsx) and the merge rule
 * that folds the captures into the session.
 */
module Extraction {
  import opened Wrappers
  import opened Text
  import opened Fence

  /** Opening fence of a markup block; the tag must be followed directly by a line break. */
  const JsxOpen: string := "```jsx\n"
  /** Opening fence of a stylesheet block. */
  const CssOpen: string := "```css\n"
  /** Closing fence: a line break and three backticks. */
  const Close: string := "\n```"

  /** The body of the first `open ... \n```` block of `text`: `text.match(re)?.[1]`. */
  function Capture(text: string, open: string): (r: Option<string>)
    ensures r.None? <==> forall i: nat, j: nat :: !IsMatch(text, open, Close, i, j)
    ensures r.Some? ==> exists i: nat, j: nat :: IsFirstMatch(text, open, Close, i, j) && r.value == text[i + |open|..j]
  {
    match FirstMatch(text, open, Close)
    case Some((i, j)) => Some(text[i + |open|..j])
    case None => None
  }

  /** `/```jsx\n([\s\S]*?)\n```/`: absent iff no markup block is closed; never holds a closing fence. */
  function CaptureJsx(text: string): (r: Option<string>)
    ensures r.None? <==> forall i: nat, j: nat :: !IsMatch(text, JsxOpen, Close, i, j)
    ensures r.Some? ==> !Includes(r.value, Close) && Includes(text, JsxOpen + r.value + Close)
  {
    match Capture(text, JsxOpen)
    case None => None
    case Some(body) => CaptureIsFencedPiece(text, JsxOpen); Some(body)
  }

  /** `/```css\n([\s\S]*?)\n```/`: absent iff no stylesheet block is closed; never holds a closing fence. */
  function CaptureCss(text: string): (r: Option<string>)
    ensures r.None? <==> forall i: nat, j: nat :: !IsMatch(text, CssOpen, Close, i, j)
    ensures r.Some? ==> !Includes(r.value, Close) && Includes(text, CssOpen + r.value + Close)
  {
    match Capture(text, CssOpen)
    case None => None
    case Some(body) => CaptureIsFencedPiece(text, CssOpen); Some(body)
  }

  /**
   * A capture never contains the closing fence, and putting the fences back
   * around it gives a piece of the original text.
   */
  lemma CaptureIsFencedPiece(text: string, open: string)
    requires Capture(text, open).Some?
    ensures !Includes(Capture(text, open).value, Close)
    ensures Includes(text, open + Capture(text, open).value + Close)
  {
    var c := Capture(text, open).value;
    var i: nat, j: nat :| IsFirstMatch(text, open, Close, i, j) && c == text[i + |open|..j];
    BodyHasNoClose(text, open, Close, i, j);
    assert text[i..j + |Close|] == text[i..i + |open|] + text[i + |open|..j] + text[j..j + |Close|];
    assert OccursAt(text, open + c + Close, i);
  }

  /**
   * A block whose body has no closing fence, preceded by text in which the
   * opening fence does not occur, is captured exactly.
   */
  lemma CaptureOfWrapped(pre: string, open: string, body: string, rest: string)
    requires !Includes(body, Close)
    requires forall k: nat :: k < |pre| ==> !OccursAt(pre + open + body + Close + rest, open, k)
    ensures Capture(pre + open + body + Close + rest, open) == Some(body)
  {
    var text := pre + open + body + Close + rest;
    var i := |pre|;
    var j := |pre| + |open| + |body|;
    WrappedBodyIsFirstMatch(pre, open, body, Close, rest);
    var r := FirstMatch(text, open, Close);
    assert r.Some?;
    FirstMatchUnique(text, open, Close, i, j, r.value.0, r.value.1);
    assert text[i + |open|..j] == body;
  }

  /** A block at the very start of the text is captured exactly. */
  lemma CaptureOfLeading(open: string, body: string, rest: string)
    requires !Includes(body, Close)
    ensures Capture(open + body + Close + rest, open) == Some(body)
  {
    CaptureOfWrapped("", open, body, rest);
    assert "" + open + body + Close + rest == open + body + Close + rest;
  }

  /** Round trip: fencing a body (that has no closing fence) and extracting gives the body back. */
  lemma {:induction false} FenceRoundTrip(body: string, rest: string)
    requires !Includes(body, Close)
    ensures CaptureJsx(JsxOpen + body + Close + rest) == Some(body)
    ensures CaptureCss(CssOpen + body + Close + rest) == Some(body)
  {
    CaptureOfLeading(JsxOpen, body, rest);
    CaptureOfLeading(CssOpen, body, rest);
  }

  lemma JsxOpenUnbordered()
    ensures Unbordered(JsxOpen)
  {
    forall m | 1 <= m < |JsxOpen| ensures JsxOpen[m..] != JsxOpen[..|JsxOpen| - m] {
      var t := if m >= 3 then 0 else 3 - m;
      assert JsxOpen[m..][t] != JsxOpen[..|JsxOpen| - m][t];
    }
  }

  lemma CssOpenUnbordered()
    ensures Unbordered(CssOpen)
  {
    forall m | 1 <= m < |CssOpen| ensures CssOpen[m..] != CssOpen[..|CssOpen| - m] {
      var t := if m >= 3 then 0 else 3 - m;
      assert CssOpen[m..][t] != CssOpen[..|CssOpen| - m][t];
    }
  }

  /**
   * A reply of the mock's shape — leading prose, a markup block, a gap, a
   * stylesheet block, anything after — yields both bodies exactly, provided
   * neither body holds a closing fence, the prose opens no markup fence and
   * no stylesheet fence opens before the stylesheet block.
   */
  lemma {:induction false} ExtractBothBlocks(lead: string, jsx: string, mid: string, css: string, rest: string)
    requires !Includes(jsx, Close) && !Includes(css, Close)
    requires !Includes(lead, JsxOpen)
    requires !Includes(lead + JsxOpen + jsx + Close + mid, CssOpen)
    ensures CaptureJsx(lead + JsxOpen + jsx + Close + mid + CssOpen + css + Close + rest) == Some(jsx)
    ensures CaptureCss(lead + JsxOpen + jsx + Close + mid + CssOpen + css + Close + rest) == Some(css)
  {
    JsxOpenUnbordered();
    CssOpenUnbordered();
    ExtractTwoBlocks(lead, JsxOpen, jsx, mid, CssOpen, css, rest);
  }

  /**
   * Two blocks with different, unbordered opening fences after text that
   * opens neither: each regular expression captures its own block.
   */
  lemma ExtractTwoBlocks(lead: string, open1: string, b1: string, mid: string, open2: string, b2: string, rest: string)
    requires !Includes(b1, Close) && !Includes(b2, Close)
    requires Unbordered(open1) && !Includes(lead, open1)
    requires Unbordered(open2) && !Includes(lead + open1 + b1 + Close + mid, open2)
    ensures Capture(lead + open1 + b1 + Close + mid + open2 + b2 + Close + rest, open1) == Some(b1)
    ensures Capture(lead + open1 + b1 + Close + mid + open2 + b2 + Close + rest, open2) == Some(b2)
  {
    var pre := lead + open1 + b1 + Close + mid;
    var tail := b2 + Close + rest;
    var after := mid + open2 + tail;
    var text := lead + open1 + b1 + Close + mid + open2 + b2 + Close + rest;
    assert text == pre + open2 + tail;
    assert text == lead + open1 + b1 + Close + after;
    assert text == lead + open1 + (b1 + Close + after);
    UnborderedNoStraddle(lead, open1, b1 + Close + after);
    CaptureOfWrapped(lead, open1, b1, after);
    UnborderedNoStraddle(pre, open2, tail);
    CaptureOfWrapped(pre, open2, b2, rest);
  }

  /** Any closed block makes the capture present. */
  lemma ClosedBlockCaptured(pre: string, open: string, body: string, rest: string)
    ensures Capture(pre + open + body + Close + rest, open).Some?
  {
    var text := pre + open + body + Close + rest;
    assert text == pre + open + (body + Close + rest);
    OccursBetween(pre, open, body + Close + rest);
    OccursBetween(pre + open + body, Close, rest);
    assert IsMatch(text, open, Close, |pre|, |pre| + |open| + |body|);
  }

  /** A reply that holds a closed markup block and a closed stylesheet block yields both captures. */
  lemma BothBlocksPresent(lead: string, jsx: string, mid: string, css: string)
    ensures CaptureJsx(lead + JsxOpen + jsx + Close + mid + CssOpen + css + Close).Some?
    ensures CaptureCss(lead + JsxOpen + jsx + Close + mid + CssOpen + css + Close).Some?
  {
    var text := lead + JsxOpen + jsx + Close + mid + CssOpen + css + Close;
    var pre := lead + JsxOpen + jsx + Close + mid;
    assert text == lead + JsxOpen + jsx + Close + (mid + CssOpen + css + Close);
    ClosedBlockCaptured(lead, JsxOpen, jsx, mid + CssOpen + css + Close);
    assert text == pre + CssOpen + css + Close + "";
    ClosedBlockCaptured(pre, CssOpen, css, "");
  }

  /** A reply without a closing fence yields neither capture. */
  lemma NoFenceNoCapture(text: string)
    requires !Includes(text, Close)
    ensures CaptureJsx(text).None? && CaptureCss(text).None?
  {
  }

  /**
   * `capture || previous`: an absent or empty capture keeps the previous
   * value, a non-empty capture replaces it.
   */
  function Merge(captured: Option<string>, previous: Option<string>): (r: Option<string>)
    ensures r == captured || r == previous
    ensures r != previous ==> r.Some? && r.value != ""
    ensures captured.Some? && captured.value != "" ==> r == captured
    ensures captured.None? || captured == Some("") ==> r == previous
  {
    if captured.Some? && captured.value != "" then captured else previous
  }
}
