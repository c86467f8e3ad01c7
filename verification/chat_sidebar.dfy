/**
 * src/components/ChatSidebar.tsx: the segmentation `formatMessage` applies
 * to a message before rendering it, and the composer form (`handleSubmit`,
 * the send button and the Enter key).
 */
module ChatSidebar {
  import opened Wrappers
  import opened Text
  import opened Fence

  /** Three backticks: both delimiters of `/(```[\s\S]*?```)/g`. */
  const Backticks: string := "```"

  // -----------------------------------------------------------------------
  // Segmentation: content.split(/(```[\s\S]*?```)/g)

  /**
   * The parts `split` returns: the text before the leftmost shortest
   * fenced run, the run itself (the captured group), then the parts of the
   * remainder. Without a run the whole content is the single part.
   */
  function Split(content: string): (parts: seq<string>)
    ensures |parts| % 2 == 1
    decreases |content|
  {
    match FirstMatch(content, Backticks, Backticks)
    case None => [content]
    case Some((i, j)) => [content[..i], content[i..j + 3]] + Split(content[j + 3..])
  }

  function Concat(parts: seq<string>): string {
    if |parts| == 0 then "" else parts[0] + Concat(parts[1..])
  }

  /** A captured run: opens and closes with three backticks, none inside. */
  predicate IsFencedRun(part: string) {
    && |part| >= 6
    && StartsWith(part, Backticks)
    && EndsWith(part, Backticks)
    && !Includes(part[3..|part| - 3], Backticks)
  }

  /** No fenced run at all occurs in `t`. */
  ghost predicate NoFencedRun(t: string) {
    forall i: nat, j: nat :: !IsMatch(t, Backticks, Backticks, i, j)
  }

  lemma {:induction false} ConcatOfPair(a: string, b: string, rest: seq<string>)
    ensures Concat([a, b] + rest) == a + b + Concat(rest)
  {
    assert ([a, b] + rest)[1..] == [b] + rest;
    assert ([b] + rest)[1..] == rest;
  }

  /** One step of the split: the text before the first run, the run, then the parts of the rest. */
  lemma {:induction false} SplitStep(content: string, i: nat, j: nat)
    requires FirstMatch(content, Backticks, Backticks) == Some((i, j))
    ensures i + 3 <= j && j + 3 <= |content|
    ensures Split(content) == [content[..i], content[i..j + 3]] + Split(content[j + 3..])
  {
    assert IsMatch(content, Backticks, Backticks, i, j);
    assert OccursAt(content, Backticks, j);
  }

  /** Joining the parts gives back the message exactly. */
  lemma {:induction false} SplitConcat(content: string)
    ensures Concat(Split(content)) == content
    decreases |content|
  {
    match FirstMatch(content, Backticks, Backticks)
    case None =>
      assert Concat([content]) == content + Concat([]);
    case Some((i, j)) =>
      SplitStep(content, i, j);
      SplitConcat(content[j + 3..]);
      ConcatOfStep(content, i, j, Split(content[j + 3..]));
  }

  /** Cutting the message at `i` and `j + 3` and joining the pieces again gives it back. */
  lemma {:induction false} ConcatOfStep(content: string, i: nat, j: nat, tail: seq<string>)
    requires i <= j + 3 <= |content| && Concat(tail) == content[j + 3..]
    ensures Concat([content[..i], content[i..j + 3]] + tail) == content
  {
    ConcatOfPair(content[..i], content[i..j + 3], tail);
    assert content[..i] + content[i..j + 3] + content[j + 3..] == content;
  }

  /** A match inside a prefix is a match of the whole text. */
  lemma {:induction false} PrefixMatchLifts(t: string, u: string, i: nat, j: nat)
    ensures IsMatch(t, Backticks, Backticks, i, j) ==> IsMatch(t + u, Backticks, Backticks, i, j)
  {
    if IsMatch(t, Backticks, Backticks, i, j) {
      OccursInPrefix(t, u, Backticks, i);
      OccursInPrefix(t, u, Backticks, j);
    }
  }

  /** The text before the first run contains no run of its own. */
  lemma {:induction false} LeadingTextHasNoRun(content: string, i: nat, j: nat)
    requires IsFirstMatch(content, Backticks, Backticks, i, j)
    ensures NoFencedRun(content[..i])
  {
    var t := content[..i];
    assert content == t + content[i..];
    forall i': nat, j': nat ensures !IsMatch(t, Backticks, Backticks, i', j') {
      PrefixMatchLifts(t, content[i..], i', j');
      if i' < i {
        assert NoMatchAt(content, Backticks, Backticks, i');
      }
    }
  }

  /** The first run, cut out of the content, is a fenced run. */
  lemma {:induction false} FirstRunIsFenced(content: string, i: nat, j: nat)
    requires IsFirstMatch(content, Backticks, Backticks, i, j)
    ensures IsFencedRun(content[i..j + 3])
  {
    assert i + 3 <= j && j + 3 <= |content|;
    var c := content[i..j + 3];
    assert |c| == j + 3 - i;
    BodyHasNoClose(content, Backticks, Backticks, i, j);
    SliceOfSlice(content, i, j + 3, 3, |c| - 3);
    SliceOfSlice(content, i, j + 3, 0, 3);
    SliceOfSlice(content, i, j + 3, |c| - 3, |c|);
  }

  /** Even positions hold plain text without a fenced run, odd positions fenced runs. */
  ghost predicate Alternates(parts: seq<string>) {
    && (forall k :: 0 <= k < |parts| && k % 2 == 1 ==> IsFencedRun(parts[k]))
    && (forall k :: 0 <= k < |parts| && k % 2 == 0 ==> NoFencedRun(parts[k]))
  }

  lemma {:induction false} AlternatesCons(text: string, run: string, rest: seq<string>)
    requires NoFencedRun(text) && IsFencedRun(run) && Alternates(rest)
    ensures Alternates([text, run] + rest)
  {
    var parts := [text, run] + rest;
    forall k | 2 <= k < |parts|
      ensures k % 2 == 1 ==> IsFencedRun(parts[k])
      ensures k % 2 == 0 ==> NoFencedRun(parts[k])
    {
      assert parts[k] == rest[k - 2];
      assert (k - 2) % 2 == k % 2;
    }
  }

  /**
   * The parts alternate: even positions are plain text holding no fenced
   * run, odd positions are fenced runs (leftmost, shortest, in order).
   */
  lemma {:induction false} SplitAlternates(content: string)
    ensures Alternates(Split(content))
    decreases |content|
  {
    match FirstMatch(content, Backticks, Backticks)
    case None =>
    case Some((i, j)) =>
      SplitStep(content, i, j);
      SplitAlternates(content[j + 3..]);
      LeadingTextHasNoRun(content, i, j);
      FirstRunIsFenced(content, i, j);
      AlternatesCons(content[..i], content[i..j + 3], Split(content[j + 3..]));
  }

  /**
   * The run at `k + 1` is the match the regular expression reports on the
   * text that remains from part `k` on: it starts right after part `k`,
   * and it is the leftmost, shortest match there.
   */
  ghost predicate RunIsFirstMatch(parts: seq<string>, k: nat)
    requires k + 1 < |parts|
  {
    && |parts[k + 1]| >= 3
    && IsFirstMatch(Concat(parts[k..]), Backticks, Backticks, |parts[k]|, |parts[k]| + |parts[k + 1]| - 3)
  }

  ghost predicate RunsAreFirstMatches(parts: seq<string>) {
    forall k: nat :: k + 1 < |parts| && k % 2 == 0 ==> RunIsFirstMatch(parts, k)
  }

  lemma {:induction false} RunsAreFirstMatchesCons(text: string, run: string, rest: seq<string>)
    requires RunIsFirstMatch([text, run] + rest, 0)
    requires RunsAreFirstMatches(rest)
    ensures RunsAreFirstMatches([text, run] + rest)
  {
    var parts := [text, run] + rest;
    forall k: nat | 2 <= k && k + 1 < |parts| && k % 2 == 0
      ensures RunIsFirstMatch(parts, k)
    {
      assert parts[k..] == rest[k - 2..];
      assert parts[k] == rest[k - 2] && parts[k + 1] == rest[k - 1];
      assert RunIsFirstMatch(rest, k - 2);
    }
  }

  /**
   * The runs `Split` cuts out are exactly the leftmost, shortest matches,
   * taken one after the other; with `SplitAlternates` (the final part holds
   * no run) this pins the segmentation down.
   */
  lemma {:induction false} SplitRunsAreFirstMatches(content: string)
    ensures RunsAreFirstMatches(Split(content))
    decreases |content|
  {
    match FirstMatch(content, Backticks, Backticks)
    case None =>
    case Some((i, j)) =>
      SplitStep(content, i, j);
      var rest := content[j + 3..];
      SplitRunsAreFirstMatches(rest);
      SplitConcat(rest);
      FirstRunLeadsParts(content, i, j, Split(rest));
      RunsAreFirstMatchesCons(content[..i], content[i..j + 3], Split(rest));
  }

  /** The first step of the split: its run is the first match of the whole message. */
  lemma {:induction false} FirstRunLeadsParts(content: string, i: nat, j: nat, tail: seq<string>)
    requires IsFirstMatch(content, Backticks, Backticks, i, j)
    requires j + 3 <= |content| && Concat(tail) == content[j + 3..]
    ensures RunIsFirstMatch([content[..i], content[i..j + 3]] + tail, 0)
  {
    var parts := [content[..i], content[i..j + 3]] + tail;
    ConcatOfPair(content[..i], content[i..j + 3], tail);
    assert content[..i] + content[i..j + 3] + content[j + 3..] == content;
    assert parts[0..] == parts;
    assert |parts[0]| == i && |parts[1]| == j + 3 - i;
  }

  // -----------------------------------------------------------------------
  // Rendering of one part

  datatype Block = TextBlock(text: string) | CodeBlock(heading: string, body: string)

  /** `part.startsWith('```') && part.endsWith('```')` (the two may overlap). */
  predicate LooksLikeCode(part: string) {
    StartsWith(part, Backticks) && EndsWith(part, Backticks)
  }

  /** `part.slice(3, -3)`: empty when fewer than six characters. */
  function Inner(part: string): string {
    if |part| >= 6 then part[3..|part| - 3] else ""
  }

  /** `s.split('\n')`: the empty string splits into one empty line. */
  function Lines(s: string): (r: seq<string>)
    ensures |r| >= 1
    ensures forall k, m :: 0 <= k < |r| && 0 <= m < |r[k]| ==> r[k][m] != '\n'
    decreases |s|
  {
    match IndexOf(s, "\n", 0)
    case None => NoBreakBefore(s, |s|); [s]
    case Some(k) => NoBreakBefore(s, k); [s[..k]] + Lines(s[k + 1..])
  }

  /** No line break occurs before `k` when `"\n"` occurs nowhere before `k`. */
  lemma {:induction false} NoBreakBefore(s: string, k: nat)
    requires k <= |s|
    requires forall m: nat :: m < k ==> !OccursAt(s, "\n", m)
    ensures forall m :: 0 <= m < k ==> s[m] != '\n'
  {
    forall m | 0 <= m < k ensures s[m] != '\n' {
      assert !OccursAt(s, "\n", m);
      assert s[m..m + 1] == [s[m]];
    }
  }

  /** `lines.join('\n')`: the first line, then a line break before each further line. */
  function JoinLines(lines: seq<string>): (r: string)
    ensures |lines| == 0 ==> r == ""
    ensures |lines| > 0 ==> StartsWith(r, lines[0]) && |r| >= |lines[0]| + |lines| - 1
    ensures |lines| > 1 ==> OccursAt(r, "\n", |lines[0]|)
  {
    if |lines| == 0 then ""
    else if |lines| == 1 then lines[0]
    else
      var r := lines[0] + "\n" + JoinLines(lines[1..]);
      assert r[..|lines[0]|] == lines[0];
      assert r[|lines[0]|..|lines[0]| + 1] == "\n";
      r
  }

  /** Splitting on line breaks and joining again is the identity. */
  lemma {:induction false} JoinLinesOfLines(s: string)
    ensures JoinLines(Lines(s)) == s
    decreases |s|
  {
    match IndexOf(s, "\n", 0)
    case None =>
    case Some(k) =>
      var rest := Lines(s[k + 1..]);
      var lines := [s[..k]] + rest;
      assert Lines(s) == lines;
      assert lines[1..] == rest;
      assert JoinLines(lines) == s[..k] + "\n" + JoinLines(rest);
      JoinLinesOfLines(s[k + 1..]);
      assert s[k..k + 1] == "\n";
      assert s == s[..k] + "\n" + s[k + 1..];
  }

  /** The header of a code block: the language, or `code` when there is none. */
  function Label(lang: string): string {
    if lang == "" then "code" else lang
  }

  /** How `formatMessage` renders one part. */
  function Render(part: string): (r: Block)
    ensures r.CodeBlock? <==> LooksLikeCode(part)
    ensures r.TextBlock? ==> r.text == part
    ensures r.CodeBlock? ==> r.heading != "" && forall m :: 0 <= m < |r.heading| ==> r.heading[m] != '\n'
  {
    if LooksLikeCode(part) then
      var lines := Lines(Inner(part));
      CodeBlock(Label(lines[0]), JoinLines(lines[1..]))
    else TextBlock(part)
  }

  /** `formatMessage(content)`: one block per part of the split. */
  function FormatMessage(content: string): (blocks: seq<Block>)
    ensures |blocks| == |Split(content)|
  {
    var parts := Split(content);
    seq(|parts|, k requires 0 <= k < |parts| => Render(parts[k]))
  }

  /** Text without a line break is a single line. */
  lemma {:induction false} LinesWithoutBreak(s: string)
    requires forall m :: 0 <= m < |s| ==> s[m] != '\n'
    ensures Lines(s) == [s]
  {
    forall k: nat ensures !OccursAt(s, "\n", k) {
      if k + 1 <= |s| {
        assert s[k..k + 1] == [s[k]];
      }
    }
    assert IndexOf(s, "\n", 0).None?;
  }

  /** Text whose first line break is at `k` splits there. */
  lemma {:induction false} LinesAtFirstBreak(s: string, k: nat)
    requires k < |s| && s[k] == '\n'
    requires forall m :: 0 <= m < k ==> s[m] != '\n'
    ensures Lines(s) == [s[..k]] + Lines(s[k + 1..])
  {
    assert s[k..k + 1] == "\n";
    assert OccursAt(s, "\n", k);
    forall m: nat | m < k ensures !OccursAt(s, "\n", m) {
      assert s[m..m + 1] == [s[m]];
    }
  }

  /**
   * A code block's heading is the inner text up to its first line break
   * (all of it when there is none), `code` if that is empty; its body is
   * everything after that line break.
   */
  lemma {:induction false} CodeBlockLangAndBody(part: string)
    requires LooksLikeCode(part)
    ensures var inner := Inner(part);
      && Render(part).CodeBlock?
      && ((forall m :: 0 <= m < |inner| ==> inner[m] != '\n') ==> Render(part) == CodeBlock(Label(inner), ""))
      && (forall k :: 0 <= k < |inner| && inner[k] == '\n' && (forall m :: 0 <= m < k ==> inner[m] != '\n') ==>
            Render(part) == CodeBlock(Label(inner[..k]), inner[k + 1..]))
  {
    var inner := Inner(part);
    if forall m :: 0 <= m < |inner| ==> inner[m] != '\n' {
      LinesWithoutBreak(inner);
    }
    forall k | 0 <= k < |inner| && inner[k] == '\n' && (forall m :: 0 <= m < k ==> inner[m] != '\n')
      ensures Render(part) == CodeBlock(Label(inner[..k]), inner[k + 1..])
    {
      LinesAtFirstBreak(inner, k);
      JoinLinesOfLines(inner[k + 1..]);
    }
  }

  /** Three to five backticks and nothing else. */
  predicate IsBacktickRun(t: string) {
    3 <= |t| <= 5 && forall m :: 0 <= m < |t| ==> t[m] == '`'
  }

  /** A part of six or more characters that looks like code contains a fenced run. */
  lemma {:induction false} LongCodeLookIsRun(t: string)
    requires LooksLikeCode(t) && |t| >= 6
    ensures IsMatch(t, Backticks, Backticks, 0, |t| - 3)
  {
  }

  /** A text part without a fenced run looks like code exactly when it is a bare backtick run. */
  lemma {:induction false} TextLooksLikeCodeIff(t: string)
    requires NoFencedRun(t)
    ensures LooksLikeCode(t) <==> IsBacktickRun(t)
  {
    if LooksLikeCode(t) && |t| >= 6 {
      LongCodeLookIsRun(t);
    }
    if LooksLikeCode(t) && |t| < 6 {
      forall m | 0 <= m < |t| ensures t[m] == '`' {
        if m < 3 {
          assert t[m] == t[0..3][m];
        } else {
          assert t[m] == t[|t| - 3..|t|][m - (|t| - 3)];
        }
      }
    }
    if IsBacktickRun(t) {
      assert t[0..3] == Backticks by {
        assert t[0] == '`' && t[1] == '`' && t[2] == '`';
      }
      assert t[|t| - 3..|t|] == Backticks by {
        assert t[|t| - 3] == '`' && t[|t| - 2] == '`' && t[|t| - 1] == '`';
      }
    }
  }

  /**
   * Every captured run renders as a code block. A text part renders as a
   * code block only when it is a bare run of three to five backticks, and
   * then as an empty block labelled `code`; otherwise it is shown verbatim.
   */
  lemma {:induction false} FormatMessageKinds(content: string)
    ensures var parts := Split(content);
      forall k :: 0 <= k < |parts| ==>
        && (k % 2 == 1 ==> FormatMessage(content)[k].CodeBlock?)
        && (k % 2 == 0 && IsBacktickRun(parts[k]) ==> FormatMessage(content)[k] == CodeBlock("code", ""))
        && (k % 2 == 0 && !IsBacktickRun(parts[k]) ==> FormatMessage(content)[k] == TextBlock(parts[k]))
  {
    var parts := Split(content);
    SplitAlternates(content);
    assert Alternates(parts);
    forall k | 0 <= k < |parts|
      ensures k % 2 == 1 ==> FormatMessage(content)[k].CodeBlock?
      ensures k % 2 == 0 && IsBacktickRun(parts[k]) ==> FormatMessage(content)[k] == CodeBlock("code", "")
      ensures k % 2 == 0 && !IsBacktickRun(parts[k]) ==> FormatMessage(content)[k] == TextBlock(parts[k])
    {
      if k % 2 == 0 {
        TextLooksLikeCodeIff(parts[k]);
        if IsBacktickRun(parts[k]) {
          assert Lines("") == [""];
        }
      } else {
        assert |parts[k]| >= 6 && StartsWith(parts[k], Backticks) && EndsWith(parts[k], Backticks);
      }
    }
  }

  // -----------------------------------------------------------------------
  // Composer: handleSubmit, the send button and the Enter key

  /** The composer's state: the typed message and the selected image file (by name). */
  datatype Composer = Composer(message: string, imageFile: Option<string>)

  /** What a submission leaves behind, and the message it sends, if any. */
  datatype Submission = Submission(composer: Composer, sent: Option<string>)

  const EmptyComposer := Composer("", None)

  /** There is something to send: a message that is not blank, or an image. */
  predicate HasContent(c: Composer) {
    Trim(c.message) != "" || c.imageFile.Some?
  }

  /**
   * `handleSubmit`: without content nothing happens; otherwise the trimmed
   * message is sent (without any image URL) and the composer is cleared.
   */
  function HandleSubmit(c: Composer): (r: Submission)
    ensures r.sent.Some? <==> (!AllSpace(c.message) || c.imageFile.Some?)
    ensures r.sent.Some? ==> r.sent.value == Trim(c.message) && r.composer == EmptyComposer
    ensures r.sent.None? ==> r.composer == c
  {
    TrimEmptyIff(c.message);
    if !HasContent(c) then Submission(c, None)
    else Submission(EmptyComposer, Some(Trim(c.message)))
  }

  /** The send button is disabled while loading or when there is nothing to send. */
  predicate SendDisabled(c: Composer, isLoading: bool) {
    !HasContent(c) || isLoading
  }

  /** A click on the send button: a disabled button does nothing. */
  function ClickSend(c: Composer, isLoading: bool): (r: Submission)
    ensures r.sent.Some? <==> !SendDisabled(c, isLoading)
    ensures r.sent.None? ==> r.composer == c
  {
    if SendDisabled(c, isLoading) then Submission(c, None) else HandleSubmit(c)
  }

  /** A key press in the message box as written: Enter without Shift submits. */
  function KeyDown(c: Composer, key: string, shift: bool): (r: Submission)
    ensures key == "Enter" && !shift ==> r == HandleSubmit(c)
    ensures !(key == "Enter" && !shift) ==> r == Submission(c, None)
  {
    if key == "Enter" && !shift then HandleSubmit(c) else Submission(c, None)
  }

  /**
   * The Enter key bypasses the loading gate of the send button: while a
   * reply is pending, a typed message is still sent.
   */
  lemma {:induction false} EnterSendsWhileLoading(c: Composer)
    requires HasContent(c)
    ensures SendDisabled(c, true)
    ensures KeyDown(c, "Enter", false).sent == Some(Trim(c.message))
  {
    TrimEmptyIff(c.message);
  }

  /** The key press as evidently intended: Enter submits only when the button would. */
  function KeyDownGuarded(c: Composer, key: string, shift: bool, isLoading: bool): (r: Submission)
    ensures isLoading ==> r.sent.None?
    ensures r.sent.Some? ==> r.sent.value == Trim(c.message)
  {
    if key == "Enter" && !shift then ClickSend(c, isLoading) else Submission(c, None)
  }

  /** The guarded Enter key sends exactly when a click on the button would. */
  lemma {:induction false} KeyDownGuardedMatchesButton(c: Composer, isLoading: bool)
    ensures KeyDownGuarded(c, "Enter", false, isLoading) == ClickSend(c, isLoading)
    ensures KeyDownGuarded(c, "Enter", false, isLoading).sent.Some? <==> !isLoading && HasContent(c)
  {
  }
}
