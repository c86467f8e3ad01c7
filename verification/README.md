# AI component playground — a Dafny model of its client-side core

The playground is a React single-page application. A signed-in user keeps
named sessions. Each session holds a chat with an assistant and the latest
generated React component: a JSX source and a CSS source. The model covers
the logic between the user's actions and the session state:

- how an assistant reply is searched for fenced ```` ```jsx ```` and
  ```` ```css ```` blocks, and how the captures are merged into the current
  session's code (`Fence`, `Extraction`);
- the playground's state transitions: load sessions and messages, select,
  create, update, save a message, edit code and send a message
  (`Records`, `Playground`);
- how the chat pane splits a message into text and code blocks, and when
  the composer sends (`ChatSidebar`);
- the session browser's search filter, empty-state heading and create
  form (`SessionManager`);
- the header's title editor (`PlaygroundHeader`);
- the code pane's download archive, visible tabs and edit flag (`CodeTabs`).

Shared helpers: `Wrappers` (`Option`, `Result`), and `Text`. `Text` covers
substring search, ECMAScript `trim` over its exact white-space and
line-terminator set, and an ASCII lower-casing.

Persistence calls are not executed. Each one becomes a parameter of type
`Store<T>`: either `Saved(row)`, carrying the identifier and timestamps the
backend assigned, or `StoreError`, which leaves the state as it was, just as
the component's `if (error) return` does. The signed-in user is an
`Option<string>` parameter. A regular expression `open([\s\S]*?)close` is
modelled as its leftmost, then shortest, match (`Fence.IsFirstMatch`).
`String.prototype.split` with a capture group is modelled as alternating
text and matched runs (`ChatSidebar.Split`).

The send handler calls no generation service: the reply it stores is always
the fixed text `Playground.MockReply`. Only fences opened by ```` ```jsx ````
and ```` ```css ```` are searched for.

## Model

| member | source | states |
|---|---|---|
| Fence.MatchFrom | src/components/Playground.tsx:208-209 | the regex search from a position returns the leftmost match start at or after it, with the body ending at the first closing fence after the opening one; None exactly when no start at or after it matches |
| Fence.FirstMatch | src/components/Playground.tsx:208-209 | `String.match` with a lazy group: the result is the leftmost-then-shortest match, and None iff no match exists anywhere |
| Fence.FirstMatchUnique | src/components/Playground.tsx:208-209 | the leftmost-shortest match is unique, so the capture is well defined |
| Fence.BodyHasNoClose | src/components/Playground.tsx:208-209 | a lazy capture never contains the closing delimiter |
| Fence.WrappedBodyIsFirstMatch | src/components/Playground.tsx:208-209 | a body without the closing fence, wrapped in the opening and closing fences after text holding no opening fence, is exactly the first match |
| Extraction.Capture | src/components/Playground.tsx:208-209 | `match(...)?.[1]`: None iff no fenced block exists; otherwise the body of the first match |
| Extraction.CaptureJsx | src/components/Playground.tsx:208 | the markup regex: None iff no markup block exists anywhere; otherwise a body without a closing fence that, re-wrapped in its fences, occurs in the reply |
| Extraction.CaptureCss | src/components/Playground.tsx:209 | the stylesheet regex: None iff no stylesheet block exists anywhere; otherwise a body without a closing fence that, re-wrapped in its fences, occurs in the reply |
| Extraction.CaptureIsFencedPiece | src/components/Playground.tsx:208-209 | the capture holds no "\n```", and the capture re-wrapped in its fences occurs in the reply |
| Extraction.CaptureOfWrapped | src/components/Playground.tsx:208-209 | a fence-free body wrapped in fences after text holding no opening fence is captured verbatim |
| Extraction.CaptureOfLeading | src/components/Playground.tsx:208-209 | a reply that starts with a fenced block yields exactly that block's body |
| Extraction.FenceRoundTrip | src/components/Playground.tsx:208-209 | capturing a wrapped body gives the body back, for both the jsx and the css regex |
| Extraction.ExtractTwoBlocks | src/components/Playground.tsx:208-209 | two blocks with different unbordered opening fences: when neither body contains the closing fence "\n```", the leading text holds no first opening fence, and the second opening fence does not occur before the second block, each regex captures exactly its own block's body |
| Extraction.ExtractBothBlocks | src/components/Playground.tsx:167-209 | a reply shaped like the mock (leading prose, jsx block, gap, css block, anything after) yields the jsx body and the css body exactly, when neither body contains the closing fence "\n```", the prose holds no "```jsx\n" and no "```css\n" occurs before the css block |
| Extraction.ClosedBlockCaptured | src/components/Playground.tsx:208-209 | any text holding an opening fence followed later by a closing fence yields a capture |
| Extraction.BothBlocksPresent | src/components/Playground.tsx:208-211 | a reply holding a closed jsx block and then a closed css block yields both captures, so the update is sent |
| Extraction.NoFenceNoCapture | src/components/Playground.tsx:208-209 | a reply without a closing fence captures nothing |
| Extraction.Merge | src/components/Playground.tsx:213-214 | `capture \|\| previous`: a non-empty capture wins; an absent or empty capture keeps the previous code |
| Records.Apply | src/components/Playground.tsx:129-130 | the object spread `{ ...s, ...updates }`: keys in the patch take the patch's value, all other fields and the id and timestamps are kept |
| Records.ApplyIdempotent | src/components/Playground.tsx:129-130 | merging the same patch twice equals merging it once |
| Records.ApplyNoChanges | src/components/Playground.tsx:129-130 | the empty patch changes nothing |
| Playground.LoadSessions | src/components/Playground.tsx:51-71 | no user or a failed query changes nothing; otherwise the list becomes the fetched rows, and the first row is selected only when nothing was selected |
| Playground.LoadMessages | src/components/Playground.tsx:73-88 | without a current session or on error nothing changes; otherwise the messages become the fetched rows; the loading flag and the browser flag are never touched |
| Playground.LoadMessagesIdempotent | src/components/Playground.tsx:73-88 | loading the same rows twice equals loading them once |
| Playground.LoadMessagesKeepsCurrentListed | src/components/Playground.tsx:73-88 | loading messages keeps the current session in the session list |
| Playground.SelectSession | src/components/Playground.tsx:226-229 | the chosen session becomes current and the browser closes; the lists and the loading flag are kept |
| Playground.CreateNewSession | src/components/Playground.tsx:90-114 | no user or a failed insert changes nothing; otherwise the new row is prepended, made current, the messages cleared and the browser closed |
| Playground.PatchMatching | src/components/Playground.tsx:130 | every session whose id is the current id receives the patch, every other one is unchanged, and the length is kept |
| Playground.UpdateSession | src/components/Playground.tsx:116-131 | no current session or a failed write changes nothing; otherwise the patch is merged into the current session and into its list entry |
| Playground.SaveMessage | src/components/Playground.tsx:133-155 | without a current session or on error nothing changes; otherwise exactly one message with the given role, content and image URL is appended |
| Playground.SendSteps | src/components/Playground.tsx:157-220 | a send with no current session does nothing; otherwise it passes through five states, loading in every one but the last |
| Playground.SendWith | src/components/Playground.tsx:157-220 | a send without a current session is a no-op; a finished send is no longer loading |
| Playground.GeneratedPatch | src/components/Playground.tsx:208-216 | no update unless a block was captured; otherwise an update of both code fields only, each the non-empty capture or else the value the session had when the send began |
| Playground.MockHasBothBlocks | src/components/Playground.tsx:167-209 | the fixed reply holds a complete jsx block and a complete css block, so both regexes capture |
| Playground.HandleSendMessage | src/components/Playground.tsx:157-220 | the send with the fixed reply: no current session means no change; otherwise it ends not loading, the earlier messages followed by the user's message and then the fixed reply (each only if saved); a successful write makes the code the merge of the reply's captures with the code the session had; a failed write keeps the session and the list |
| Playground.SendAppendsUserThenReply | src/components/Playground.tsx:157-205 | a send appends the user message and then the reply, each only if its insert succeeded, after the earlier messages |
| Playground.SendWithoutBlocksKeepsSessions | src/components/Playground.tsx:211-216 | a reply with no captured block leaves the current session and the session list unchanged |
| Playground.SendMergesCaptures | src/components/Playground.tsx:211-216 | when a block is captured and the write succeeds, the current session's code becomes the merge of the captures with the code it had when the send began |
| Playground.SingleBlockReplyKeepsOtherCode | src/components/Playground.tsx:212-215 | a reply holding only a css block (or only a jsx block) keeps the other code field as it was |
| Playground.OnCodeChange | src/components/Playground.tsx:271-275 | an edit of one tab, when written, sets exactly that code field of the current session and of every list entry with the current id; without a session or on a failed write nothing changes; the other list entries, the messages and the flags are kept |
| Playground.OnCodeChangeKeepsCurrentListed | src/components/Playground.tsx:271-275 | an edit in the code pane keeps the current session in the session list |
| Playground.InitialCurrentListed | src/components/Playground.tsx:31-35 | the page opens with no session, not loading and the browser closed, so the current session is trivially listed |
| Playground.PatchMatchingIdempotent | src/components/Playground.tsx:130 | applying the same patch to the list twice equals applying it once |
| Playground.UpdateSessionIdempotent | src/components/Playground.tsx:116-131 | repeating a successful update leaves the state as one update does |
| Playground.CreateKeepsCurrentListed | src/components/Playground.tsx:110-111 | after a create the current session, if any, is in the session list |
| Playground.UpdateKeepsCurrentListed | src/components/Playground.tsx:129-130 | an update keeps the current session's entry in the list in step with it |
| Playground.SendKeepsCurrentListed | src/components/Playground.tsx:157-220 | a send keeps the current session in the session list |
| Playground.LoadSessionsSelectsListed | src/components/Playground.tsx:65-70 | from no selection, loading selects a session that is in the new list |
| ChatSidebar.Split | src/components/ChatSidebar.tsx:48 | a split with one capture group yields an odd number of parts |
| ChatSidebar.SplitConcat | src/components/ChatSidebar.tsx:48 | joining the parts gives back the message |
| ChatSidebar.LeadingTextHasNoRun | src/components/ChatSidebar.tsx:48 | the text before the first backtick run holds no complete run |
| ChatSidebar.FirstRunIsFenced | src/components/ChatSidebar.tsx:48 | the first matched piece starts and ends with three backticks and contains no inner triple |
| ChatSidebar.SplitAlternates | src/components/ChatSidebar.tsx:48 | parts alternate: even parts hold no backtick run, odd parts are backtick runs |
| ChatSidebar.SplitRunsAreFirstMatches | src/components/ChatSidebar.tsx:48 | each run is the leftmost, shortest match of the text that remains from the part before it on |
| ChatSidebar.Lines | src/components/ChatSidebar.tsx:53 | `split('\n')` yields at least one line, and no line holds a line break |
| ChatSidebar.JoinLines | src/components/ChatSidebar.tsx:54 | `join('\n')` starts with the first line, followed by a line break when there is a second line |
| ChatSidebar.Render | src/components/ChatSidebar.tsx:50-72 | a part renders as a code block iff it starts and ends with three backticks; a text block shows the part unchanged; a code block's label is never empty and holds no line break |
| ChatSidebar.JoinLinesOfLines | src/components/ChatSidebar.tsx:53-54 | splitting at newlines and joining with newlines gives back the text |
| ChatSidebar.LinesWithoutBreak | src/components/ChatSidebar.tsx:53 | text without a newline splits into itself alone |
| ChatSidebar.LinesAtFirstBreak | src/components/ChatSidebar.tsx:53 | the first line ends at the first newline, and the rest are the lines after it |
| ChatSidebar.CodeBlockLangAndBody | src/components/ChatSidebar.tsx:52-59 | a code part shows the text up to the first newline as its label, or "code" when that is empty, and the remaining lines as its body |
| ChatSidebar.TextLooksLikeCodeIff | src/components/ChatSidebar.tsx:51 | a text part passes the starts-and-ends-with-``` test iff it is a run of 3 to 5 backticks |
| ChatSidebar.FormatMessage | src/components/ChatSidebar.tsx:46-74 | one rendered block per part of the split |
| ChatSidebar.FormatMessageKinds | src/components/ChatSidebar.tsx:50-72 | odd parts render as code blocks; even parts render as text, except a bare run of 3 to 5 backticks, which renders as an empty "code" block |
| ChatSidebar.HandleSubmit | src/components/ChatSidebar.tsx:28-37 | sends iff the message is not blank or an image is attached; sends the trimmed message and clears the composer; otherwise leaves it untouched |
| ChatSidebar.ClickSend | src/components/ChatSidebar.tsx:212-216 | the button sends exactly when it is enabled |
| ChatSidebar.KeyDown | src/components/ChatSidebar.tsx:185-190 | Enter without Shift submits; any other key leaves the composer untouched |
| ChatSidebar.EnterSendsWhileLoading | src/components/ChatSidebar.tsx:185-190 | for every composer with content (the message "hi", say) the button is disabled while a reply is pending, yet Enter still sends the trimmed message |
| ChatSidebar.KeyDownGuarded | src/components/ChatSidebar.tsx:212-216 | a keyboard send never happens while loading and always sends the trimmed message |
| ChatSidebar.KeyDownGuardedMatchesButton | src/components/ChatSidebar.tsx:212-216 | the guarded Enter behaves exactly like the button: it sends iff not loading and the composer has content |
| SessionManager.Matches | src/components/SessionManager.tsx:50-51 | the empty query matches every session; a session without a description matches iff its lower-cased name contains the lower-cased query |
| SessionManager.MatchesIgnoresSessionCase | src/components/SessionManager.tsx:50-51 | lower-casing a session's name or description does not change whether it matches |
| SessionManager.Filter | src/components/SessionManager.tsx:49-52 | keeps exactly the sessions whose name or description contains the query, ignoring case |
| SessionManager.FilterKeepsCopies | src/components/SessionManager.tsx:49-52 | a matching session keeps all of its copies, any other session none |
| SessionManager.FilterIsSubsequence | src/components/SessionManager.tsx:49-52 | the filtered list keeps the original order |
| SessionManager.FilterEmptyQuery | src/components/SessionManager.tsx:49-52 | an empty query shows every session |
| SessionManager.FilterIdempotent | src/components/SessionManager.tsx:49-52 | filtering the filtered list again changes nothing |
| SessionManager.FilterIgnoresQueryCase | src/components/SessionManager.tsx:49-52 | two queries with the same lower-case form select the same sessions |
| SessionManager.LowerQuerySameFilter | src/components/SessionManager.tsx:50-51 | lower-casing the query first does not change the result |
| SessionManager.EmptyStateHeading | src/components/SessionManager.tsx:141-147 | a heading shows iff nothing matches: "No Sessions Yet" with no sessions, "No Matching Sessions" otherwise |
| SessionManager.EmptyQueryShowsGrid | src/components/SessionManager.tsx:141-146 | with at least one session and an empty query the grid shows, not a heading |
| SessionManager.HandleCreateSession | src/components/SessionManager.tsx:54-61 | creates iff the name is not blank, with the trimmed name and the trimmed description or none when blank, then clears the form; otherwise the form is kept |
| SessionManager.CreatedSessionNameIsTrimmed | src/components/SessionManager.tsx:57 | the session created from the form carries the trimmed name, which is not empty |
| SessionManager.SelectFromFilterKeepsCurrentListed | src/components/SessionManager.tsx:165-169 | choosing a card from the filtered grid selects a session in the list |
| PlaygroundHeader.DisplayedTitle | src/components/PlaygroundHeader.tsx:96 | the title shown is the session's name when it is non-empty, and exactly "No Session" without a session or with an empty name |
| PlaygroundHeader.StartEditing | src/components/PlaygroundHeader.tsx:45-48 | editing opens with the current name in the buffer, or empty without a session |
| PlaygroundHeader.Type | src/components/PlaygroundHeader.tsx:78 | typing replaces the buffer and keeps the editing flag |
| PlaygroundHeader.SaveTitle | src/components/PlaygroundHeader.tsx:50-55 | saving closes the editor and renames iff the buffer is not blank and a session is current; the rename patch sets only the trimmed name |
| PlaygroundHeader.CancelEditing | src/components/PlaygroundHeader.tsx:57-60 | cancelling closes the editor, clears the buffer and sends nothing |
| PlaygroundHeader.KeyDown | src/components/PlaygroundHeader.tsx:80-83 | Enter saves, Escape cancels, any other key does nothing |
| PlaygroundHeader.BlankTitleNeverUpdates | src/components/PlaygroundHeader.tsx:51 | a blank buffer never produces an update, and the editor still closes |
| PlaygroundHeader.SaveTitleRenamesCurrent | src/components/PlaygroundHeader.tsx:50-53 | a non-blank save, passed to the playground's update, gives the current session the trimmed name |
| PlaygroundHeader.EditThenSaveTrimsName | src/components/PlaygroundHeader.tsx:45-53 | opening the editor and saving at once issues a rename to the trimmed current name |
| CodeTabs.ComponentSource | src/components/CodeTabs.tsx:46-48 | the archived component always contains "export default" and starts with the JSX; it equals the JSX iff that already contained the marker, and otherwise is the JSX followed by exactly "\n\nexport default Component;" |
| CodeTabs.ComponentSourceIdempotent | src/components/CodeTabs.tsx:46-48 | preparing an already prepared component changes nothing |
| CodeTabs.DownloadCode | src/components/CodeTabs.tsx:35-72 | fails with "No code to download" iff both sources are empty; otherwise the archive holds Component.tsx iff JSX is non-empty, Component.css iff CSS is non-empty, and always the README |
| CodeTabs.ArchivedComponentExports | src/components/CodeTabs.tsx:44-51 | a non-empty JSX is archived as a file that has a default export |
| CodeTabs.VisibleTabs | src/components/CodeTabs.tsx:92-171 | a tab shows iff its source is non-empty, JSX first; no tab at all, and so the placeholder, iff both are empty |
| CodeTabs.StartEditing | src/components/CodeTabs.tsx:82-85 | editing turns on for the chosen tab |
| CodeTabs.SaveEdit | src/components/CodeTabs.tsx:87-90 | saving turns editing off and remembers the tab |
| CodeTabs.InitialEditorClosed | src/components/CodeTabs.tsx:21-22 | the pane opens with no editor showing for any tab |
| CodeTabs.StartEditingOpensOneEditor | src/components/CodeTabs.tsx:171-225 | after starting to edit a tab, an editor shows for that tab and no other |
| CodeTabs.SaveEditClosesEditors | src/components/CodeTabs.tsx:87-90 | after saving no tab shows an editor |

## Left out

- Persistence (src/components/Playground.tsx:54-58, 76-80, 93-103, 119-122, 135-146): the database queries, their filters and ordering are not modelled. Each call is an outcome parameter, and the fetched rows are taken as given.
- The backend's refresh of `updated_at` on update is not modelled; the client never reads it back either.
- Asynchrony: each handler is one atomic step. The 2-second timer, overlapping sends and a selection change during a send are not modelled. The send merges against the session current when it began, as the closure in the source does.
- Playground.HandleSendMessage: states that the fixed reply holds both blocks and that the code becomes their merge, but not the captured text itself. Deciding that neither body contains a closing fence means scanning the 728-character literal, which the verifier does not do. `Extraction.ExtractBothBlocks` gives the captured bodies for every reply of the mock's shape whose pieces meet its conditions.
- The image picker only records the chosen file. The image is never uploaded, and the image URL is never filled in by the chat pane.
- Text.Lower: folds only the ASCII letters A–Z, while `toLowerCase` folds all of Unicode, so `SessionManager.Filter` is exact only for ASCII names and queries.
- Clipboard copy, toasts, the `copiedTab` indicator, the zip encoding, `saveAs` and the "Failed to download code" path (an exception from the zip library) are not modelled.
- Records.SessionPatch: carries only name, description and the two code fields. No caller passes the id or the timestamps in a partial update.
- Authentication, the landing and index pages, the live preview, syntax colouring and date formatting are not modelled.
- The generation service under supabase/functions is not part of this model; no client code calls it.
- Playground.LoadSessions: keeps a current session that is missing from the fetched list, as the source does, so the "current session is listed" invariant is stated only for the other transitions.

## Findings

| source | as written | input that shows it | evidently intended | confidence | as-written member | corrected member |
|---|---|---|---|---|---|---|
| src/components/ChatSidebar.tsx:185-190 | Enter without Shift calls `handleSubmit`, which checks only for content, not `isLoading` | message "hi", no image, a reply pending (`isLoading` true), key Enter | Enter sends only when the Send button (line 215) is enabled, so no second message is sent while a reply is pending | medium, not executed | ChatSidebar.EnterSendsWhileLoading | ChatSidebar.KeyDownGuarded |
