/**
 * The client-side state of src/components/Playground.tsx as a state
 * machine: the session list, the current session, the messages of the
 * current session, the loading flag and the session-manager switch. Every
 * handler is one atomic transition; each backend call is replaced by the
 * outcome it reports (`Store`).
 */
module Playground {
  import opened Wrappers
  import opened Records
  import opened Text
  import opened Fence
  import opened Extraction

  datatype PlaygroundState = PlaygroundState(
    current: Option<Session>,
    sessions: seq<Session>,
    messages: seq<Message>,
    isLoading: bool,
    showSessionManager: bool)

  const Initial := PlaygroundState(None, [], [], false, false)

  /** The current session, when there is one, is an entry of the session list. */
  ghost predicate CurrentListed(st: PlaygroundState) {
    st.current.Some? ==> st.current.value in st.sessions
  }

  /**
   * `loadSessions`: with a signed-in user and a successful query the list
   * is replaced, and the first row becomes current if none was.
   */
  function LoadSessions(st: PlaygroundState, user: Option<string>, fetched: Store<seq<Session>>): (r: PlaygroundState)
    ensures user.None? || fetched.StoreError? ==> r == st
    ensures user.Some? && fetched.Saved? ==> r.sessions == fetched.row
    ensures st.current.Some? ==> r.current == st.current
    ensures st.current.None? && user.Some? && fetched.Saved? ==>
      (r.current.Some? <==> |fetched.row| > 0) && (r.current.Some? ==> r.current.value == fetched.row[0])
    ensures r.messages == st.messages && r.isLoading == st.isLoading && r.showSessionManager == st.showSessionManager
  {
    if user.None? || fetched.StoreError? then st
    else
      var rows := fetched.row;
      st.(sessions := rows,
          current := if st.current.None? && |rows| > 0 then Some(rows[0]) else st.current)
  }

  /** `loadMessages`: the messages of the current session replace the shown ones. */
  function LoadMessages(st: PlaygroundState, fetched: Store<seq<Message>>): (r: PlaygroundState)
    ensures st.current.None? || fetched.StoreError? ==> r == st
    ensures st.current.Some? && fetched.Saved? ==> r.messages == fetched.row
    ensures r.current == st.current && r.sessions == st.sessions
    ensures r.isLoading == st.isLoading && r.showSessionManager == st.showSessionManager
  {
    if st.current.None? || fetched.StoreError? then st
    else st.(messages := fetched.row)
  }

  /** `onSelectSession`: the chosen session becomes current and the manager closes. */
  function SelectSession(st: PlaygroundState, s: Session): (r: PlaygroundState)
    ensures r.current == Some(s) && !r.showSessionManager
    ensures r.sessions == st.sessions && r.messages == st.messages && r.isLoading == st.isLoading
  {
    st.(current := Some(s), showSessionManager := false)
  }

  /**
   * `createNewSession`: with a signed-in user and a successful insert, the
   * new session (with no generated code yet) goes first in the list,
   * becomes current, the messages are cleared and the manager closes.
   */
  function CreateNewSession(st: PlaygroundState, user: Option<string>, name: string,
                            description: Option<string>, inserted: Store<SessionRow>): (r: PlaygroundState)
    ensures user.None? || inserted.StoreError? ==> r == st
    ensures user.Some? && inserted.Saved? ==>
      && |r.sessions| == |st.sessions| + 1
      && r.sessions[1..] == st.sessions
      && r.current == Some(r.sessions[0])
      && r.sessions[0].id == inserted.row.id
      && r.sessions[0].name == name && r.sessions[0].description == description
      && r.sessions[0].generatedJsx.None? && r.sessions[0].generatedCss.None?
      && r.messages == []
      && !r.showSessionManager
    ensures r.isLoading == st.isLoading
  {
    if user.None? || inserted.StoreError? then st
    else
      var row := inserted.row;
      var s := Session(row.id, name, description, None, None, row.createdAt, row.updatedAt);
      st.(sessions := [s] + st.sessions, current := Some(s), messages := [], showSessionManager := false)
  }

  /** `prev.map(s => s.id === id ? { ...s, ...p } : s)` */
  function PatchMatching(sessions: seq<Session>, id: string, p: SessionPatch): (r: seq<Session>)
    ensures |r| == |sessions|
    ensures forall k :: 0 <= k < |r| && sessions[k].id != id ==> r[k] == sessions[k]
    ensures forall k :: 0 <= k < |r| && sessions[k].id == id ==> r[k] == Apply(sessions[k], p)
  {
    if |sessions| == 0 then []
    else
      var head := if sessions[0].id == id then Apply(sessions[0], p) else sessions[0];
      [head] + PatchMatching(sessions[1..], id, p)
  }

  /**
   * `updateSession`: after a successful write the patch is merged into the
   * current session and into the list entries that carry its id.
   */
  function UpdateSession(st: PlaygroundState, p: SessionPatch, written: Store<()>): (r: PlaygroundState)
    ensures st.current.None? || written.StoreError? ==> r == st
    ensures st.current.Some? && written.Saved? ==>
      && r.current == Some(Apply(st.current.value, p))
      && |r.sessions| == |st.sessions|
      && (forall k :: 0 <= k < |st.sessions| && st.sessions[k].id != st.current.value.id ==> r.sessions[k] == st.sessions[k])
      && (forall k :: 0 <= k < |st.sessions| && st.sessions[k].id == st.current.value.id ==> r.sessions[k] == Apply(st.sessions[k], p))
    ensures r.messages == st.messages && r.isLoading == st.isLoading && r.showSessionManager == st.showSessionManager
  {
    if st.current.None? || written.StoreError? then st
    else
      var cur := st.current.value;
      st.(current := Some(Apply(cur, p)), sessions := PatchMatching(st.sessions, cur.id, p))
  }

  /** `saveMessage`: a successfully inserted message is appended. */
  function SaveMessage(st: PlaygroundState, role: Role, content: string, imageUrl: Option<string>,
                       inserted: Store<MessageRow>): (r: PlaygroundState)
    ensures st.current.None? || inserted.StoreError? ==> r == st
    ensures st.current.Some? && inserted.Saved? ==>
      r.messages == st.messages + [Message(inserted.row.id, role, content, imageUrl, inserted.row.createdAt)]
    ensures r.current == st.current && r.sessions == st.sessions
    ensures r.isLoading == st.isLoading && r.showSessionManager == st.showSessionManager
  {
    if st.current.None? || inserted.StoreError? then st
    else st.(messages := st.messages + [Message(inserted.row.id, role, content, imageUrl, inserted.row.createdAt)])
  }

  /** The patch `onCodeChange(kind, code)` sends: one code field set to `code`. */
  function CodePatch(kind: CodeKind, code: string): SessionPatch {
    if kind == Jsx then SessionPatch(None, None, Some(Some(code)), None)
    else SessionPatch(None, None, None, Some(Some(code)))
  }

  /** `onCodeChange` of the code pane: an update of one generated-code field. */
  function OnCodeChange(st: PlaygroundState, kind: CodeKind, code: string, written: Store<()>): (r: PlaygroundState)
    ensures st.current.None? || written.StoreError? ==> r == st
    ensures st.current.Some? && written.Saved? ==>
      r.current == Some(if kind == Jsx then st.current.value.(generatedJsx := Some(code))
                        else st.current.value.(generatedCss := Some(code)))
    ensures st.current.Some? ==> |r.sessions| == |st.sessions|
    ensures st.current.Some? ==> forall k :: 0 <= k < |st.sessions| && st.sessions[k].id != st.current.value.id ==>
      r.sessions[k] == st.sessions[k]
    ensures st.current.Some? && written.Saved? ==>
      forall k :: 0 <= k < |st.sessions| && st.sessions[k].id == st.current.value.id ==>
        r.sessions[k] == if kind == Jsx then st.sessions[k].(generatedJsx := Some(code))
                         else st.sessions[k].(generatedCss := Some(code))
    ensures r.messages == st.messages && r.isLoading == st.isLoading && r.showSessionManager == st.showSessionManager
  {
    UpdateSession(st, CodePatch(kind, code), written)
  }

  /**
   * The update `handleSendMessage` issues after a reply: absent unless at
   * least one block was captured; otherwise each code field becomes its
   * capture or, when that is absent or empty, the value the current session
   * had when the send began.
   */
  function GeneratedPatch(reply: string, snapshot: Session): (r: Option<SessionPatch>)
    ensures r.None? <==> CaptureJsx(reply).None? && CaptureCss(reply).None?
    ensures r.Some? ==> r.value.name.None? && r.value.description.None?
    ensures r.Some? ==> r.value.generatedJsx.Some? && r.value.generatedCss.Some?
    ensures r.Some? && CaptureJsx(reply).Some? && CaptureJsx(reply).value != "" ==>
      r.value.generatedJsx == Some(CaptureJsx(reply))
    ensures r.Some? && (CaptureJsx(reply).None? || CaptureJsx(reply) == Some("")) ==>
      r.value.generatedJsx == Some(snapshot.generatedJsx)
    ensures r.Some? && CaptureCss(reply).Some? && CaptureCss(reply).value != "" ==>
      r.value.generatedCss == Some(CaptureCss(reply))
    ensures r.Some? && (CaptureCss(reply).None? || CaptureCss(reply) == Some("")) ==>
      r.value.generatedCss == Some(snapshot.generatedCss)
  {
    var jsx := CaptureJsx(reply);
    var css := CaptureCss(reply);
    if jsx.Some? || css.Some? then
      Some(SessionPatch(None, None, Some(Merge(jsx, snapshot.generatedJsx)), Some(Merge(css, snapshot.generatedCss))))
    else None
  }

  /**
   * The states `handleSendMessage` passes through: loading set, user
   * message saved, assistant reply saved, generated code merged, loading
   * cleared. Empty when there is no current session.
   */
  function SendSteps(st: PlaygroundState, content: string, imageUrl: Option<string>, reply: string,
                     userRow: Store<MessageRow>, replyRow: Store<MessageRow>, written: Store<()>): (trace: seq<PlaygroundState>)
    ensures st.current.None? <==> |trace| == 0
    ensures |trace| > 0 ==> |trace| == 5 && !trace[4].isLoading
    ensures forall k :: 0 <= k < |trace| - 1 ==> trace[k].isLoading
  {
    if st.current.None? then []
    else
      var snapshot := st.current.value;
      var s1 := st.(isLoading := true);
      var s2 := SaveMessage(s1, User, content, imageUrl, userRow);
      var s3 := SaveMessage(s2, Assistant, reply, None, replyRow);
      var s4 := match GeneratedPatch(reply, snapshot)
                case Some(p) => UpdateSession(s3, p, written)
                case None => s3;
      var s5 := s4.(isLoading := false);
      [s1, s2, s3, s4, s5]
  }

  /** The state once a send with the given assistant reply has completed. */
  function SendWith(st: PlaygroundState, content: string, imageUrl: Option<string>, reply: string,
                    userRow: Store<MessageRow>, replyRow: Store<MessageRow>, written: Store<()>): (r: PlaygroundState)
    ensures st.current.None? ==> r == st
    ensures st.current.Some? ==> !r.isLoading && r.showSessionManager == st.showSessionManager
  {
    var trace := SendSteps(st, content, imageUrl, reply, userRow, replyRow, written);
    if |trace| == 0 then st else trace[|trace| - 1]
  }

  /**
   * The reply `handleSendMessage` stores in place of a generation service:
   * a fixed text of 728 characters, written here as its pieces — a line of
   * prose, a markup block and a stylesheet block.
   */
  const MockReply: string := MockIntro + JsxOpen + MockJsx + Close + MockGap + CssOpen + MockCss + Close

  const MockIntro: string := "I'll help you create a React component. Here's a simple example:\n\n"

  /** The body of the fixed reply's markup block. */
  const MockJsx: string := @"const Button = ({ children, onClick, variant = 'primary' }) => {
  return (
    <button 
      className={`px-4 py-2 rounded transition-all ${
        variant === 'primary' 
          ? 'bg-blue-500 hover:bg-blue-600 text-white' 
          : 'bg-gray-200 hover:bg-gray-300 text-gray-800'
      }`}
      onClick={onClick}
    >
      {children}
    </button>
  );
};

export default Button;"

  const MockGap: string := "\n\n"

  /** The body of the fixed reply's stylesheet block. */
  const MockCss: string := @".button {
  font-family: 'Inter', sans-serif;
  font-weight: 500;
  border: none;
  cursor: pointer;
  display: inline-flex;
  align-items: center;
  justify-content: center;
}

.button:focus {
  outline: 2px solid #3b82f6;
  outline-offset: 2px;
}"

  /** The fixed reply holds a complete markup block and a complete stylesheet block. */
  lemma MockHasBothBlocks()
    ensures CaptureJsx(MockReply).Some? && CaptureCss(MockReply).Some?
  {
    BothBlocksPresent(MockIntro, MockJsx, MockGap, MockCss);
  }

  /** `handleSendMessage`: a send whose reply is always the fixed mock text. */
  function HandleSendMessage(st: PlaygroundState, content: string, imageUrl: Option<string>,
                             userRow: Store<MessageRow>, replyRow: Store<MessageRow>, written: Store<()>): (r: PlaygroundState)
    ensures st.current.None? ==> r == st
    ensures st.current.Some? ==> !r.isLoading && r.showSessionManager == st.showSessionManager
    ensures st.current.Some? ==>
      r.messages == st.messages
        + (if userRow.Saved? then [Message(userRow.row.id, User, content, imageUrl, userRow.row.createdAt)] else [])
        + (if replyRow.Saved? then [Message(replyRow.row.id, Assistant, MockReply, None, replyRow.row.createdAt)] else [])
    ensures st.current.Some? && written.Saved? ==> r.current == Some(MergedSession(st.current.value, MockReply))
    ensures st.current.Some? && written.StoreError? ==> r.current == st.current && r.sessions == st.sessions
  {
    if st.current.Some? then
      SendAppendsUserThenReply(st, content, imageUrl, MockReply, userRow, replyRow, written);
      MockHasBothBlocks();
      SendMergesCaptures(st, content, imageUrl, MockReply, userRow, replyRow, written);
      SendWith(st, content, imageUrl, MockReply, userRow, replyRow, written)
    else
      SendWith(st, content, imageUrl, MockReply, userRow, replyRow, written)
  }

  // -----------------------------------------------------------------------
  // Properties of the transitions

  /** The merged session a successful send produces from the session current when it began. */
  function MergedSession(cur: Session, reply: string): Session {
    cur.(generatedJsx := Merge(CaptureJsx(reply), cur.generatedJsx),
         generatedCss := Merge(CaptureCss(reply), cur.generatedCss))
  }

  /**
   * A send appends the user's message and then the reply, each only if
   * its insert succeeded, and never reorders or drops earlier messages.
   */
  lemma SendAppendsUserThenReply(st: PlaygroundState, content: string, imageUrl: Option<string>, reply: string,
                                 userRow: Store<MessageRow>, replyRow: Store<MessageRow>, written: Store<()>)
    requires st.current.Some?
    ensures SendWith(st, content, imageUrl, reply, userRow, replyRow, written).messages ==
      st.messages
      + (if userRow.Saved? then [Message(userRow.row.id, User, content, imageUrl, userRow.row.createdAt)] else [])
      + (if replyRow.Saved? then [Message(replyRow.row.id, Assistant, reply, None, replyRow.row.createdAt)] else [])
  {
    var trace := SendSteps(st, content, imageUrl, reply, userRow, replyRow, written);
    assert trace[4].messages == trace[2].messages;
  }

  /** A reply without any captured block leaves the current session and the list untouched. */
  lemma SendWithoutBlocksKeepsSessions(st: PlaygroundState, content: string, imageUrl: Option<string>, reply: string,
                                       userRow: Store<MessageRow>, replyRow: Store<MessageRow>, written: Store<()>)
    requires CaptureJsx(reply).None? && CaptureCss(reply).None?
    ensures SendWith(st, content, imageUrl, reply, userRow, replyRow, written).current == st.current
    ensures SendWith(st, content, imageUrl, reply, userRow, replyRow, written).sessions == st.sessions
  {
  }

  /**
   * After a send whose reply holds a block and whose update succeeds, the
   * current session and its list entries carry the merged code; all other
   * list entries are unchanged. A failed update changes no session.
   */
  lemma SendMergesCaptures(st: PlaygroundState, content: string, imageUrl: Option<string>, reply: string,
                           userRow: Store<MessageRow>, replyRow: Store<MessageRow>, written: Store<()>)
    requires st.current.Some?
    requires CaptureJsx(reply).Some? || CaptureCss(reply).Some?
    ensures var r := SendWith(st, content, imageUrl, reply, userRow, replyRow, written);
      && (written.Saved? ==> r.current == Some(MergedSession(st.current.value, reply)))
      && (written.Saved? ==> forall k :: 0 <= k < |st.sessions| && st.sessions[k].id == st.current.value.id ==>
            r.sessions[k] == st.sessions[k].(generatedJsx := MergedSession(st.current.value, reply).generatedJsx,
                                              generatedCss := MergedSession(st.current.value, reply).generatedCss))
      && (written.Saved? ==> forall k :: 0 <= k < |st.sessions| && st.sessions[k].id != st.current.value.id ==>
            r.sessions[k] == st.sessions[k])
      && (written.StoreError? ==> r.current == st.current && r.sessions == st.sessions)
  {
    var trace := SendSteps(st, content, imageUrl, reply, userRow, replyRow, written);
    assert trace[2].current == st.current && trace[2].sessions == st.sessions;
  }

  /**
   * A reply with a stylesheet block and no markup block leaves the markup
   * untouched and installs the stylesheet (when non-empty); symmetrically
   * for a markup-only reply.
   */
  lemma SingleBlockReplyKeepsOtherCode(st: PlaygroundState, content: string, imageUrl: Option<string>, reply: string,
                                       userRow: Store<MessageRow>, replyRow: Store<MessageRow>)
    requires st.current.Some?
    ensures CaptureJsx(reply).None? && CaptureCss(reply).Some? && CaptureCss(reply).value != "" ==>
      var r := SendWith(st, content, imageUrl, reply, userRow, replyRow, Saved(()));
      && r.current.Some?
      && r.current.value.generatedJsx == st.current.value.generatedJsx
      && r.current.value.generatedCss == CaptureCss(reply)
    ensures CaptureCss(reply).None? && CaptureJsx(reply).Some? && CaptureJsx(reply).value != "" ==>
      var r := SendWith(st, content, imageUrl, reply, userRow, replyRow, Saved(()));
      && r.current.Some?
      && r.current.value.generatedCss == st.current.value.generatedCss
      && r.current.value.generatedJsx == CaptureJsx(reply)
  {
    if CaptureJsx(reply).Some? || CaptureCss(reply).Some? {
      SendMergesCaptures(st, content, imageUrl, reply, userRow, replyRow, Saved(()));
    }
  }

  /** `PatchMatching` is idempotent because it keeps every identifier. */
  lemma PatchMatchingIdempotent(sessions: seq<Session>, id: string, p: SessionPatch)
    ensures PatchMatching(PatchMatching(sessions, id, p), id, p) == PatchMatching(sessions, id, p)
  {
    var once := PatchMatching(sessions, id, p);
    var twice := PatchMatching(once, id, p);
    forall k | 0 <= k < |sessions| ensures twice[k] == once[k] {
      if sessions[k].id == id {
        ApplyIdempotent(sessions[k], p);
      }
    }
  }

  /** Repeating a successful update with the same patch changes nothing more. */
  lemma UpdateSessionIdempotent(st: PlaygroundState, p: SessionPatch)
    ensures UpdateSession(UpdateSession(st, p, Saved(())), p, Saved(())) == UpdateSession(st, p, Saved(()))
  {
    if st.current.Some? {
      ApplyIdempotent(st.current.value, p);
      PatchMatchingIdempotent(st.sessions, st.current.value.id, p);
    }
  }

  /** Loading the same rows again changes nothing more. */
  lemma LoadMessagesIdempotent(st: PlaygroundState, fetched: Store<seq<Message>>)
    ensures LoadMessages(LoadMessages(st, fetched), fetched) == LoadMessages(st, fetched)
  {
  }

  /** Loading messages keeps the current session listed. */
  lemma LoadMessagesKeepsCurrentListed(st: PlaygroundState, fetched: Store<seq<Message>>)
    requires CurrentListed(st)
    ensures CurrentListed(LoadMessages(st, fetched))
  {
  }

  /** Creating a session lists the new current session. */
  lemma CreateKeepsCurrentListed(st: PlaygroundState, user: Option<string>, name: string,
                                 description: Option<string>, inserted: Store<SessionRow>)
    requires CurrentListed(st)
    ensures CurrentListed(CreateNewSession(st, user, name, description, inserted))
  {
  }

  /** A successful update patches the current session and its list entry alike. */
  lemma UpdateKeepsCurrentListed(st: PlaygroundState, p: SessionPatch, written: Store<()>)
    requires CurrentListed(st)
    ensures CurrentListed(UpdateSession(st, p, written))
  {
    if st.current.Some? && written.Saved? {
      var k :| 0 <= k < |st.sessions| && st.sessions[k] == st.current.value;
      assert UpdateSession(st, p, written).sessions[k] == Apply(st.current.value, p);
    }
  }

  /** An edit in the code pane keeps the current session listed. */
  lemma OnCodeChangeKeepsCurrentListed(st: PlaygroundState, kind: CodeKind, code: string, written: Store<()>)
    requires CurrentListed(st)
    ensures CurrentListed(OnCodeChange(st, kind, code, written))
  {
    UpdateKeepsCurrentListed(st, CodePatch(kind, code), written);
  }

  /** The page opens with no session, so the invariant holds from the start. */
  lemma InitialCurrentListed()
    ensures CurrentListed(Initial) && !Initial.isLoading && !Initial.showSessionManager
  {
  }

  /** A send keeps the current session listed. */
  lemma SendKeepsCurrentListed(st: PlaygroundState, content: string, imageUrl: Option<string>, reply: string,
                               userRow: Store<MessageRow>, replyRow: Store<MessageRow>, written: Store<()>)
    requires CurrentListed(st)
    ensures CurrentListed(SendWith(st, content, imageUrl, reply, userRow, replyRow, written))
  {
    if st.current.Some? {
      var trace := SendSteps(st, content, imageUrl, reply, userRow, replyRow, written);
      assert CurrentListed(trace[2]);
      match GeneratedPatch(reply, st.current.value)
      case Some(p) => UpdateKeepsCurrentListed(trace[2], p, written);
      case None =>
    }
  }

  /** Loading the list with no session selected leaves the current session listed. */
  lemma LoadSessionsSelectsListed(st: PlaygroundState, user: Option<string>, fetched: Store<seq<Session>>)
    requires st.current.None?
    ensures CurrentListed(LoadSessions(st, user, fetched))
  {
  }
}
