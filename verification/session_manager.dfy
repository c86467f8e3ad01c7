/**
 * src/components/SessionManager.tsx: the search filter over the session
 * list, the empty-state heading, and the create-session form.
 */
module SessionManager {
  import opened Wrappers
  import opened Text
  import opened Records
  import Playground

  /**
   * A session is kept when its lower-cased name contains the lower-cased
   * query, or it has a description whose lower-cased text does.
   */
  function Matches(s: Session, query: string): (r: bool)
    ensures query == "" ==> r
    ensures s.description.None? ==> (r <==> Includes(Lower(s.name), Lower(query)))
  {
    IncludesEmpty(Lower(s.name));
    assert Lower("") == "";
    || Includes(Lower(s.name), Lower(query))
    || (s.description.Some? && Includes(Lower(s.description.value), Lower(query)))
  }

  /** The search ignores the letter case of a session's name and description. */
  lemma {:induction false} MatchesIgnoresSessionCase(s: Session, query: string)
    ensures Matches(s.(name := Lower(s.name)), query) == Matches(s, query)
    ensures s.description.Some? ==>
      Matches(s.(description := Some(Lower(s.description.value))), query) == Matches(s, query)
  {
    LowerIdempotent(s.name);
    if s.description.Some? {
      LowerIdempotent(s.description.value);
    }
  }

  /** `sessions.filter(...)`: the matching sessions, in their original order. */
  function Filter(sessions: seq<Session>, query: string): (r: seq<Session>)
    ensures forall s :: s in r <==> s in sessions && Matches(s, query)
    ensures |r| <= |sessions|
  {
    if |sessions| == 0 then []
    else (if Matches(sessions[0], query) then [sessions[0]] else []) + Filter(sessions[1..], query)
  }

  /** A matching session keeps every one of its copies; any other session keeps none. */
  lemma {:induction false} FilterKeepsCopies(sessions: seq<Session>, query: string, s: Session)
    ensures multiset(Filter(sessions, query))[s] == if Matches(s, query) then multiset(sessions)[s] else 0
    decreases |sessions|
  {
    if |sessions| > 0 {
      FilterKeepsCopies(sessions[1..], query, s);
      var head := if Matches(sessions[0], query) then [sessions[0]] else [];
      assert Filter(sessions, query) == head + Filter(sessions[1..], query);
      assert sessions == [sessions[0]] + sessions[1..];
      assert multiset(sessions) == multiset{sessions[0]} + multiset(sessions[1..]);
    }
  }

  /** `a` is `b` with some entries deleted. */
  ghost predicate IsSubsequence<T>(a: seq<T>, b: seq<T>)
    decreases |b|
  {
    || |a| == 0
    || (&& |b| > 0
        && ((a[0] == b[0] && IsSubsequence(a[1..], b[1..])) || IsSubsequence(a, b[1..])))
  }

  /** Filtering deletes entries but never reorders them. */
  lemma {:induction false} FilterIsSubsequence(sessions: seq<Session>, query: string)
    ensures IsSubsequence(Filter(sessions, query), sessions)
    decreases |sessions|
  {
    if |sessions| > 0 {
      FilterIsSubsequence(sessions[1..], query);
      var r := Filter(sessions, query);
      if Matches(sessions[0], query) {
        assert r[0] == sessions[0] && r[1..] == Filter(sessions[1..], query);
      } else {
        assert r == Filter(sessions[1..], query);
      }
    }
  }

  /** The empty query keeps every session. */
  lemma {:induction false} FilterEmptyQuery(sessions: seq<Session>)
    ensures Filter(sessions, "") == sessions
    decreases |sessions|
  {
    if |sessions| > 0 {
      IncludesEmpty(Lower(sessions[0].name));
      assert Lower("") == "";
      FilterEmptyQuery(sessions[1..]);
    }
  }

  /** Filtering a filtered list again changes nothing. */
  lemma {:induction false} FilterIdempotent(sessions: seq<Session>, query: string)
    ensures Filter(Filter(sessions, query), query) == Filter(sessions, query)
    decreases |sessions|
  {
    if |sessions| > 0 {
      FilterIdempotent(sessions[1..], query);
      var rest := Filter(sessions[1..], query);
      if Matches(sessions[0], query) {
        var once := [sessions[0]] + rest;
        assert Filter(sessions, query) == once;
        assert once[0] == sessions[0] && once[1..] == rest;
        assert Filter(once, query) == [sessions[0]] + Filter(rest, query);
      } else {
        assert Filter(sessions, query) == rest;
      }
    }
  }

  /** Only the lower-cased query matters: its letter case never changes the result. */
  lemma {:induction false} FilterIgnoresQueryCase(sessions: seq<Session>, q1: string, q2: string)
    requires Lower(q1) == Lower(q2)
    ensures Filter(sessions, q1) == Filter(sessions, q2)
    decreases |sessions|
  {
    if |sessions| > 0 {
      FilterIgnoresQueryCase(sessions[1..], q1, q2);
    }
  }

  /** A query and its lower-cased form select the same sessions. */
  lemma LowerQuerySameFilter(sessions: seq<Session>, query: string)
    ensures Filter(sessions, Lower(query)) == Filter(sessions, query)
  {
    LowerIdempotent(query);
    FilterIgnoresQueryCase(sessions, Lower(query), query);
  }

  /** The heading shown instead of the grid when no session is listed. */
  function EmptyStateHeading(sessions: seq<Session>, query: string): (r: Option<string>)
    ensures r.Some? <==> |Filter(sessions, query)| == 0
    ensures |sessions| == 0 ==> r == Some("No Sessions Yet")
    ensures |sessions| > 0 && r.Some? ==> r == Some("No Matching Sessions")
  {
    if |Filter(sessions, query)| == 0 then
      Some(if |sessions| == 0 then "No Sessions Yet" else "No Matching Sessions")
    else None
  }

  /** With an empty query a non-empty list is always shown, never "No Matching Sessions". */
  lemma EmptyQueryShowsGrid(sessions: seq<Session>)
    requires |sessions| > 0
    ensures EmptyStateHeading(sessions, "").None?
  {
    FilterEmptyQuery(sessions);
  }

  // -----------------------------------------------------------------------
  // Create-session form

  datatype CreateForm = CreateForm(name: string, description: string, isCreating: bool)

  /** The arguments passed to `onCreateSession`. */
  datatype CreateRequest = CreateRequest(name: string, description: Option<string>)

  datatype CreateOutcome = CreateOutcome(form: CreateForm, request: Option<CreateRequest>)

  const ClearedForm := CreateForm("", "", false)

  /**
   * `handleCreateSession`: a blank name does nothing; otherwise the trimmed
   * name and the trimmed description (absent when blank) are passed on, and
   * the form is cleared and closed.
   */
  function HandleCreateSession(f: CreateForm): (r: CreateOutcome)
    ensures r.request.Some? <==> !AllSpace(f.name)
    ensures r.request.None? ==> r.form == f
    ensures r.request.Some? ==>
      && r.form == ClearedForm
      && r.request.value.name == Trim(f.name)
      && (r.request.value.description.None? <==> AllSpace(f.description))
      && (r.request.value.description.Some? ==> r.request.value.description.value == Trim(f.description))
  {
    TrimEmptyIff(f.name);
    TrimEmptyIff(f.description);
    if Trim(f.name) == "" then CreateOutcome(f, None)
    else
      var description := if Trim(f.description) == "" then None else Some(Trim(f.description));
      CreateOutcome(ClearedForm, Some(CreateRequest(Trim(f.name), description)))
  }

  /**
   * A session created through the form has a non-blank name with no
   * surrounding white space, and a description that is absent or trimmed.
   */
  lemma CreatedSessionNameIsTrimmed(st: Playground.PlaygroundState, user: string, f: CreateForm, row: SessionRow)
    requires HandleCreateSession(f).request.Some?
    ensures var req := HandleCreateSession(f).request.value;
      var r := Playground.CreateNewSession(st, Some(user), req.name, req.description, Saved(row));
      && r.current.Some?
      && r.current.value.name != ""
      && Trim(r.current.value.name) == r.current.value.name
      && (r.current.value.description.Some? ==> Trim(r.current.value.description.value) == r.current.value.description.value)
  {
    TrimEmptyIff(f.name);
    TrimIdempotent(f.name);
    TrimIdempotent(f.description);
  }

  /** Picking a card from the filtered grid keeps the current session listed. */
  lemma SelectFromFilterKeepsCurrentListed(st: Playground.PlaygroundState, query: string, s: Session)
    requires s in Filter(st.sessions, query)
    ensures Playground.CurrentListed(Playground.SelectSession(st, s))
  {
  }
}
