/**
 * One user turn against an agent runner, as the three interaction helpers
 * perform it: look the conversation's session up, create it when it is
 * missing, drain the runner's event stream keeping the text of the last
 * final response, and turn a failure of the stream into an error string.
 *
 * The runner itself is outside the model: its answer to the user's message
 * is the `EventStream` parameter, a finite list of events possibly ended by
 * a failure that carries the exception's message.
 */
module Turn {
  import opened Wrappers
  import opened Scan

  const NoResponse := "Agent did not provide a response."
  const NonTextContent := "Agent sent non-text content."
  const ErrorPrefix := "Error: "

  /** A content part; its text may be None. */
  datatype Part = Part(text: Option<string>)

  /** An event's content; a parts value of None is the empty list here. */
  datatype Content = Content(parts: seq<Part>)

  /** A runner event: whether the framework calls it a final response, and its content. */
  datatype Event = Event(isFinalResponse: bool, content: Option<Content>)

  /** What the runner yields for one message: events, then perhaps a raised exception. */
  datatype EventStream = EventStream(events: seq<Event>, failure: Option<string>)

  datatype SessionKey = SessionKey(appName: string, userId: string, sessionId: string)

  /** A stored session; its turn history belongs to the framework and is not modelled. */
  datatype Session = Session(appName: string, userId: string, id: string)

  function NewSession(key: SessionKey): Session {
    Session(key.appName, key.userId, key.sessionId)
  }

  // ---------------------------------------------------------------------
  // Sessions
  // ---------------------------------------------------------------------

  /** The sessions after a get-or-create for `key`. */
  function EnsureSession(sessions: map<SessionKey, Session>, key: SessionKey): (r: map<SessionKey, Session>)
    ensures r.Keys == sessions.Keys + {key}
    ensures forall k :: k in sessions ==> r[k] == sessions[k]
    ensures key !in sessions ==> r[key] == NewSession(key)
  {
    if key in sessions then sessions else sessions[key := NewSession(key)]
  }

  /** A second get-or-create for the same key changes nothing: the session
      is created at most once and then reused. */
  lemma EnsureSessionIdempotent(sessions: map<SessionKey, Session>, key: SessionKey)
    ensures EnsureSession(EnsureSession(sessions, key), key) == EnsureSession(sessions, key)
  {
  }

  /** The in-memory session service, keyed by (app, user, session). */
  class SessionService {
    var sessions: map<SessionKey, Session>

    constructor ()
      ensures sessions == map[]
    {
      sessions := map[];
    }

    method GetSession(appName: string, userId: string, sessionId: string) returns (session: Option<Session>)
      ensures var key := SessionKey(appName, userId, sessionId);
              session == if key in sessions then Some(sessions[key]) else None
    {
      var key := SessionKey(appName, userId, sessionId);
      session := if key in sessions then Some(sessions[key]) else None;
    }

    method CreateSession(appName: string, userId: string, sessionId: string) returns (session: Session)
      modifies this
      ensures session == NewSession(SessionKey(appName, userId, sessionId))
      ensures sessions == old(sessions)[SessionKey(appName, userId, sessionId) := session]
    {
      session := NewSession(SessionKey(appName, userId, sessionId));
      sessions := sessions[SessionKey(appName, userId, sessionId) := session];
    }
  }

  // ---------------------------------------------------------------------
  // The reply
  // ---------------------------------------------------------------------

  /** A final response with content and at least one part updates the reply. */
  predicate Qualifies(e: Event) {
    e.isFinalResponse && e.content.Some? && |e.content.value.parts| > 0
  }

  /** `parts[0].text or "Agent sent non-text content."` */
  function ReplyOf(e: Event): string
    requires Qualifies(e)
  {
    var text := e.content.value.parts[0].text;
    if text.Some? && text.value != "" then text.value else NonTextContent
  }

  /** The reply after draining `events` without failure. */
  function FoldReply(events: seq<Event>): string {
    match LastMatch(events, Qualifies)
    case Some(e) => ReplyOf(e)
    case None => NoResponse
  }

  /** One more event: it replaces the reply if it qualifies. */
  lemma FoldReplyStep(events: seq<Event>, i: nat)
    requires i < |events|
    ensures FoldReply(events[..i + 1]) == if Qualifies(events[i]) then ReplyOf(events[i]) else FoldReply(events[..i])
  {
    assert events[..i + 1] == events[..i] + [events[i]];
    LastMatchAppend(events[..i], events[i], Qualifies);
  }

  /** The helper's loop over the stream, and its exception handler. */
  method DrainStream(stream: EventStream) returns (finalResponseText: string)
    ensures stream.failure.Some? ==> finalResponseText == ErrorPrefix + stream.failure.value
    ensures stream.failure.None? ==> finalResponseText == FoldReply(stream.events)
  {
    var events := stream.events;
    finalResponseText := NoResponse;
    var i := 0;
    while i < |events|
      invariant 0 <= i <= |events|
      invariant finalResponseText == FoldReply(events[..i])
    {
      var event := events[i];
      FoldReplyStep(events, i);
      if event.isFinalResponse && event.content.Some? && |event.content.value.parts| > 0 {
        var text := event.content.value.parts[0].text;
        finalResponseText := if text.Some? && text.value != "" then text.value else NonTextContent;
      }
      i := i + 1;
    }
    assert events[..i] == events;
    if stream.failure.Some? {
      return ErrorPrefix + stream.failure.value;
    }
  }

  /**
   * interact(app_name, user_id, session_id, query, session_service, runner):
   * get or create the session, then drain the runner's stream.
   */
  method Interact(appName: string, userId: string, sessionId: string, service: SessionService, stream: EventStream)
    returns (reply: string)
    modifies service
    ensures service.sessions == EnsureSession(old(service.sessions), SessionKey(appName, userId, sessionId))
    ensures stream.failure.Some? ==> reply == ErrorPrefix + stream.failure.value
    ensures stream.failure.None? ==> reply == FoldReply(stream.events)
  {
    var session := service.GetSession(appName, userId, sessionId);
    if session.None? {
      var created := service.CreateSession(appName, userId, sessionId);
      session := Some(created);
    }
    reply := DrainStream(stream);
  }

  // Properties of the reply

  /** Without a qualifying final response the default message is the reply. */
  lemma FoldReplyDefault(events: seq<Event>)
    requires forall k :: 0 <= k < |events| ==> !Qualifies(events[k])
    ensures FoldReply(events) == NoResponse
  {
  }

  /** The last qualifying final response decides the reply: its first part's
      text, or the non-text message when that text is None or empty. */
  lemma FoldReplyLast(events: seq<Event>, k: nat)
    requires k < |events| && Qualifies(events[k])
    requires forall j :: k < j < |events| ==> !Qualifies(events[j])
    ensures var text := events[k].content.value.parts[0].text;
            FoldReply(events) == if text.Some? && text.value != "" then text.value else NonTextContent
  {
    LastMatchAt(events, Qualifies, k);
  }

  /** Events that are not final responses with parts never affect the reply. */
  lemma FoldReplySkip(a: seq<Event>, e: Event, b: seq<Event>)
    requires !Qualifies(e)
    ensures FoldReply(a + [e] + b) == FoldReply(a + b)
  {
    LastMatchSkip(a, e, b, Qualifies);
  }

  /** A reply is one of the two fixed messages or the non-empty first-part
      text of a final response in the stream. */
  lemma FoldReplyRange(events: seq<Event>)
    ensures var r := FoldReply(events);
            || r == NoResponse
            || r == NonTextContent
            || (r != "" && exists i :: 0 <= i < |events| && Qualifies(events[i]) && events[i].content.value.parts[0].text == Some(r))
  {
    match LastIndex(events, Qualifies)
    case Some(k) =>
      var text := events[k].content.value.parts[0].text;
      if text.Some? && text.value != "" {
        assert text == Some(FoldReply(events));
      }
    case None =>
  }
}
