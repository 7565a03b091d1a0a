/** The deployable multi-agent system's interaction helper: one copy of the shared turn. */
module RemoteAgentSystem {
  import opened Turn

  /** interact(app_name, user_id, session_id, query, session_service, runner) */
  method Interact(appName: string, userId: string, sessionId: string, service: SessionService, stream: EventStream)
    returns (reply: string)
    modifies service
    ensures service.sessions == EnsureSession(old(service.sessions), SessionKey(appName, userId, sessionId))
    ensures stream.failure.Some? ==> reply == ErrorPrefix + stream.failure.value
    ensures stream.failure.None? ==> reply == FoldReply(stream.events)
  {
    reply := Turn.Interact(appName, userId, sessionId, service, stream);
  }
}
