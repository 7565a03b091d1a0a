/** The birthday planner's interaction helper: one copy of the shared turn. */
module BirthdayPlannerAgent {
  import opened Turn

  /** interact_with_agent(app_name, user_id, session_id, query, session_service, runner) */
  method InteractWithAgent(appName: string, userId: string, sessionId: string, service: SessionService, stream: EventStream)
    returns (reply: string)
    modifies service
    ensures service.sessions == EnsureSession(old(service.sessions), SessionKey(appName, userId, sessionId))
    ensures stream.failure.Some? ==> reply == ErrorPrefix + stream.failure.value
    ensures stream.failure.None? ==> reply == FoldReply(stream.events)
  {
    reply := Turn.Interact(appName, userId, sessionId, service, stream);
  }
}
