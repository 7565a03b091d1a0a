# Agent workshop: verified model of the deterministic scaffolding

The repository wires three demo applications to a hosted agent framework: a
birthday-planner agent, a local event-management system (an organizer agent
delegating to a planner and to a calendar agent that reaches a tool server)
and a deployable variant of it with a remote caller. All reasoning and
routing happen in hosted models. What remains deterministic, and is modelled
and proved here, is:

- **The remote caller's reply extraction** (`CallRemoteAgent`,
  `call_remote_agent.dfy`). `get_text_from_final_response` is modelled as the
  method `GetTextFromFinalResponse`, with the same loop, the same `elif` and
  the same early `break`, and its nested part loop is `ScanPartsForText`. It is
  proved against `FinalText`. That function says: the text of the first
  `FINAL_RESPONSE` event with outputs whose first output part has text;
  otherwise the last `text` among the parts of the events scanned by the
  `elif`; otherwise `"Agent did not provide a text response."`. The main
  routine's collection of `response_events` is `CollectResponseEvents`. Its
  reverse scan for the last `model`-role dictionary whose first part has text
  is `SelectReply`, proved against `ModelReply`.
- **The calendar stub** (`CalendarTools`, `calendar_tools.dfy`):
  `create_calendar_event` as a pure function returning a three-field record.
  The interpreter's string hash is a parameter `hash: string -> int`: it is
  deterministic and otherwise unknown. `Decimal` (`decimal.dfy`) models the
  `str` of the hash inside the f-string and proves rendering injective.
- **The turn helper** (`Turn`, `turn.dfy`). `interact` appears twice and
  `interact_with_agent` once, with identical logic. In the model:
  - the session service is a class holding a map from (app, user, session)
    to sessions;
  - `Interact` gets or creates the session, then `DrainStream` folds over
    the runner's events, keeping the reply of the last final response that
    has parts;
  - a failure of the stream gives `"Error: " + message`.

  Each copy has its own module (`LocalAgentSystem`, `RemoteAgentSystem`,
  `BirthdayPlannerAgent`) with a method that delegates to `Turn.Interact`
  under the same contract.
- `Scan` (`scan.dfy`) defines "first/last element that qualifies" once. The
  extractors are stated in terms of it. `Wrappers` holds `Option`.

The interaction loop is sometimes described as returning the *first* text
payload it finds. The code keeps reassigning `final_response_text`, so the
*last* qualifying final response wins. The model follows the code.

## Model

| member | source | states |
|---|---|---|
| CallRemoteAgent.GetTextFromFinalResponse | event_management_remote_agent_system/call_remote_agent.py:26-39 | the loop with its early break returns exactly FinalText(events) |
| CallRemoteAgent.ScanPartsForText | event_management_remote_agent_system/call_remote_agent.py:36-38 | the part loop leaves the text of the last part that has a "text" key, or the text it started with when no part has one |
| CallRemoteAgent.FinalTextDefault | event_management_remote_agent_system/call_remote_agent.py:28-39 | with no qualifying final response and no text in any scanned part (the empty list included), the result is "Agent did not provide a text response." |
| CallRemoteAgent.FinalTextFirstFinal | event_management_remote_agent_system/call_remote_agent.py:30-34 | the text of the first output part of the first qualifying final response is the result |
| CallRemoteAgent.FinalTextIgnoresRest | event_management_remote_agent_system/call_remote_agent.py:33-34 | once a qualifying final response occurs, appending any events changes nothing |
| CallRemoteAgent.FinalTextFallback | event_management_remote_agent_system/call_remote_agent.py:35-38 | with no qualifying final response, the result is the text of the last part with text over all scanned events, in stream and part order, else the default |
| CallRemoteAgent.FinalTextSkipsTextlessFinal | event_management_remote_agent_system/call_remote_agent.py:30-35 | a FINAL_RESPONSE with outputs but no text in its first output part can be removed without changing the result, whatever its own top-level parts hold |
| CallRemoteAgent.FinalTextOccurs | event_management_remote_agent_system/call_remote_agent.py:28-39 | the result is the default message or a text value that occurs in some event of the input |
| CallRemoteAgent.ScanFromSuffix | event_management_remote_agent_system/call_remote_agent.py:29-38 | resuming the loop at any index with any current text yields FinalText of the remaining events with that text as the default |
| CallRemoteAgent.CollectResponseEvents | event_management_remote_agent_system/call_remote_agent.py:66-71 | response_events is the stream itself: every event exactly once, in stream order |
| CallRemoteAgent.SelectReply | event_management_remote_agent_system/call_remote_agent.py:73-84 | the reverse loop with its break returns exactly ModelReply(events) |
| CallRemoteAgent.ReplyFromStream | event_management_remote_agent_system/call_remote_agent.py:66-84 | collecting and then selecting yields ModelReply of the stream |
| CallRemoteAgent.ModelReplyLast | event_management_remote_agent_system/call_remote_agent.py:75-84 | the first-part text of the last dictionary with parts, role "model" and text in its first part is the reply |
| CallRemoteAgent.ModelReplyDefault | event_management_remote_agent_system/call_remote_agent.py:73-80 | with no such event the reply is "Could not extract a clear text reply." |
| CallRemoteAgent.ModelReplySkip | event_management_remote_agent_system/call_remote_agent.py:76-82 | a non-dictionary, a non-model event or one without first-part text can be removed without changing the reply |
| CallRemoteAgent.ModelReplyFromModel | event_management_remote_agent_system/call_remote_agent.py:76-83 | a reply other than the default is the first-part text of a model-role dictionary of the list |
| CalendarTools.CreateCalendarEvent | event_management_remote_agent_system/src/tools/calendar_tools.py:10-33 | status is "success" for every input; event_id is "mcp_event_" followed by the decimal rendering of hash(title + date + time), and parsing that suffix gives the hash back; message quotes the title |
| CalendarTools.EventIdDependsOnKey | event_management_remote_agent_system/src/tools/calendar_tools.py:27 | calls whose title + date + time concatenations are equal give equal identifiers, whatever the duration and description |
| CalendarTools.EventIdConcatenationCollision | event_management_remote_agent_system/src/tools/calendar_tools.py:27 | title "ab" with date "c" and title "a" with date "bc" give the same identifier |
| CalendarTools.EventIdsEqualIffHashesEqual | event_management_remote_agent_system/src/tools/calendar_tools.py:27 | two identifiers are equal exactly when the hashes of their keys are equal |
| Decimal.ParseIntToString | event_management_remote_agent_system/src/tools/calendar_tools.py:27 | parsing the decimal rendering of an integer gives the integer back |
| Decimal.IntToStringInjective | event_management_remote_agent_system/src/tools/calendar_tools.py:27 | two integers render alike exactly when they are equal |
| Turn.EnsureSession | event_management_local_agent_system/agent.py:47-54 | after get-or-create the key is present, all earlier sessions are kept unchanged, and a new session is added only for a missing key |
| Turn.EnsureSessionIdempotent | event_management_local_agent_system/agent.py:47-54 | a second get-or-create with the same triple changes nothing: the session is created at most once |
| Turn.SessionService.GetSession | event_management_local_agent_system/agent.py:47-49 | the lookup returns the stored session for the triple, or none |
| Turn.SessionService.CreateSession | event_management_local_agent_system/agent.py:50-53 | the new session is stored under the triple |
| Turn.DrainStream | event_management_local_agent_system/agent.py:57-72 | a failed stream yields "Error: " + message, overriding any earlier text; otherwise the result is FoldReply(events) |
| Turn.Interact | event_management_local_agent_system/agent.py:35-72 | the session map becomes EnsureSession of the old one, and the reply is that of DrainStream |
| Turn.FoldReplyDefault | event_management_local_agent_system/agent.py:57-63 | with no final event that has content and parts, the reply is "Agent did not provide a response." |
| Turn.FoldReplyLast | event_management_local_agent_system/agent.py:63-66 | the last qualifying final event decides the reply: its first part's text, or "Agent sent non-text content." when that text is None or empty |
| Turn.FoldReplySkip | event_management_local_agent_system/agent.py:63 | non-final events and final events without content or parts can be removed without changing the reply |
| Turn.FoldReplyRange | event_management_local_agent_system/agent.py:57-66 | the reply is one of the two fixed messages or the non-empty first-part text of a qualifying event |
| LocalAgentSystem.Interact | event_management_local_agent_system/agent.py:35-72 | this copy: session get-or-create, the last-final-response fold, the error short-circuit |
| RemoteAgentSystem.Interact | event_management_remote_agent_system/src/agent.py:27-64 | this copy: the same session update and reply as Turn.Interact |
| BirthdayPlannerAgent.InteractWithAgent | birthday_planner_agent/agent.py:21-58 | this copy: the same session update and reply as Turn.Interact |

## Left out

- Agent definitions and wiring (`LlmAgent`, instruction strings, `AgentTool`,
  `root_agent`): declarative configuration; routing is done by a hosted model.
- The calendar agent's tool-server connection, the tool server's registration
  and transport, and the deployment script: network and protocol plumbing.
- Module-level initialisation (`initialize_root_agent`, the global
  `root_agent`/`exit_stack`, `nest_asyncio`, `asyncio.run`) and the scripted
  conversations of the entry points.
- Asynchrony: `run_async` and `stream_query` become finite sequences. The
  runner's failure is placed after the events it has yielded; nothing follows
  it.
- The user message built from `query`: it only feeds the runner, whose reply
  is the stream parameter, so `query` is not a parameter of the model.
- The session's turn history: it is kept by the framework.
- Logging, printing, `load_dotenv` and `vertexai.init`: I/O and environment.
- The remote main routine's outer `try`/`except`, which only logs.
- Python's per-process hash randomisation: `hash` is an unknown deterministic
  function, and nothing is claimed about its values across processes.
- Exceptions from `get_session` or `create_session`: the source does not
  catch them, and they are not modelled.
- Event shapes the helpers would crash on, or that are not strings:
  - a non-dictionary given to `get_text_from_final_response`;
  - a `"text"` value that is not a string (e.g. None) in a remote event;
  - an `llm_response` that is present but None;
  - a top-level `parts` value that is present but not a list (it is treated
    as absent, which matches the `isinstance` test of the helper but not the
    unguarded `parts[0]` of the main routine).
- A present but falsy `outputs` is folded into "no outputs", which is how the
  helper's truthiness test treats it.
