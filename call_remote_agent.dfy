/**
 * The remote caller: the helper that picks a reply out of the event records
 * of a hosted agent, and the reply selection that the caller's main routine
 * runs over the events it has streamed.
 *
 * Events are JSON-like dictionaries. A dictionary key that may be missing is
 * an Option; a part is a dictionary whose "text" key may be missing.
 */
module CallRemoteAgent {
  import opened Wrappers
  import opened Scan

  const FinalResponseType := "FINAL_RESPONSE"
  const ModelRole := "model"
  /** Returned by the helper when no event supplies any text. */
  const NoTextResponse := "Agent did not provide a text response."
  /** Returned by the main routine when no model event carries text. */
  const NoClearReply := "Could not extract a clear text reply."

  /** A part dictionary; `text` is None when it has no "text" key. */
  datatype Part = Part(text: Option<string>)

  /** A truthy "outputs" value, reduced to `outputs["llm_response"]["parts"]`
      (a missing "llm_response" or "parts" gives the empty list). */
  datatype Outputs = Outputs(llmResponseParts: seq<Part>)

  /**
   * An event dictionary: its "type", its "outputs" (None when missing or
   * falsy), its top-level "parts" (None when missing or not a list) and its
   * "role".
   */
  datatype Event = Event(kind: Option<string>, outputs: Option<Outputs>, parts: Option<seq<Part>>, role: Option<string>)

  /** A streamed item: a dictionary, or any other value. */
  datatype StreamItem = Dict(event: Event) | NonDict

  predicate HasText(p: Part) {
    p.text.Some?
  }

  // ---------------------------------------------------------------------
  // The helper that extracts the text of the final response
  // ---------------------------------------------------------------------

  /** Events that take the first branch of the helper's loop. */
  predicate IsFinalWithOutputs(e: Event) {
    e.kind == Some(FinalResponseType) && e.outputs.Some?
  }

  /** A final response whose first output part has text: it ends the helper's scan. */
  predicate QualifiesFinal(e: Event) {
    IsFinalWithOutputs(e) && |e.outputs.value.llmResponseParts| > 0 && HasText(e.outputs.value.llmResponseParts[0])
  }

  function FinalOutputText(e: Event): string
    requires QualifiesFinal(e)
  {
    e.outputs.value.llmResponseParts[0].text.value
  }

  /** The parts the helper's second branch walks for one event. */
  function ScannedPartsOf(e: Event): seq<Part> {
    if !IsFinalWithOutputs(e) && e.parts.Some? then e.parts.value else []
  }

  /** All parts the second branch walks, in stream order and part order. */
  function ScannedParts(events: seq<Event>): seq<Part>
    decreases |events|
  {
    if events == [] then [] else ScannedPartsOf(events[0]) + ScannedParts(events[1..])
  }

  /** The text of the last part that has one, or `fallback` when none has. */
  function LastText(parts: seq<Part>, fallback: string): string
    decreases |parts|
  {
    if parts == [] then fallback
    else if HasText(parts[|parts| - 1]) then parts[|parts| - 1].text.value
    else LastText(parts[..|parts| - 1], fallback)
  }

  /**
   * What the helper returns: the text of the first qualifying final response
   * if there is one; otherwise the text of the last scanned part that has
   * one; otherwise the default message.
   */
  function FinalText(events: seq<Event>): string {
    match FirstMatch(events, QualifiesFinal)
    case Some(e) => FinalOutputText(e)
    case None => LastText(ScannedParts(events), NoTextResponse)
  }

  /** How one event that does not end the scan changes the current text. */
  function StepText(e: Event, current: string): string {
    if IsFinalWithOutputs(e) || e.parts.None? then current else LastText(e.parts.value, current)
  }

  /** The helper's loop from index `i` on, with `current` as the text so far. */
  function ScanFrom(events: seq<Event>, i: nat, current: string): string
    requires i <= |events|
    decreases |events| - i
  {
    if i == |events| then current
    else if QualifiesFinal(events[i]) then FinalOutputText(events[i])
    else ScanFrom(events, i + 1, StepText(events[i], current))
  }

  lemma LastTextAppend(parts: seq<Part>, p: Part, fallback: string)
    ensures LastText(parts + [p], fallback) == if HasText(p) then p.text.value else LastText(parts, fallback)
  {
    assert (parts + [p])[..|parts|] == parts;
  }

  /** The later text wins: scanning `b` after `a` is scanning `b` from where `a` left off. */
  lemma {:induction false} LastTextConcat(a: seq<Part>, b: seq<Part>, fallback: string)
    ensures LastText(a + b, fallback) == LastText(b, LastText(a, fallback))
    decreases |b|
  {
    if b == [] {
      assert a + b == a;
    } else {
      var b', p := b[..|b| - 1], b[|b| - 1];
      assert b == b' + [p];
      assert a + b == (a + b') + [p];
      LastTextAppend(a + b', p, fallback);
      LastTextAppend(b', p, LastText(a, fallback));
      LastTextConcat(a, b', fallback);
    }
  }

  /** LastText is the text of the last part, among all, that has text. */
  lemma {:induction false} LastTextIsLastMatch(parts: seq<Part>, fallback: string)
    ensures LastText(parts, fallback) == match LastMatch(parts, HasText) case Some(p) => p.text.value case None => fallback
    decreases |parts|
  {
    if parts != [] {
      var init, p := parts[..|parts| - 1], parts[|parts| - 1];
      assert parts == init + [p];
      LastMatchAppend(init, p, HasText);
      LastTextIsLastMatch(init, fallback);
    }
  }

  /** The parts scanned in a concatenation are those of each half, in order. */
  lemma {:induction false} ScannedPartsConcat(a: seq<Event>, b: seq<Event>)
    ensures ScannedParts(a + b) == ScannedParts(a) + ScannedParts(b)
    decreases |a|
  {
    if a == [] {
      assert a + b == b;
    } else {
      assert (a + b)[0] == a[0] && (a + b)[1..] == a[1..] + b;
      ScannedPartsConcat(a[1..], b);
    }
  }

  /** Every scanned part is a part of a scanned event. */
  lemma {:induction false} ScannedPartsFrom(events: seq<Event>, m: nat)
    requires m < |ScannedParts(events)|
    ensures exists i, j :: 0 <= i < |events| && 0 <= j < |ScannedPartsOf(events[i])| && ScannedPartsOf(events[i])[j] == ScannedParts(events)[m]
    decreases |events|
  {
    var head := ScannedPartsOf(events[0]);
    if m < |head| {
      assert ScannedParts(events)[m] == head[m];
    } else {
      ScannedPartsFrom(events[1..], m - |head|);
      var i, j :| 0 <= i < |events[1..]| && 0 <= j < |ScannedPartsOf(events[1..][i])| && ScannedPartsOf(events[1..][i])[j] == ScannedParts(events[1..])[m - |head|];
      assert events[i + 1] == events[1..][i];
      assert ScannedPartsOf(events[i + 1])[j] == ScannedParts(events)[m];
    }
  }

  /** The step of the scan is LastText over the event's scanned parts. */
  lemma StepTextIsLastText(e: Event, current: string)
    requires !QualifiesFinal(e)
    ensures StepText(e, current) == LastText(ScannedPartsOf(e), current)
  {
  }

  /** The scan from index `i` with text `current` so far is FinalText of the
      remaining events, with `current` in place of the default message. */
  lemma {:induction false} ScanFromSuffix(events: seq<Event>, i: nat, current: string)
    requires i <= |events|
    ensures ScanFrom(events, i, current)
         == match FirstMatch(events[i..], QualifiesFinal)
            case Some(e) => FinalOutputText(e)
            case None => LastText(ScannedParts(events[i..]), current)
    decreases |events| - i
  {
    var rest := events[i..];
    if i == |events| {
      assert rest == [];
    } else {
      assert rest[0] == events[i] && rest[1..] == events[i + 1..];
      FirstMatchCons(rest, QualifiesFinal);
      if !QualifiesFinal(events[i]) {
        ScanFromSuffix(events, i + 1, StepText(events[i], current));
        StepTextIsLastText(events[i], current);
        LastTextConcat(ScannedPartsOf(events[i]), ScannedParts(events[i + 1..]), current);
      }
    }
  }

  /** The helper's inner loop: every part with text replaces the current text. */
  method ScanPartsForText(parts: seq<Part>, current: string) returns (finalText: string)
    ensures finalText == LastText(parts, current)
  {
    finalText := current;
    var j := 0;
    while j < |parts|
      invariant 0 <= j <= |parts|
      invariant finalText == LastText(parts[..j], current)
    {
      LastTextAppend(parts[..j], parts[j], current);
      assert parts[..j + 1] == parts[..j] + [parts[j]];
      if parts[j].text.Some? {
        finalText := parts[j].text.value;
      }
      j := j + 1;
    }
    assert parts[..j] == parts;
  }

  /** The helper: scan the events, stop at the first qualifying final response. */
  method GetTextFromFinalResponse(events: seq<Event>) returns (finalText: string)
    ensures finalText == FinalText(events)
  {
    finalText := NoTextResponse;
    var i := 0;
    while i < |events|
      invariant 0 <= i <= |events|
      invariant ScanFrom(events, i, finalText) == ScanFrom(events, 0, NoTextResponse)
    {
      var event := events[i];
      if event.kind == Some(FinalResponseType) && event.outputs.Some? {
        var parts := event.outputs.value.llmResponseParts;
        if |parts| > 0 && parts[0].text.Some? {
          finalText := parts[0].text.value;
          break;
        }
      } else if event.parts.Some? {
        finalText := ScanPartsForText(event.parts.value, finalText);
      }
      i := i + 1;
    }
    assert events[0..] == events;
    ScanFromSuffix(events, 0, NoTextResponse);
  }

  // Properties of the helper's result

  /** With no qualifying final response and no text in any scanned part (an
      empty event list included), the helper returns its default message. */
  lemma FinalTextDefault(events: seq<Event>)
    requires forall k :: 0 <= k < |events| ==> !QualifiesFinal(events[k])
    requires forall k, j :: 0 <= k < |events| && 0 <= j < |ScannedPartsOf(events[k])| ==> !HasText(ScannedPartsOf(events[k])[j])
    ensures FinalText(events) == NoTextResponse
  {
    var sp := ScannedParts(events);
    forall m | 0 <= m < |sp| ensures !HasText(sp[m]) {
      ScannedPartsFrom(events, m);
    }
    LastTextIsLastMatch(sp, NoTextResponse);
  }

  /** The first qualifying final response decides the result ... */
  lemma FinalTextFirstFinal(events: seq<Event>, k: nat)
    requires k < |events| && QualifiesFinal(events[k])
    requires forall j :: 0 <= j < k ==> !QualifiesFinal(events[j])
    ensures FinalText(events) == FinalOutputText(events[k])
  {
    FirstMatchAt(events, QualifiesFinal, k);
  }

  /** ... and nothing after it is consulted. */
  lemma FinalTextIgnoresRest(events: seq<Event>, rest: seq<Event>)
    requires FirstMatch(events, QualifiesFinal).Some?
    ensures FinalText(events + rest) == FinalText(events)
  {
    var k := FirstIndex(events, QualifiesFinal).value;
    var s := events + rest;
    assert s[k] == events[k];
    assert forall j :: 0 <= j < k ==> s[j] == events[j];
    FirstMatchAt(s, QualifiesFinal, k);
  }

  /** Without a qualifying final response, the last text among the scanned
      parts wins, in stream order and part order. */
  lemma FinalTextFallback(events: seq<Event>)
    requires forall k :: 0 <= k < |events| ==> !QualifiesFinal(events[k])
    ensures FinalText(events) == match LastMatch(ScannedParts(events), HasText) case Some(p) => p.text.value case None => NoTextResponse
  {
    LastTextIsLastMatch(ScannedParts(events), NoTextResponse);
  }

  /** A final response with outputs but no text in its first output part is
      ignored altogether; its own top-level parts are never looked at. */
  lemma FinalTextSkipsTextlessFinal(a: seq<Event>, e: Event, b: seq<Event>)
    requires IsFinalWithOutputs(e) && !QualifiesFinal(e)
    ensures FinalText(a + [e] + b) == FinalText(a + b)
  {
    FirstMatchSkip(a, e, b, QualifiesFinal);
    ScannedPartsConcat(a + [e], b);
    ScannedPartsConcat(a, [e]);
    ScannedPartsConcat(a, b);
    assert ScannedParts([e]) == [] && ScannedParts(a) + [] == ScannedParts(a);
  }

  /** `t` is the text of some part of `e`, among its outputs or its own parts. */
  ghost predicate EventMentions(e: Event, t: string) {
    || (e.outputs.Some? && exists j :: 0 <= j < |e.outputs.value.llmResponseParts| && e.outputs.value.llmResponseParts[j].text == Some(t))
    || (e.parts.Some? && exists j :: 0 <= j < |e.parts.value| && e.parts.value[j].text == Some(t))
  }

  /** The result is the default message or a text that occurs in the input. */
  lemma FinalTextOccurs(events: seq<Event>)
    ensures FinalText(events) == NoTextResponse || exists i :: 0 <= i < |events| && EventMentions(events[i], FinalText(events))
  {
    match FirstIndex(events, QualifiesFinal)
    case Some(k) =>
      assert events[k].outputs.value.llmResponseParts[0].text == Some(FinalText(events));
      assert EventMentions(events[k], FinalText(events));
    case None =>
      var sp := ScannedParts(events);
      LastTextIsLastMatch(sp, NoTextResponse);
      match LastIndex(sp, HasText)
      case Some(m) =>
        ScannedPartsFrom(events, m);
        var i, j :| 0 <= i < |events| && 0 <= j < |ScannedPartsOf(events[i])| && ScannedPartsOf(events[i])[j] == sp[m];
        assert events[i].parts.value[j].text == Some(FinalText(events));
        assert EventMentions(events[i], FinalText(events));
      case None =>
  }

  // ---------------------------------------------------------------------
  // The main routine: collecting the stream, then selecting the reply
  // ---------------------------------------------------------------------

  /** The main routine appends every streamed item to `responseEvents`. */
  method CollectResponseEvents(stream: seq<StreamItem>) returns (responseEvents: seq<StreamItem>)
    ensures responseEvents == stream
  {
    responseEvents := [];
    for i := 0 to |stream|
      invariant responseEvents == stream[..i]
    {
      assert stream[..i + 1] == stream[..i] + [stream[i]];
      responseEvents := responseEvents + [stream[i]];
    }
    assert stream[..|stream|] == stream;
  }

  /** A dictionary with parts and the model role whose first part has text. */
  predicate ModelQualifies(item: StreamItem) {
    && item.Dict?
    && item.event.parts.Some?
    && item.event.role == Some(ModelRole)
    && |item.event.parts.value| > 0
    && HasText(item.event.parts.value[0])
  }

  function ModelText(item: StreamItem): string
    requires ModelQualifies(item)
  {
    item.event.parts.value[0].text.value
  }

  /** The reply the main routine shows: that of the last qualifying model event. */
  function ModelReply(items: seq<StreamItem>): string {
    match LastMatch(items, ModelQualifies)
    case Some(item) => ModelText(item)
    case None => NoClearReply
  }

  /** The main routine's reverse scan over the collected events. */
  method SelectReply(responseEvents: seq<StreamItem>) returns (agentReplyText: string)
    ensures agentReplyText == ModelReply(responseEvents)
  {
    agentReplyText := NoClearReply;
    if |responseEvents| > 0 {
      var i := |responseEvents|;
      while i > 0
        invariant 0 <= i <= |responseEvents|
        invariant agentReplyText == NoClearReply
        invariant forall j :: i <= j < |responseEvents| ==> !ModelQualifies(responseEvents[j])
      {
        i := i - 1;
        var item := responseEvents[i];
        if item.Dict? && item.event.parts.Some? && item.event.role == Some(ModelRole) {
          var parts := item.event.parts.value;
          if |parts| > 0 && parts[0].text.Some? {
            agentReplyText := parts[0].text.value;
            LastMatchAt(responseEvents, ModelQualifies, i);
            break;
          }
        }
      }
    }
  }

  /** Lines 66-84 of the main routine: collect, then select. */
  method ReplyFromStream(stream: seq<StreamItem>) returns (agentReplyText: string)
    ensures agentReplyText == ModelReply(stream)
  {
    var responseEvents := CollectResponseEvents(stream);
    agentReplyText := SelectReply(responseEvents);
  }

  // Properties of the selected reply

  /** The last qualifying model event decides the reply. */
  lemma ModelReplyLast(items: seq<StreamItem>, k: nat)
    requires k < |items| && ModelQualifies(items[k])
    requires forall j :: k < j < |items| ==> !ModelQualifies(items[j])
    ensures ModelReply(items) == items[k].event.parts.value[0].text.value
  {
    LastMatchAt(items, ModelQualifies, k);
  }

  /** With no qualifying model event the default message is shown. */
  lemma ModelReplyDefault(items: seq<StreamItem>)
    requires forall k :: 0 <= k < |items| ==> !ModelQualifies(items[k])
    ensures ModelReply(items) == NoClearReply
  {
  }

  /** Non-dictionaries, non-model events and events without text are never
      selected: removing one leaves the reply unchanged. */
  lemma ModelReplySkip(a: seq<StreamItem>, x: StreamItem, b: seq<StreamItem>)
    requires !ModelQualifies(x)
    ensures ModelReply(a + [x] + b) == ModelReply(a + b)
  {
    LastMatchSkip(a, x, b, ModelQualifies);
  }

  /** A reply other than the default is the first-part text of a model-role dictionary. */
  lemma ModelReplyFromModel(items: seq<StreamItem>)
    ensures ModelReply(items) == NoClearReply
            || exists i :: 0 <= i < |items| && items[i].Dict? && items[i].event.role == Some(ModelRole)
                           && items[i].event.parts.Some? && |items[i].event.parts.value| > 0
                           && items[i].event.parts.value[0].text == Some(ModelReply(items))
  {
    match LastIndex(items, ModelQualifies)
    case Some(k) =>
      assert items[k].event.parts.value[0].text == Some(ModelReply(items));
    case None =>
  }
}
