/**
 * The calendar tool server's stub: build the success record for a requested
 * event. Nothing is validated or stored.
 *
 * The interpreter's string hash is a parameter, `hash`: a deterministic
 * function whose values the model does not know.
 */
module CalendarTools {
  import Decimal

  const SuccessStatus := "success"
  const EventIdPrefix := "mcp_event_"

  /** The returned dictionary, with its three keys. */
  datatype CalendarEventResult = CalendarEventResult(status: string, eventId: string, message: string)

  /** The confirmation message that names the event's title. */
  function CreatedMessage(title: string): string {
    "Event '" + title + "' created via MCP."
  }

  /**
   * create_calendar_event(date, time, duration_hours, title, description):
   * always a success; the identifier renders the hash of title + date + time.
   */
  function CreateCalendarEvent(date: string, time: string, durationHours: int, title: string, description: string,
                               hash: string -> int): (r: CalendarEventResult)
    ensures r.status == SuccessStatus
    ensures r.eventId == EventIdPrefix + Decimal.IntToString(hash(title + date + time))
    ensures Decimal.ParseInt(r.eventId[|EventIdPrefix|..]) == hash(title + date + time)
    ensures r.message == CreatedMessage(title)
  {
    var eventId := EventIdPrefix + Decimal.IntToString(hash(title + date + time));
    assert eventId[|EventIdPrefix|..] == Decimal.IntToString(hash(title + date + time));
    Decimal.ParseIntToString(hash(title + date + time));
    CalendarEventResult(SuccessStatus, eventId, CreatedMessage(title))
  }

  /** The identifier depends only on the concatenation title + date + time:
      duration and description play no part, and the same triple always
      gives the same identifier. */
  lemma EventIdDependsOnKey(date1: string, time1: string, duration1: int, title1: string, description1: string,
                            date2: string, time2: string, duration2: int, title2: string, description2: string,
                            hash: string -> int)
    requires title1 + date1 + time1 == title2 + date2 + time2
    ensures CreateCalendarEvent(date1, time1, duration1, title1, description1, hash).eventId
         == CreateCalendarEvent(date2, time2, duration2, title2, description2, hash).eventId
  {
  }

  /** Different triples with the same concatenation collide: ("ab", "c") and
      ("a", "bc") as title and date. */
  lemma EventIdConcatenationCollision(time: string, duration: int, description: string, hash: string -> int)
    ensures CreateCalendarEvent("c", time, duration, "ab", description, hash).eventId
         == CreateCalendarEvent("bc", time, duration, "a", description, hash).eventId
  {
    assert "ab" + "c" == "a" + "bc";
  }

  /** Two identifiers are equal exactly when the hashes of their keys are. */
  lemma EventIdsEqualIffHashesEqual(date1: string, time1: string, duration1: int, title1: string, description1: string,
                                    date2: string, time2: string, duration2: int, title2: string, description2: string,
                                    hash: string -> int)
    ensures CreateCalendarEvent(date1, time1, duration1, title1, description1, hash).eventId
         == CreateCalendarEvent(date2, time2, duration2, title2, description2, hash).eventId
        <==> hash(title1 + date1 + time1) == hash(title2 + date2 + time2)
  {
    // The identifier renders the hash injectively: parsing its suffix gives the hash back.
  }
}
