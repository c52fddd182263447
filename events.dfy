/** The calendar events khal reports, their display title, and the filter
    that drops all-day events. */
module Events {
  import opened Seqs

  /** One element of khal's JSON output (`KhalEvent`), already parsed. */
  datatype KhalEvent = KhalEvent(
    title: string,
    description: string,
    startEndTimeStyle: string,
    repeatSymbol: string,
    allDay: bool)

  /** `formatted_title`: the title, followed by a space and the repeat symbol
      when there is one. */
  function FormattedTitle(e: KhalEvent): (r: string)
    ensures r == e.title <==> e.repeatSymbol == ""
    ensures IsPrefix(e.title, r)
    ensures e.repeatSymbol != "" ==> r[|e.title|..] == " " + e.repeatSymbol
  {
    if e.repeatSymbol == "" then e.title else e.title + " " + e.repeatSymbol
  }

  /** `events.into_iter().filter(|e| !e.is_all_day()).collect()`. */
  function WithoutAllDay(events: seq<KhalEvent>): (r: seq<KhalEvent>)
    ensures |r| <= |events|
    ensures forall e :: e in r <==> e in events && !e.allDay
    ensures forall e :: multiset(r)[e] == if e.allDay then 0 else multiset(events)[e]
  {
    if events == [] then []
    else
      assert events == [events[0]] + events[1..];
      if events[0].allDay then WithoutAllDay(events[1..])
      else [events[0]] + WithoutAllDay(events[1..])
  }

  /** The events that get a notification: all of them with `--all-day`,
      otherwise the ones that are not all-day. */
  function SelectEvents(events: seq<KhalEvent>, includeAllDay: bool): seq<KhalEvent>
  {
    if includeAllDay then events else WithoutAllDay(events)
  }

  /** The filter keeps the order of the events it keeps. */
  lemma {:induction false} WithoutAllDayIsSubsequence(events: seq<KhalEvent>)
    ensures IsSubsequence(WithoutAllDay(events), events)
  {
    if events != [] {
      WithoutAllDayIsSubsequence(events[1..]);
      var rest := WithoutAllDay(events[1..]);
      if events[0].allDay && rest != [] {
        assert rest[0] in events[1..];
        assert rest[0] != events[0];
      }
    }
  }

  /** A list without all-day events passes the filter unchanged. */
  lemma {:induction false} WithoutAllDayKeepsTimed(events: seq<KhalEvent>)
    requires forall i :: 0 <= i < |events| ==> !events[i].allDay
    ensures WithoutAllDay(events) == events
  {
    if events != [] {
      WithoutAllDayKeepsTimed(events[1..]);
      assert events == [events[0]] + events[1..];
    }
  }

  /** The filter's promises: no all-day event survives, every other event
      does, as often as it occurs and in its original order; filtering twice
      is filtering once; with `--all-day` the list is untouched. */
  lemma SelectEventsCorrect(events: seq<KhalEvent>, includeAllDay: bool)
    ensures includeAllDay ==> SelectEvents(events, includeAllDay) == events
    ensures !includeAllDay ==>
      && (forall e :: e in SelectEvents(events, false) ==> !e.allDay)
      && (forall e :: e in events && !e.allDay ==> e in SelectEvents(events, false))
      && (forall e: KhalEvent :: !e.allDay ==> multiset(SelectEvents(events, false))[e] == multiset(events)[e])
      && IsSubsequence(SelectEvents(events, false), events)
    ensures SelectEvents(SelectEvents(events, includeAllDay), includeAllDay)
              == SelectEvents(events, includeAllDay)
  {
    WithoutAllDayIsSubsequence(events);
    var r := WithoutAllDay(events);
    assert forall i :: 0 <= i < |r| ==> r[i] in r;
    WithoutAllDayKeepsTimed(r);
  }
}
