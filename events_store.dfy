/**
 * The chronological insert of `POST /api/events` (app/api/events/route.ts):
 * the stored event list is read (empty when the file is missing), the new
 * event is spliced in before the first event dated strictly later, and the
 * list is written back.
 */
module EventsStore {
  import opened Wrappers
  import opened JsValues

  /** What `new Date(event.date)` yields: a time value, or NaN for an unparsable date. */
  datatype Instant = Invalid | At(ms: int)

  /** `a > b` on two dates; a comparison involving NaN is false. */
  predicate Later(a: Instant, b: Instant) {
    a.At? && b.At? && a.ms > b.ms
  }

  /** A stored event: its parsed date and the rest of its JSON record. */
  datatype Event = Event(when: Instant, fields: Record)

  /** No event is later than one that follows it. */
  predicate Ascending(events: seq<Event>) {
    forall i, j :: 0 <= i < j < |events| ==> !Later(events[i].when, events[j].when)
  }

  /** The index of the first event dated strictly later than `d`, or `|events|` when none is. */
  function FirstLater(events: seq<Event>, d: Instant): (k: nat)
    ensures k <= |events|
    ensures forall j :: 0 <= j < k ==> !Later(events[j].when, d)
    ensures k < |events| ==> Later(events[k].when, d)
    decreases |events|
  {
    if events == [] then 0
    else if Later(events[0].when, d) then 0
    else 1 + FirstLater(events[1..], d)
  }

  /** The list after `events.splice(FirstLater(...), 0, event)`. */
  function Insert(events: seq<Event>, event: Event): seq<Event> {
    var k := FirstLater(events, event.when);
    events[..k] + [event] + events[k..]
  }

  /**
   * The insert loop: scan for the first strictly later event, remember its
   * index and stop; with none found the index stays at the end.
   */
  method InsertChronologically(events: seq<Event>, event: Event) returns (result: seq<Event>)
    ensures result == Insert(events, event)
  {
    var insertIndex := |events|;
    var i := 0;
    while i < |events|
      invariant 0 <= i <= |events|
      invariant insertIndex == |events|
      invariant forall j :: 0 <= j < i ==> !Later(events[j].when, event.when)
    {
      if Later(events[i].when, event.when) {
        insertIndex := i;
        break;
      }
      i := i + 1;
    }
    FirstLaterIsFirst(events, event.when, insertIndex);
    result := events[..insertIndex] + [event] + events[insertIndex..];
  }

  /** Any index that is "first later" is the one `FirstLater` names. */
  lemma FirstLaterIsFirst(events: seq<Event>, d: Instant, k: nat)
    requires k <= |events|
    requires forall j :: 0 <= j < k ==> !Later(events[j].when, d)
    requires k < |events| ==> Later(events[k].when, d)
    ensures k == FirstLater(events, d)
  {
  }

  /**
   * The new event sits at the index of the first strictly later event (the
   * end when there is none), the events before and after it are the old
   * ones in their old order, and the list grew by one.
   */
  lemma InsertPlacement(events: seq<Event>, event: Event)
    ensures var r, k := Insert(events, event), FirstLater(events, event.when);
      |r| == |events| + 1 && r[k] == event
      && r[..k] == events[..k] && r[k + 1..] == events[k..]
      && (k == |events| <==> forall j :: 0 <= j < |events| ==> !Later(events[j].when, event.when))
  {
    var r, k := Insert(events, event), FirstLater(events, event.when);
    assert r[..k] == events[..k];
    assert r[k + 1..] == events[k..];
  }

  /**
   * In an ascending list, events dated the same as the new one stay before
   * it, because the comparison is strict.
   */
  lemma EqualDatesStayBefore(events: seq<Event>, event: Event, j: nat)
    requires Ascending(events)
    requires j < |events| && events[j].when == event.when
    ensures j < FirstLater(events, event.when)
    ensures Insert(events, event)[j] == events[j]
  {
  }

  /** The new event occurs exactly once more than before, and nothing else changes in count. */
  lemma InsertMultiset(events: seq<Event>, event: Event)
    ensures multiset(Insert(events, event)) == multiset(events) + multiset{event}
  {
    var k := FirstLater(events, event.when);
    assert events == events[..k] + events[k..];
    calc {
      multiset(Insert(events, event));
      multiset(events[..k]) + multiset{event} + multiset(events[k..]);
      multiset(events[..k] + events[k..]) + multiset{event};
    }
  }

  /** Inserting into an ascending list keeps it ascending. */
  lemma InsertKeepsAscending(events: seq<Event>, event: Event)
    requires Ascending(events)
    ensures Ascending(Insert(events, event))
  {
    var r, k := Insert(events, event), FirstLater(events, event.when);
    InsertPlacement(events, event);
    forall i, j | 0 <= i < j < |r| ensures !Later(r[i].when, r[j].when) {
      if j == k {
        assert r[i] == events[i];
      } else if i == k {
        var e := r[j];
        assert e == events[j - 1];
        assert Later(events[k].when, event.when);
        assert k == j - 1 || !Later(events[k].when, e.when);
      } else {
        var i', j' := if i < k then i else i - 1, if j < k then j else j - 1;
        assert r[i] == events[i'] && r[j] == events[j'] && i' < j';
      }
    }
  }

  /**
   * What the handler found where the events file should be: no file, a
   * JSON array of events, JSON of another shape (`null`, an object, a
   * string or a number, on which `length` or `splice` fails), or text that
   * is not JSON.
   */
  datatype StoredFile = Missing | Present(events: seq<Event>) | NotAList | Unparsable

  datatype PostOutcome =
    | Saved(written: seq<Event>)  // 200 `{ success: true, event }` after writing `written`
    | SaveFailed                  // 500 `Failed to save event`

  /**
   * `POST`: read the stored list (empty when the file is missing), insert,
   * and write it back. `request` is the parsed body; `None` stands for a
   * body that is not JSON or is `null`, where `request.json()` or
   * `event.date` throws.
   */
  method PostEvent(request: Option<Event>, stored: StoredFile) returns (outcome: PostOutcome)
    ensures outcome.SaveFailed? <==> request.None? || stored.Unparsable? || stored.NotAList?
    ensures request.Some? && stored.Missing? ==> outcome == Saved([request.value])
    ensures request.Some? && stored.Present? ==> outcome == Saved(Insert(stored.events, request.value))
  {
    if request.None? || stored.Unparsable? || stored.NotAList? {
      return SaveFailed;
    }
    var events: seq<Event> := [];
    if stored.Present? {
      events := stored.events;
    }
    var written := InsertChronologically(events, request.value);
    return Saved(written);
  }
}
