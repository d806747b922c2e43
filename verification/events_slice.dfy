/**
 * The events slice (src/redux/slices/eventsSlice.ts): the event record, the
 * create thunk's id assignment, and the reducer cases for the fetch,
 * create, update and delete thunks.
 */
module EventsSlice {
  import opened Wrappers
  import opened Calendar
  import opened Instants
  import opened FetchStatus
  import opened Seqs

  /**
   * A calendar event. `id` is optional (`_id?`); `category` is kept as the
   * text it was given, since nothing on the way into the store checks it.
   */
  datatype Event = Event(
    id: Option<string>,
    title: string,
    category: string,
    start: Instant,
    end: Instant,
    taskId: Option<string>,
    goalId: Option<string>)

  datatype EventsState = EventsState(events: seq<Event>, status: Status, error: Option<string>)

  const InitialState: EventsState := EventsState([], Idle, None)

  const FetchEventsFallback: string := "Failed to fetch events"

  /** The four events the `fetchEvents` thunk resolves with, all on 2025-04-08 and 2025-04-10. */
  const MockEvents: seq<Event> := [
    Event(Some("1"), "Monday Wake-Up", "exercise",
          LocalDateTime(2025, 4, 8, 6, 0), LocalDateTime(2025, 4, 8, 6, 30), None, None),
    Event(Some("2"), "All-Team Kickoff", "work",
          LocalDateTime(2025, 4, 8, 9, 0), LocalDateTime(2025, 4, 8, 10, 0), None, None),
    Event(Some("3"), "Coffee Chat", "social",
          LocalDateTime(2025, 4, 10, 9, 0), LocalDateTime(2025, 4, 10, 9, 30), None, None),
    Event(Some("4"), "Design Review", "work",
          LocalDateTime(2025, 4, 8, 13, 0), LocalDateTime(2025, 4, 8, 14, 0), None, None)
  ]

  /** The fulfilled, pending and rejected actions of the four thunks the reducer handles. */
  datatype Action =
    | FetchPending
    | FetchFulfilled(payload: seq<Event>)
    | FetchRejected(message: Option<string>)
    | CreateFulfilled(created: Event)
    | UpdateFulfilled(updated: Event)
    | DeleteFulfilled(deletedId: string)

  /**
   * The `createEvent` thunk: the draft's fields with `_id` set. The id comes
   * from a random generator outside the model and is passed in.
   */
  function CreateEvent(draft: Event, freshId: string): (e: Event)
    ensures e.id == Some(freshId)
    ensures e.(id := draft.id) == draft
  {
    draft.(id := Some(freshId))
  }

  /** `findIndex(e => e._id === id)`: the first position holding `id`, if any. */
  function FindIndex(events: seq<Event>, id: Option<string>): (r: Option<nat>)
    ensures r.None? <==> forall i :: 0 <= i < |events| ==> events[i].id != id
    ensures r.Some? ==> r.value < |events| && events[r.value].id == id
    ensures r.Some? ==> forall j :: 0 <= j < r.value ==> events[j].id != id
  {
    if |events| == 0 then None
    else if events[0].id == id then Some(0)
    else match FindIndex(events[1..], id)
      case None => None
      case Some(i) => Some(i + 1)
  }

  /** The update case: the first event with the same id is replaced; none, nothing happens. */
  function ReplaceFirst(events: seq<Event>, e: Event): (r: seq<Event>)
    ensures |r| == |events|
    ensures (forall i :: 0 <= i < |events| ==> events[i].id != e.id) ==> r == events
    ensures forall i ::
              (0 <= i < |events| && events[i].id == e.id && forall j :: 0 <= j < i ==> events[j].id != e.id)
              ==> r == events[i := e]
  {
    match FindIndex(events, e.id)
    case None => events
    case Some(i) => events[i := e]
  }

  /** The delete case: `filter(e => e._id !== id)`; events without an id always stay. */
  function RemoveAll(events: seq<Event>, id: string): (r: seq<Event>)
    ensures |r| <= |events|
    ensures forall e :: e in r <==> e in events && e.id != Some(id)
  {
    if |events| == 0 then []
    else if events[0].id == Some(id) then RemoveAll(events[1..], id)
    else [events[0]] + RemoveAll(events[1..], id)
  }

  /** The reducer: one case per thunk action. */
  function Reduce(s: EventsState, a: Action): (r: EventsState)
    ensures a.FetchPending? ==> r == s.(status := Loading)
    ensures a.FetchFulfilled? ==> r == s.(status := Succeeded, events := a.payload)
    ensures a.FetchRejected? ==>
              (r.events == s.events && r.status == Failed
               && r.error == Some(OrElse(a.message, FetchEventsFallback)))
    ensures a.CreateFulfilled? ==>
              (|r.events| == |s.events| + 1
               && r.events[..|s.events|] == s.events && r.events[|s.events|] == a.created)
    ensures a.UpdateFulfilled? ==>
              |r.events| == |s.events|
              && ((forall i :: 0 <= i < |s.events| ==> s.events[i].id != a.updated.id) ==> r.events == s.events)
    ensures a.UpdateFulfilled? ==>
              forall i ::
                (0 <= i < |s.events| && s.events[i].id == a.updated.id
                 && forall j :: 0 <= j < i ==> s.events[j].id != a.updated.id)
                ==> r.events == s.events[i := a.updated]
    ensures a.DeleteFulfilled? ==>
              forall e :: e in r.events <==> e in s.events && e.id != Some(a.deletedId)
    ensures a.CreateFulfilled? || a.UpdateFulfilled? || a.DeleteFulfilled? ==>
              r.status == s.status && r.error == s.error
  {
    match a
    case FetchPending => s.(status := Loading)
    case FetchFulfilled(payload) => s.(status := Succeeded, events := payload)
    case FetchRejected(message) => s.(status := Failed, error := Some(OrElse(message, FetchEventsFallback)))
    case CreateFulfilled(e) => s.(events := s.events + [e])
    case UpdateFulfilled(e) => s.(events := ReplaceFirst(s.events, e))
    case DeleteFulfilled(id) => s.(events := RemoveAll(s.events, id))
  }

  /** Deleting keeps the order of what stays: the filter distributes over concatenation. */
  lemma {:induction false} RemoveAllConcat(a: seq<Event>, b: seq<Event>, id: string)
    ensures RemoveAll(a + b, id) == RemoveAll(a, id) + RemoveAll(b, id)
  {
    if |a| == 0 {
      EmptyConcat(a, b);
    } else {
      RemoveAllConcat(a[1..], b, id);
      HeadTail(a);
      RemoveAllConcatStep(a[0], a[1..], b, id);
    }
  }

  /** One step of the induction: a first event is kept or dropped alike on both sides. */
  lemma RemoveAllConcatStep(x: Event, t: seq<Event>, b: seq<Event>, id: string)
    requires RemoveAll(t + b, id) == RemoveAll(t, id) + RemoveAll(b, id)
    ensures RemoveAll([x] + t + b, id) == RemoveAll([x] + t, id) + RemoveAll(b, id)
  {
    ConcatAssoc([x], t, b);
    RemoveAllCons(x, t + b, id);
    RemoveAllCons(x, t, id);
    ConcatAssoc([x], RemoveAll(t, id), RemoveAll(b, id));
  }

  /** Deleting from a collection with a first event decides that event, then deletes from the rest. */
  lemma RemoveAllCons(x: Event, s: seq<Event>, id: string)
    ensures x.id == Some(id) ==> RemoveAll([x] + s, id) == RemoveAll(s, id)
    ensures x.id != Some(id) ==> RemoveAll([x] + s, id) == [x] + RemoveAll(s, id)
  {
    ConsParts(x, s);
  }

  /** Deleting an id no event carries leaves the collection as it was. */
  lemma {:induction false} RemoveAbsent(events: seq<Event>, id: string)
    requires forall i :: 0 <= i < |events| ==> events[i].id != Some(id)
    ensures RemoveAll(events, id) == events
  {
    if |events| > 0 {
      RemoveAbsent(events[1..], id);
      assert [events[0]] + events[1..] == events;
    }
  }

  /** Deleting twice is deleting once. */
  lemma DeleteIdempotent(s: EventsState, id: string)
    ensures Reduce(Reduce(s, DeleteFulfilled(id)), DeleteFulfilled(id)) == Reduce(s, DeleteFulfilled(id))
  {
    var once := RemoveAll(s.events, id);
    assert forall i :: 0 <= i < |once| ==> once[i].id != Some(id) by {
      forall i | 0 <= i < |once| ensures once[i].id != Some(id) {
        assert once[i] in once;
      }
    }
    RemoveAbsent(once, id);
  }

  /** Updating with an id no event carries is a silent no-op: nothing changes at all. */
  lemma UpdateAbsentIsNoOp(s: EventsState, e: Event)
    requires forall i :: 0 <= i < |s.events| ==> s.events[i].id != e.id
    ensures Reduce(s, UpdateFulfilled(e)) == s
  {
  }

  /**
   * An event created under a fresh id and then updated under that id ends
   * up, as the last event, exactly as the update describes it; the events
   * before it are untouched.
   */
  lemma CreateThenUpdate(s: EventsState, draft: Event, freshId: string, u: Event)
    requires forall i :: 0 <= i < |s.events| ==> s.events[i].id != Some(freshId)
    requires u.id == Some(freshId)
    ensures Reduce(Reduce(s, CreateFulfilled(CreateEvent(draft, freshId))), UpdateFulfilled(u)).events
            == s.events + [u]
  {
    var created := s.events + [CreateEvent(draft, freshId)];
    var n := |s.events|;
    assert created[n].id == u.id;
    assert forall j :: 0 <= j < n ==> created[j].id != u.id;
    assert created[n := u] == s.events + [u];
  }
}
