/** The event catalog and registration/attendance store
    (Services/EventService.cs): the events, the registrations, the attendees and
    the two id counters, as one immutable state with transition functions.
    Operations that mutate return the new state; those that stamp a time take the
    current instant `now`. */
module EventService {
  import opened Optional
  import opened Clock
  import opened Seqs
  import opened Ascii
  import opened EventModel
  import opened RegistrationModel
  import opened AttendeeModel

  datatype Store = Store(
    Events: seq<Event>,
    Registrations: seq<EventRegistration>,
    Attendees: seq<AttendeeInfo>,
    NextRegistrationId: int,
    NextAttendeeId: int)

  /** The constructor: the seed events, no registrations or attendees, both
      counters at 1. */
  function New(): (st: Store)
    ensures Valid(st)
    ensures |st.Events| == 5 && st.Registrations == [] && st.Attendees == []
  {
    Store(SeedEvents, [], [], 1, 1)
  }

  /** `_events.Any(e => e.Id == id)`. */
  predicate EventExists(events: seq<Event>, id: int)
  {
    exists i | 0 <= i < |events| :: events[i].Id == id
  }

  /** The store's invariant: registration and attendee ids are exactly 1, 2, ...,
      n in insertion order, each counter is the next id to hand out, and every
      record names an existing event. */
  predicate Valid(st: Store)
  {
    && st.NextRegistrationId == |st.Registrations| + 1
    && (forall i | 0 <= i < |st.Registrations| ::
          st.Registrations[i].Id == i + 1 && EventExists(st.Events, st.Registrations[i].EventId))
    && st.NextAttendeeId == |st.Attendees| + 1
    && (forall i | 0 <= i < |st.Attendees| ::
          st.Attendees[i].Id == i + 1 && EventExists(st.Events, st.Attendees[i].EventId))
  }

  // ---------------------------------------------------------------------------
  // Events.

  function EventDate(e: Event): int { e.Date }

  function IsUpcoming(now: Instant): Event -> bool
  {
    (e: Event) => e.Date >= now
  }

  function HasEventId(id: int): Event -> bool
  {
    (e: Event) => e.Id == id
  }

  /** `GetAllEvents()`: the events ordered by date, ties in catalog order. */
  function GetAllEvents(st: Store): (r: seq<Event>)
    ensures forall i, j | 0 <= i < j < |r| :: r[i].Date <= r[j].Date
    ensures multiset(r) == multiset(st.Events)
    ensures forall d :: Filter(r, HasKey(EventDate, d)) == Filter(st.Events, HasKey(EventDate, d))
  {
    var r := SortBy(st.Events, EventDate);
    assert forall i, j | 0 <= i < j < |r| :: EventDate(r[i]) <= EventDate(r[j]);
    r
  }

  /** `GetEventById(id)`: the first event with that id, or none. */
  function GetEventById(st: Store, id: int): (r: Option<Event>)
    ensures r.None? <==> forall i | 0 <= i < |st.Events| :: st.Events[i].Id != id
    ensures r.Some? ==> exists i | 0 <= i < |st.Events| ::
      && st.Events[i] == r.value
      && r.value.Id == id
      && forall j | 0 <= j < i :: st.Events[j].Id != id
  {
    match FirstIndex(st.Events, HasEventId(id))
    case None => None
    case Some(i) => Some(st.Events[i])
  }

  lemma UpcomingIsUpwardClosed(now: Instant)
    ensures UpwardClosed(EventDate, IsUpcoming(now))
  {
  }

  /** `GetUpcomingEvents()` at `now`: the events dated `now` or later, ordered by
      date — exactly the upcoming part of `GetAllEvents`, in the same order. */
  function GetUpcomingEvents(st: Store, now: Instant): (r: seq<Event>)
    ensures forall i, j | 0 <= i < j < |r| :: r[i].Date <= r[j].Date
    ensures forall e :: e in r <==> e in st.Events && e.Date >= now
    ensures r == Filter(GetAllEvents(st), IsUpcoming(now))
  {
    UpcomingSorted(st, now);
    UpcomingMembers(st, now);
    UpcomingIsFilterOfAll(st, now);
    SortBy(Filter(st.Events, IsUpcoming(now)), EventDate)
  }

  lemma UpcomingSorted(st: Store, now: Instant)
    ensures var r := SortBy(Filter(st.Events, IsUpcoming(now)), EventDate);
      forall i, j | 0 <= i < j < |r| :: r[i].Date <= r[j].Date
  {
    var r := SortBy(Filter(st.Events, IsUpcoming(now)), EventDate);
    assert forall i, j | 0 <= i < j < |r| :: EventDate(r[i]) <= EventDate(r[j]);
  }

  lemma UpcomingMembers(st: Store, now: Instant)
    ensures var r := SortBy(Filter(st.Events, IsUpcoming(now)), EventDate);
      forall e :: e in r <==> e in st.Events && e.Date >= now
  {
    var upcoming := Filter(st.Events, IsUpcoming(now));
    var r := SortBy(upcoming, EventDate);
    forall e
      ensures e in r <==> e in st.Events && e.Date >= now
    {
      assert e in r <==> e in multiset(upcoming);
      FilterMembership(st.Events, IsUpcoming(now), e);
    }
  }

  lemma UpcomingIsFilterOfAll(st: Store, now: Instant)
    ensures SortBy(Filter(st.Events, IsUpcoming(now)), EventDate)
         == Filter(GetAllEvents(st), IsUpcoming(now))
  {
    UpcomingIsUpwardClosed(now);
    SortFilterCommute(st.Events, EventDate, IsUpcoming(now));
  }

  // ---------------------------------------------------------------------------
  // Registrations.

  function RegistrationFor(eventId: int): EventRegistration -> bool
  {
    (r: EventRegistration) => r.EventId == eventId
  }

  function RegistrationAttendees(r: EventRegistration): int { r.NumberOfAttendees }

  /** `RegisterForEvent(registration)` at `now`. Returns whether it succeeded, the
      caller's record as it stands afterwards (the source stamps it in place), and
      the new state. An unknown event id is refused and nothing changes; otherwise
      the record gets the next id and the time `now` and is appended. */
  function RegisterForEvent(st: Store, registration: EventRegistration, now: Instant)
    : (r: (bool, EventRegistration, Store))
    ensures r.0 <==> EventExists(st.Events, registration.EventId)
    ensures !r.0 ==> r.1 == registration && r.2 == st
    ensures r.0 ==>
      && r.1 == registration.(Id := st.NextRegistrationId, RegistrationDate := now)
      && r.2.Registrations == st.Registrations + [r.1]
      && r.2.NextRegistrationId == st.NextRegistrationId + 1
      && r.2.(Registrations := st.Registrations, NextRegistrationId := st.NextRegistrationId) == st
  {
    if !EventExists(st.Events, registration.EventId) then (false, registration, st)
    else
      var stored := registration.(Id := st.NextRegistrationId, RegistrationDate := now);
      (true, stored,
       st.(Registrations := st.Registrations + [stored],
           NextRegistrationId := st.NextRegistrationId + 1))
  }

  /** `GetRegistrationsByEvent(eventId)`: that event's registrations, in insertion
      order. */
  function GetRegistrationsByEvent(st: Store, eventId: int): (r: seq<EventRegistration>)
    ensures forall x :: x in r <==> x in st.Registrations && x.EventId == eventId
    ensures forall i | 0 <= i < |r| :: r[i].EventId == eventId
  {
    var r := Filter(st.Registrations, RegistrationFor(eventId));
    assert forall x :: x in r <==> x in st.Registrations && x.EventId == eventId by {
      forall x
        ensures x in r <==> x in st.Registrations && x.EventId == eventId
      {
        FilterMembership(st.Registrations, RegistrationFor(eventId), x);
      }
    }
    r
  }

  /** `GetRegistrationCount(eventId)`: the number of people registered for the
      event, the sum of `NumberOfAttendees` over its registrations. */
  function GetRegistrationCount(st: Store, eventId: int): (n: int)
    ensures (forall i | 0 <= i < |st.Registrations| ::
               st.Registrations[i].EventId == eventId ==> st.Registrations[i].NumberOfAttendees >= 0)
      ==> n >= 0
    ensures (forall i | 0 <= i < |st.Registrations| :: st.Registrations[i].EventId != eventId)
      ==> n == 0
  {
    var regs := Filter(st.Registrations, RegistrationFor(eventId));
    SumNonNegativeFilter(st.Registrations, RegistrationFor(eventId), RegistrationAttendees);
    assert (forall i | 0 <= i < |st.Registrations| :: st.Registrations[i].EventId != eventId)
      ==> regs == [] by {
      if forall i | 0 <= i < |st.Registrations| :: st.Registrations[i].EventId != eventId {
        FilterNone(st.Registrations, RegistrationFor(eventId));
      }
    }
    SumOf(regs, RegistrationAttendees)
  }

  /** A successful registration adds its number of people to its own event's
      count and leaves every other event's count as it was. */
  lemma RegisterUpdatesCount(st: Store, registration: EventRegistration, now: Instant, eventId: int)
    requires EventExists(st.Events, registration.EventId)
    ensures var st' := RegisterForEvent(st, registration, now).2;
      GetRegistrationCount(st', eventId)
        == GetRegistrationCount(st, eventId)
           + (if registration.EventId == eventId then registration.NumberOfAttendees else 0)
  {
    var stored := RegisterForEvent(st, registration, now).1;
    var before := Filter(st.Registrations, RegistrationFor(eventId));
    FilterAppend(st.Registrations, stored, RegistrationFor(eventId));
    SumAppend(before, stored, RegistrationAttendees);
    assert RegistrationFor(eventId)(stored) <==> registration.EventId == eventId;
    if registration.EventId == eventId {
      assert SumOf(before + [stored], RegistrationAttendees)
          == SumOf(before, RegistrationAttendees) + registration.NumberOfAttendees;
    } else {
      assert before + [] == before;
    }
  }

  /** The listing keeps insertion order: a fresh store lists nothing, and a
      registration call appends the stored record to its own event's listing and
      leaves every other listing, and every listing after a refusal, unchanged. */
  lemma RegisterUpdatesListing(st: Store, registration: EventRegistration, now: Instant, eventId: int)
    ensures GetRegistrationsByEvent(New(), eventId) == []
    ensures var r := RegisterForEvent(st, registration, now);
      GetRegistrationsByEvent(r.2, eventId)
        == GetRegistrationsByEvent(st, eventId)
           + (if r.0 && registration.EventId == eventId then [r.1] else [])
  {
    var r := RegisterForEvent(st, registration, now);
    if r.0 {
      FilterAppend(st.Registrations, r.1, RegistrationFor(eventId));
      assert RegistrationFor(eventId)(r.1) <==> registration.EventId == eventId;
    } else {
      assert GetRegistrationsByEvent(st, eventId) + [] == GetRegistrationsByEvent(st, eventId);
    }
  }

  // ---------------------------------------------------------------------------
  // Attendees.

  function AttendeeOf(eventId: int): AttendeeInfo -> bool
  {
    (a: AttendeeInfo) => a.EventId == eventId
  }

  function CheckedInAttendeeOf(eventId: int): AttendeeInfo -> bool
  {
    (a: AttendeeInfo) => a.EventId == eventId && a.CheckedIn
  }

  function HasAttendeeId(id: int): AttendeeInfo -> bool
  {
    (a: AttendeeInfo) => a.Id == id
  }

  function AttendeePeople(a: AttendeeInfo): int { a.NumberOfAttendees }

  /** Sort key putting the most recently registered first (`OrderByDescending` is
      the stable ascending sort on the negated date). */
  function NewestFirst(a: AttendeeInfo): int { -a.RegistrationDate }

  /** `AddAttendee(attendee)` at `now`: the same discipline as `RegisterForEvent`
      on the attendee list and its own counter. The caller's check-in fields are
      stored as given. */
  function AddAttendee(st: Store, attendee: AttendeeInfo, now: Instant)
    : (r: (bool, AttendeeInfo, Store))
    ensures r.0 <==> EventExists(st.Events, attendee.EventId)
    ensures !r.0 ==> r.1 == attendee && r.2 == st
    ensures r.0 ==>
      && r.1 == attendee.(Id := st.NextAttendeeId, RegistrationDate := now)
      && r.2.Attendees == st.Attendees + [r.1]
      && r.2.NextAttendeeId == st.NextAttendeeId + 1
      && r.2.(Attendees := st.Attendees, NextAttendeeId := st.NextAttendeeId) == st
  {
    if !EventExists(st.Events, attendee.EventId) then (false, attendee, st)
    else
      var stored := attendee.(Id := st.NextAttendeeId, RegistrationDate := now);
      (true, stored,
       st.(Attendees := st.Attendees + [stored], NextAttendeeId := st.NextAttendeeId + 1))
  }

  /** `GetAttendeesByEvent(eventId)`: that event's attendees, most recently
      registered first, ties in insertion order. */
  function GetAttendeesByEvent(st: Store, eventId: int): (r: seq<AttendeeInfo>)
    ensures forall i, j | 0 <= i < j < |r| :: r[i].RegistrationDate >= r[j].RegistrationDate
    ensures forall x :: x in r <==> x in st.Attendees && x.EventId == eventId
    ensures multiset(r) == multiset(Filter(st.Attendees, AttendeeOf(eventId)))
    ensures forall k :: Filter(r, HasKey(NewestFirst, k))
                     == Filter(Filter(st.Attendees, AttendeeOf(eventId)), HasKey(NewestFirst, k))
  {
    var mine := Filter(st.Attendees, AttendeeOf(eventId));
    var r := SortBy(mine, NewestFirst);
    assert forall i, j | 0 <= i < j < |r| :: NewestFirst(r[i]) <= NewestFirst(r[j]);
    assert forall x :: x in r <==> x in st.Attendees && x.EventId == eventId by {
      forall x
        ensures x in r <==> x in st.Attendees && x.EventId == eventId
      {
        assert x in r <==> x in multiset(mine);
        FilterMembership(st.Attendees, AttendeeOf(eventId), x);
      }
    }
    r
  }

  /** `GetTotalAttendeesCount(eventId)`: the sum of `NumberOfAttendees` over the
      event's attendees. */
  function GetTotalAttendeesCount(st: Store, eventId: int): (n: int)
    ensures (forall i | 0 <= i < |st.Attendees| ::
               st.Attendees[i].EventId == eventId ==> st.Attendees[i].NumberOfAttendees >= 0)
      ==> n >= 0
    ensures (forall i | 0 <= i < |st.Attendees| :: st.Attendees[i].EventId != eventId) ==> n == 0
  {
    SumNonNegativeFilter(st.Attendees, AttendeeOf(eventId), AttendeePeople);
    assert (forall i | 0 <= i < |st.Attendees| :: st.Attendees[i].EventId != eventId)
      ==> Filter(st.Attendees, AttendeeOf(eventId)) == [] by {
      if forall i | 0 <= i < |st.Attendees| :: st.Attendees[i].EventId != eventId {
        FilterNone(st.Attendees, AttendeeOf(eventId));
      }
    }
    SumOf(Filter(st.Attendees, AttendeeOf(eventId)), AttendeePeople)
  }

  /** `GetCheckedInCount(eventId)`: the same sum over only the checked-in ones. */
  function GetCheckedInCount(st: Store, eventId: int): (n: int)
    ensures (forall i | 0 <= i < |st.Attendees| ::
               st.Attendees[i].EventId == eventId ==> st.Attendees[i].NumberOfAttendees >= 0)
      ==> n >= 0
    ensures (forall i | 0 <= i < |st.Attendees| ::
               st.Attendees[i].EventId == eventId ==> !st.Attendees[i].CheckedIn)
      ==> n == 0
  {
    SumNonNegativeFilter(st.Attendees, CheckedInAttendeeOf(eventId), AttendeePeople);
    assert (forall i | 0 <= i < |st.Attendees| ::
              st.Attendees[i].EventId == eventId ==> !st.Attendees[i].CheckedIn)
      ==> Filter(st.Attendees, CheckedInAttendeeOf(eventId)) == [] by {
      if forall i | 0 <= i < |st.Attendees| ::
           st.Attendees[i].EventId == eventId ==> !st.Attendees[i].CheckedIn {
        FilterNone(st.Attendees, CheckedInAttendeeOf(eventId));
      }
    }
    SumOf(Filter(st.Attendees, CheckedInAttendeeOf(eventId)), AttendeePeople)
  }

  /** A successful `AddAttendee` adds the new record's people to its own event's
      total, and to that event's checked-in count when the record arrives already
      checked in; every other event's counts stay as they were. */
  lemma AddUpdatesCounts(st: Store, attendee: AttendeeInfo, now: Instant, eventId: int)
    requires EventExists(st.Events, attendee.EventId)
    ensures var st' := AddAttendee(st, attendee, now).2;
      && GetTotalAttendeesCount(st', eventId)
           == GetTotalAttendeesCount(st, eventId)
              + (if attendee.EventId == eventId then attendee.NumberOfAttendees else 0)
      && GetCheckedInCount(st', eventId)
           == GetCheckedInCount(st, eventId)
              + (if attendee.EventId == eventId && attendee.CheckedIn then attendee.NumberOfAttendees else 0)
  {
    var stored := AddAttendee(st, attendee, now).1;
    AddedToFilterSum(st.Attendees, stored, AttendeeOf(eventId));
    AddedToFilterSum(st.Attendees, stored, CheckedInAttendeeOf(eventId));
    assert AttendeeOf(eventId)(stored) <==> attendee.EventId == eventId;
    assert CheckedInAttendeeOf(eventId)(stored) <==> attendee.EventId == eventId && attendee.CheckedIn;
  }

  /** Appending one attendee adds its people to a filtered sum exactly when the
      filter keeps it. */
  lemma AddedToFilterSum(xs: seq<AttendeeInfo>, a: AttendeeInfo, p: AttendeeInfo -> bool)
    ensures SumOf(Filter(xs + [a], p), AttendeePeople)
         == SumOf(Filter(xs, p), AttendeePeople) + (if p(a) then a.NumberOfAttendees else 0)
  {
    FilterAppend(xs, a, p);
    SumAppend(Filter(xs, p), a, AttendeePeople);
    if !p(a) {
      assert Filter(xs, p) + [] == Filter(xs, p);
    }
  }

  /** Checked-in people never outnumber the people registered as attendees, as
      long as the event's attendee records carry non-negative counts. */
  lemma CheckedInAtMostTotal(st: Store, eventId: int)
    requires forall i | 0 <= i < |st.Attendees| ::
      st.Attendees[i].EventId == eventId ==> st.Attendees[i].NumberOfAttendees >= 0
    ensures GetCheckedInCount(st, eventId) <= GetTotalAttendeesCount(st, eventId)
  {
    SumFilterMonotone(st.Attendees, AttendeeOf(eventId), CheckedInAttendeeOf(eventId), AttendeePeople);
  }

  /** Position `k` holds the first attendee with id `id`. */
  predicate IsFirstWithId(attendees: seq<AttendeeInfo>, k: int, id: int)
  {
    0 <= k < |attendees| && attendees[k].Id == id && forall j | 0 <= j < k :: attendees[j].Id != id
  }

  /** `CheckInAttendee(attendeeId)` at `now`. An unknown id is refused and nothing
      changes; otherwise the first attendee with that id is marked checked in at
      `now`, and nothing else changes. */
  function CheckInAttendee(st: Store, attendeeId: int, now: Instant): (r: (bool, Store))
    ensures r.0 <==> exists i | 0 <= i < |st.Attendees| :: st.Attendees[i].Id == attendeeId
    ensures !r.0 ==> r.1 == st
    ensures r.1.(Attendees := st.Attendees) == st
    ensures |r.1.Attendees| == |st.Attendees|
    ensures forall k | 0 <= k < |st.Attendees| ::
      r.1.Attendees[k] == if IsFirstWithId(st.Attendees, k, attendeeId)
                          then st.Attendees[k].(CheckedIn := true, CheckInTime := Some(now))
                          else st.Attendees[k]
  {
    if FirstIndex(st.Attendees, HasAttendeeId(attendeeId)).Some? then
      (true, st.(Attendees := MarkFirst(st.Attendees, attendeeId, now)))
    else
      (false, st)
  }

  /** The attendee list with the first attendee with id `id` (if any) marked
      checked in at `now`. */
  function MarkFirst(attendees: seq<AttendeeInfo>, id: int, now: Instant): (r: seq<AttendeeInfo>)
    ensures |r| == |attendees|
    ensures forall k | 0 <= k < |attendees| ::
      r[k] == if IsFirstWithId(attendees, k, id)
              then attendees[k].(CheckedIn := true, CheckInTime := Some(now))
              else attendees[k]
  {
    match FirstIndex(attendees, HasAttendeeId(id))
    case None => attendees
    case Some(i) =>
      assert forall k | 0 <= k < |attendees| :: IsFirstWithId(attendees, k, id) <==> k == i;
      attendees[i := attendees[i].(CheckedIn := true, CheckInTime := Some(now))]
  }

  /** Checking in twice is checking in once at the later time: the flag stays set
      and the time is re-stamped. */
  lemma CheckInIdempotent(st: Store, attendeeId: int, t1: Instant, t2: Instant)
    ensures CheckInAttendee(CheckInAttendee(st, attendeeId, t1).1, attendeeId, t2)
         == CheckInAttendee(st, attendeeId, t2)
  {
    var once := CheckInAttendee(st, attendeeId, t1);
    if once.0 {
      var a := st.Attendees;
      MarkTwice(a, MarkFirst(a, attendeeId, t1), MarkFirst(MarkFirst(a, attendeeId, t1), attendeeId, t2),
                attendeeId, t1, t2);
      assert MarkFirst(MarkFirst(a, attendeeId, t1), attendeeId, t2) == MarkFirst(a, attendeeId, t2);
    }
  }

  /** Marking the first attendee with an id checked in at `t1` and then at `t2`
      marks the same attendee, with the time `t2`. */
  lemma MarkTwice(a: seq<AttendeeInfo>, b: seq<AttendeeInfo>, c: seq<AttendeeInfo>,
                  id: int, t1: Instant, t2: Instant)
    requires |b| == |a| && |c| == |a|
    requires forall k | 0 <= k < |a| ::
      b[k] == if IsFirstWithId(a, k, id) then a[k].(CheckedIn := true, CheckInTime := Some(t1)) else a[k]
    requires forall k | 0 <= k < |b| ::
      c[k] == if IsFirstWithId(b, k, id) then b[k].(CheckedIn := true, CheckInTime := Some(t2)) else b[k]
    ensures forall k | 0 <= k < |a| ::
      c[k] == if IsFirstWithId(a, k, id) then a[k].(CheckedIn := true, CheckInTime := Some(t2)) else a[k]
  {
    assert forall k | 0 <= k < |a| :: b[k].Id == a[k].Id;
    assert forall k | 0 <= k < |a| :: IsFirstWithId(b, k, id) <==> IsFirstWithId(a, k, id);
  }

  /** In a valid store the attendee with id `n` sits at position n - 1, so a
      check-in succeeds exactly for the ids 1 to the number of attendees. */
  lemma CheckInValidIds(st: Store, attendeeId: int, now: Instant)
    requires Valid(st)
    ensures CheckInAttendee(st, attendeeId, now).0 <==> 1 <= attendeeId <= |st.Attendees|
    ensures 1 <= attendeeId <= |st.Attendees| ==>
      CheckInAttendee(st, attendeeId, now).1.Attendees
        == st.Attendees[attendeeId - 1 := st.Attendees[attendeeId - 1].(CheckedIn := true,
                                                                          CheckInTime := Some(now))]
  {
    if 1 <= attendeeId <= |st.Attendees| {
      assert IsFirstWithId(st.Attendees, attendeeId - 1, attendeeId);
    }
  }

  /** A check-in leaves every total unchanged and adds the attendee's people to
      their event's checked-in count, unless they were already checked in. */
  lemma CheckInUpdatesCounts(st: Store, k: int, now: Instant, eventId: int)
    requires 0 <= k < |st.Attendees| && IsFirstWithId(st.Attendees, k, st.Attendees[k].Id)
    ensures var a := st.Attendees[k];
      var st' := CheckInAttendee(st, a.Id, now).1;
      && GetTotalAttendeesCount(st', eventId) == GetTotalAttendeesCount(st, eventId)
      && GetCheckedInCount(st', eventId)
         == GetCheckedInCount(st, eventId)
            + (if a.EventId == eventId && !a.CheckedIn then a.NumberOfAttendees else 0)
  {
    var a := st.Attendees[k];
    var st' := CheckInAttendee(st, a.Id, now).1;
    var b := a.(CheckedIn := true, CheckInTime := Some(now));
    assert st'.Attendees == st.Attendees[k := b];
    SumFilterUpdate(st.Attendees, k, b, AttendeeOf(eventId), AttendeePeople);
    SumFilterUpdate(st.Attendees, k, b, CheckedInAttendeeOf(eventId), AttendeePeople);
  }

  function EmailMatch(eventId: int, email: string): AttendeeInfo -> bool
  {
    (a: AttendeeInfo) => a.EventId == eventId && EqualsIgnoreCase(a.Email, email)
  }

  /** `GetAttendeeByEmail(eventId, email)`: the first attendee of that event whose
      e-mail equals `email` ignoring case, or none. */
  function GetAttendeeByEmail(st: Store, eventId: int, email: string): (r: Option<AttendeeInfo>)
    ensures r.None? <==> forall i | 0 <= i < |st.Attendees| ::
      !(st.Attendees[i].EventId == eventId && EqualsIgnoreCase(st.Attendees[i].Email, email))
    ensures r.Some? ==> exists i | 0 <= i < |st.Attendees| ::
      && st.Attendees[i] == r.value
      && r.value.EventId == eventId
      && EqualsIgnoreCase(r.value.Email, email)
      && forall j | 0 <= j < i ::
           !(st.Attendees[j].EventId == eventId && EqualsIgnoreCase(st.Attendees[j].Email, email))
  {
    match FirstIndex(st.Attendees, EmailMatch(eventId, email))
    case None => None
    case Some(i) => Some(st.Attendees[i])
  }

  // ---------------------------------------------------------------------------
  // Whole histories of store operations.

  datatype Command =
    | Register(registration: EventRegistration)
    | Add(attendee: AttendeeInfo)
    | CheckIn(attendeeId: int)

  function Step(st: Store, c: Command, now: Instant): Store
  {
    match c
    case Register(reg) => RegisterForEvent(st, reg, now).2
    case Add(a) => AddAttendee(st, a, now).2
    case CheckIn(id) => CheckInAttendee(st, id, now).1
  }

  function Run(st: Store, trace: seq<(Command, Instant)>): Store
    decreases |trace|
  {
    if |trace| == 0 then st else Run(Step(st, trace[0].0, trace[0].1), trace[1..])
  }

  lemma StepPreservesValid(st: Store, c: Command, now: Instant)
    requires Valid(st)
    ensures Valid(Step(st, c, now))
    ensures Step(st, c, now).Events == st.Events
  {
    match c
    case Register(reg) =>
    case Add(a) =>
    case CheckIn(id) =>
      var st' := CheckInAttendee(st, id, now).1;
      assert forall i | 0 <= i < |st.Attendees| ::
        st'.Attendees[i].Id == st.Attendees[i].Id && st'.Attendees[i].EventId == st.Attendees[i].EventId;
  }

  /** From any valid state, and so from the initial one, every history of
      registrations, attendee additions and check-ins keeps the store valid: the
      ids handed out are 1, 2, ... in insertion order with no gaps or repeats, and
      the catalog never changes. */
  lemma {:induction false} RunPreservesValid(st: Store, trace: seq<(Command, Instant)>)
    requires Valid(st)
    ensures Valid(Run(st, trace))
    ensures Run(st, trace).Events == st.Events
    decreases |trace|
  {
    if |trace| > 0 {
      StepPreservesValid(st, trace[0].0, trace[0].1);
      RunPreservesValid(Step(st, trace[0].0, trace[0].1), trace[1..]);
    }
  }

  /** In a valid store the ids are strictly increasing and never repeat, and the
      next id to hand out is larger than all of them. */
  lemma ValidIdsFresh(st: Store)
    requires Valid(st)
    ensures forall i, j | 0 <= i < j < |st.Registrations| ::
      st.Registrations[i].Id < st.Registrations[j].Id
    ensures forall i | 0 <= i < |st.Registrations| :: st.Registrations[i].Id < st.NextRegistrationId
    ensures forall i, j | 0 <= i < j < |st.Attendees| :: st.Attendees[i].Id < st.Attendees[j].Id
    ensures forall i | 0 <= i < |st.Attendees| :: st.Attendees[i].Id < st.NextAttendeeId
  {
  }

  /** An e-mail lookup ignores case. */
  lemma EmailLookupIgnoresCase(eventId: int)
    ensures
      var a := DefaultAttendee.(EventId := eventId, Email := "a@b.com");
      var st := Store(SeedEvents, [], [a], 1, 2);
      && GetAttendeeByEmail(st, eventId, "A@B.com") == Some(a)
      && GetAttendeeByEmail(st, eventId + 1, "a@b.com") == None
      && GetAttendeeByEmail(st, eventId, "c@b.com") == None
  {
    assert ToUpper("a@b.com") == ToUpper("A@B.com");
    assert ToUpper("a@b.com") != ToUpper("c@b.com") by {
      assert ToUpper("a@b.com")[0] != ToUpper("c@b.com")[0];
    }
  }

  /** The counts over a two-attendee list. */
  lemma PairCounts(st: Store, x: AttendeeInfo, y: AttendeeInfo, eventId: int)
    requires st.Attendees == [x, y]
    ensures GetTotalAttendeesCount(st, eventId)
         == (if x.EventId == eventId then x.NumberOfAttendees else 0)
            + (if y.EventId == eventId then y.NumberOfAttendees else 0)
    ensures GetCheckedInCount(st, eventId)
         == (if x.EventId == eventId && x.CheckedIn then x.NumberOfAttendees else 0)
            + (if y.EventId == eventId && y.CheckedIn then y.NumberOfAttendees else 0)
  {
    assert [x, y] == [x] + [y] && [y] + [] == [y];
    FilterCons(y, [], AttendeeOf(eventId));
    FilterCons(x, [y], AttendeeOf(eventId));
    FilterCons(y, [], CheckedInAttendeeOf(eventId));
    FilterCons(x, [y], CheckedInAttendeeOf(eventId));
    assert [x, y][1..] == [y];
    assert SumOf([y], AttendeePeople) == y.NumberOfAttendees;
    assert SumOf([x], AttendeePeople) == x.NumberOfAttendees;
  }

  /** Two attendees of one event registered at different times are listed newest
      first. */
  lemma PairNewestFirst(st: Store, x: AttendeeInfo, y: AttendeeInfo, eventId: int)
    requires st.Attendees == [x, y]
    requires x.EventId == eventId && y.EventId == eventId
    requires x.RegistrationDate < y.RegistrationDate
    ensures GetAttendeesByEvent(st, eventId) == [y, x]
  {
    assert [x, y] == [x] + [y] && [y] + [] == [y];
    FilterCons(y, [], AttendeeOf(eventId));
    FilterCons(x, [y], AttendeeOf(eventId));
    assert Filter(st.Attendees, AttendeeOf(eventId)) == [x, y];
    assert SortBy([y], NewestFirst) == [y];
    assert [x, y][1..] == [y];
    assert SortBy([x, y], NewestFirst) == Insert(x, [y], NewestFirst);
    assert Insert(x, [y], NewestFirst) == [y] + Insert(x, [], NewestFirst);
  }

  /** Attendee A (two people) then B (one person) join event 1; A checks in.
      The event counts three people, two of them checked in, and lists B first. */
  lemma CheckInScenario(t1: Instant, t2: Instant, t3: Instant)
    requires t1 < t2
    ensures
      var a := DefaultAttendee.(EventId := 1, FullName := "A", NumberOfAttendees := 2);
      var b := DefaultAttendee.(EventId := 1, FullName := "B", NumberOfAttendees := 1);
      var s1 := AddAttendee(New(), a, t1).2;
      var s2 := AddAttendee(s1, b, t2).2;
      var s3 := CheckInAttendee(s2, 1, t3).1;
      && GetTotalAttendeesCount(s2, 1) == 3
      && GetCheckedInCount(s2, 1) == 0
      && GetCheckedInCount(s3, 1) == 2
      && GetAttendeesByEvent(s3, 1) == [s3.Attendees[1], s3.Attendees[0]]
      && s3.Attendees[0].FullName == "A" && s3.Attendees[0].CheckedIn
      && s3.Attendees[1].FullName == "B" && !s3.Attendees[1].CheckedIn
  {
    var a := DefaultAttendee.(EventId := 1, FullName := "A", NumberOfAttendees := 2);
    var b := DefaultAttendee.(EventId := 1, FullName := "B", NumberOfAttendees := 1);
    assert EventExists(SeedEvents, 1) by {
      assert SeedEvents[0].Id == 1;
    }
    var s1 := AddAttendee(New(), a, t1).2;
    var s2 := AddAttendee(s1, b, t2).2;
    var s3 := CheckInAttendee(s2, 1, t3).1;
    var a1 := s2.Attendees[0];
    var b1 := s2.Attendees[1];
    assert s2.Attendees == [a1, b1];
    CheckInValidIds(s2, 1, t3);
    var a2 := s3.Attendees[0];
    assert s3.Attendees == [a2, b1];
    PairCounts(s2, a1, b1, 1);
    PairCounts(s3, a2, b1, 1);
    PairNewestFirst(s3, a2, b1, 1);
  }
}
