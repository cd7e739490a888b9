# EventEaseApp state layer in Dafny

This project models the in-memory state layer of the EventEase event-registration
app and proves properties of it. The layer has three parts:

- **The event catalog and registration/attendance store** (`EventService`). It
  holds the seeded events, the registrations, the attendees and two id counters
  that start at 1. Registering and adding an attendee first check that the
  referenced event exists. On success they hand out the next id and stamp the
  time. Queries filter, sort and sum over the lists. Checking in is the only
  operation that changes a stored record.
- **The per-user session tracker** (`UserSessionService` over `SessionModel`).
  It keeps two insertion-ordered id lists with set semantics. It counts every
  tracked action as a page view and stamps the last activity. It also formats a
  statistics line.
- **The attendee initials** (`AttendeeModel.InitialsOf`). The name is split on
  the space character, empty parts are dropped, and the first and last initials
  are taken, or "?" when there are none.

Everything is functional. Each store or session is an immutable datatype. Each
operation is a pure function from the old state to its result and the new state.
Operations that read the clock take the current instant `now` (a DateTime tick
count) as a parameter.

Files and modules:

| file | module | models |
|---|---|---|
| `option.dfy` | `Optional` | nullable results |
| `seqs.dfy` | `Seqs` | `Where`, `Sum`, `FirstOrDefault`, add-if-absent, the stable `OrderBy` |
| `ascii.dfy` | `Ascii` | `ToUpper` and `OrdinalIgnoreCase` (ASCII folding) |
| `decimal.dfy` | `Decimal` | how an `int` is written into an interpolated string, and reading it back |
| `clock.dfy` | `Clock` | instants, durations, the `TimeSpan.Minutes`/`Seconds` components |
| `event_model.dfy` | `EventModel` | the event record and the five seed events |
| `registration_model.dfy` | `RegistrationModel` | Models/EventRegistration.cs |
| `attendee_info.dfy` | `AttendeeModel` | Models/AttendeeInfo.cs, the `Initials` getter |
| `user_session.dfy` | `SessionModel` | Models/UserSession.cs |
| `user_session_service.dfy` | `UserSessionService` | Services/UserSessionService.cs |
| `event_service.dfy` | `EventService` | Services/EventService.cs |

Notes on the code as written, which the model follows:

- Failures are boolean returns. An unknown event id makes `RegisterForEvent` and
  `AddAttendee` return false. An unknown attendee id makes `CheckInAttendee`
  return false. Nothing is stored or changed in either case.
- The store does not check the 1–10 range of `NumberOfAttendees`. That range is
  a validation attribute checked by the form layer. An attendee record's count
  defaults to 0 and may be anything. So "checked in ≤ total" holds only when the
  event's attendee counts are non-negative, and `CheckedInAtMostTotal` requires
  that.
- `OrderBy` and `OrderByDescending` are stable sorts. Events with the same date
  keep catalog order, and attendees registered at the same instant keep
  insertion order. "Most recent first" is a stable ascending sort on the negated
  registration date. That gives the same order as a stable descending sort.
- `AddAttendee` keeps the caller's `CheckedIn` and `CheckInTime` as given. Only
  the id and registration date are overwritten.
- `CheckInAttendee` changes the first attendee with the id. In a valid store the
  ids are 1..n, so that is the attendee at position id − 1.
- The statistics line shows the minutes component of the duration, not the total
  minutes. A session of 65 minutes reads "5m".
- `HasViewedEvent` and `IsRegisteredForEvent` are list membership. They are
  modelled as predicates with exactly that body.

## Model

| member | source | states |
|---|---|---|
| `EventService.New` | Services/EventService.cs:13-62 | the store starts with the five seed events, no registrations or attendees, both counters at 1, and satisfies the id invariant |
| `EventService.GetAllEvents` | Services/EventService.cs:65-68 | the result is ordered by date, is a permutation of the catalog, and keeps catalog order among events with the same date |
| `Seqs.SortBy` | Services/EventService.cs:67 | `OrderBy` is a stable sort: the output is sorted by key, a permutation, and each key's elements keep their relative order |
| `EventService.GetEventById` | Services/EventService.cs:70-73 | none exactly when no event has the id; otherwise the first event in catalog order with that id |
| `EventService.GetUpcomingEvents` | Services/EventService.cs:75-78 | the result holds exactly the events dated at or after `now`, ordered by date, and equals the upcoming part of `GetAllEvents` in the same order |
| `Seqs.SortFilterCommute` | Services/EventService.cs:77 | filtering by a date threshold and then sorting gives the same sequence as sorting and then filtering |
| `EventService.RegisterForEvent` | Services/EventService.cs:81-91 | succeeds exactly when the event exists; on failure the caller's record and the store are unchanged; on success the record gets the old counter as id and `now` as date, is appended, the counter goes up by one, and nothing else changes |
| `EventService.GetRegistrationsByEvent` | Services/EventService.cs:93-96 | holds exactly the registrations for that event |
| `EventService.RegisterUpdatesListing` | Services/EventService.cs:81-96 | the listing keeps insertion order: empty in a new store, and a registration appends the stored record to its own event's listing only, while a refused one changes no listing |
| `EventService.GetRegistrationCount` | Services/EventService.cs:98-101 | non-negative when the event's registrations have non-negative counts; 0 for an event with no registrations |
| `EventService.RegisterUpdatesCount` | Services/EventService.cs:81-101 | a successful registration adds its number of people to its event's count and leaves every other event's count unchanged |
| `EventService.AddAttendee` | Services/EventService.cs:104-114 | same discipline as registration on the attendee list: false and no change for an unknown event; otherwise a fresh sequential id, date `now`, an append, the counter up by one |
| `EventService.GetAttendeesByEvent` | Services/EventService.cs:116-122 | exactly the event's attendees, newest registration first, ties in insertion order |
| `EventService.PairNewestFirst` | Services/EventService.cs:116-122 | two attendees of one event registered at different times are listed with the later one first |
| `EventService.GetTotalAttendeesCount` | Services/EventService.cs:124-129 | non-negative when the event's attendee counts are; 0 for an event with no attendees |
| `EventService.GetCheckedInCount` | Services/EventService.cs:131-136 | non-negative when the event's attendee counts are; 0 when none of the event's attendees is checked in |
| `EventService.AddUpdatesCounts` | Services/EventService.cs:104-136 | a successful add raises its own event's total by the record's people, and its checked-in count by the same amount when the record arrives checked in; every other event's counts stay the same |
| `EventService.PairCounts` | Services/EventService.cs:124-136 | over two attendees, the total counts the event's people and the checked-in count only those checked in |
| `EventService.CheckedInAtMostTotal` | Services/EventService.cs:124-136 | the checked-in count is at most the total count when the event's attendee counts are non-negative |
| `EventService.CheckInAttendee` | Services/EventService.cs:138-147 | succeeds exactly when some attendee has the id; on failure nothing changes; otherwise only the first attendee with the id changes, to checked in at `now` |
| `EventService.CheckInIdempotent` | Services/EventService.cs:138-147 | checking in twice equals checking in once at the later time |
| `EventService.CheckInValidIds` | Services/EventService.cs:138-147 | in a valid store a check-in succeeds exactly for ids 1..n and changes the attendee at position id − 1 |
| `EventService.CheckInUpdatesCounts` | Services/EventService.cs:124-147 | a check-in leaves every total unchanged and adds the attendee's people to their event's checked-in count unless already checked in |
| `EventService.GetAttendeeByEmail` | Services/EventService.cs:149-154 | none exactly when no attendee of that event has the e-mail ignoring case; otherwise the first such attendee in list order |
| `EventService.EmailLookupIgnoresCase` | Services/EventService.cs:149-154 | "A@B.com" finds the attendee stored as "a@b.com"; another event or another address finds nothing |
| `Ascii.EqualsIgnoreCaseCharwise` | Services/EventService.cs:153 | ignoring case, two strings are equal exactly when they have the same length and agree position by position up to letter case |
| `EventService.StepPreservesValid` | Services/EventService.cs:81-147 | registering, adding an attendee and checking in each keep the id invariant and never change the catalog |
| `EventService.RunPreservesValid` | Services/EventService.cs:87-110 | after any history of operations the registration ids and attendee ids are each exactly 1..n in insertion order, and every record names an existing event |
| `EventService.ValidIdsFresh` | Services/EventService.cs:10-11 | in a valid store ids strictly increase, never repeat, and are all below the next id to hand out |
| `EventService.CheckInScenario` | Services/EventService.cs:104-147 | A (2 people) then B (1 person) join event 1: the total is 3; after A checks in, 2 are checked in and the listing is B then A |
| `RegistrationModel.NewRegistration` | Models/EventRegistration.cs:23-28 | a new registration counts one attendee, has no special request and is dated at its creation |
| `AttendeeModel.InitialsOf` | Models/AttendeeInfo.cs:22-31 | the result has length 1 or 2; "?" for an empty or all-space name; otherwise the upper-cased first character of the first part, followed by that of the last part when there are two or more parts (it compares positions, not text, so "ann ann" gives "AA") |
| `AttendeeModel.SplitFirst` | Models/AttendeeInfo.cs:26 | the first part produced by the split begins at the first non-space character |
| `AttendeeModel.SplitLast` | Models/AttendeeInfo.cs:26 | the last part begins at the last word start, and it is the only part exactly when only spaces precede it |
| `AttendeeModel.SplitEmpty` | Models/AttendeeInfo.cs:26 | the split is empty exactly when the name is all spaces |
| `AttendeeModel.WordStartsExist` | Models/AttendeeInfo.cs:26-29 | a name that is not all spaces has a first and a last part, so `InitialsOf` determines its result for every name |
| `AttendeeModel.Initials` | Models/AttendeeInfo.cs:22-31 | the getter depends only on the full name: one or two characters, "?" for a blank name, otherwise the upper-cased starts of the first and last parts |
| `AttendeeModel.NewAttendeeDefaults` | Models/AttendeeInfo.cs:8-17 | a new attendee record is not checked in, has no check-in time, no people and empty texts, and its initials are "?" |
| `AttendeeModel.TabIsNotASeparator` | Models/AttendeeInfo.cs:26 | only ' ' separates: "ann\tlee" gives "A", " ann  lee " gives "AL", "   " gives "?" |
| `SessionModel.NewSession` | Models/UserSession.cs:8-15 | a fresh session has no page views, empty lists, no user name or e-mail, and starts at `now` |
| `SessionModel.UpdateActivity` | Models/UserSession.cs:20-24 | sets the last activity to `now`, adds one page view, and keeps every other field |
| `SessionModel.RegisteredQuery` | Models/UserSession.cs:34 | a new session is registered for nothing; marking activity does not change the answer; appending an id registers exactly that id in addition |
| `SessionModel.SessionDuration` | Models/UserSession.cs:29 | start plus duration is `now`; the duration is non-negative exactly when `now` is not before the start |
| `Clock.Components` | Services/UserSessionService.cs:94 | for d ≥ 0 with s whole seconds, the minutes component is (s / 60) % 60 and the seconds component s % 60; both lie in (−60, 60) and change sign with the duration |
| `UserSessionService.New` | Services/UserSessionService.cs:16-19 | a new tracker owns a fresh session and has not yet notified anyone |
| `UserSessionService.SetUserInfo` | Services/UserSessionService.cs:29-35 | sets the name and e-mail, marks activity (one page view, last activity `now`, one notification), and changes nothing else, lists included |
| `UserSessionService.TrackEventView` | Services/UserSessionService.cs:40-48 | afterwards the event counts as viewed; the list is unchanged if it held the id and otherwise has the id appended; no duplicate is introduced; activity is marked and nothing else changes |
| `UserSessionService.RegisterForEvent` | Services/UserSessionService.cs:53-61 | the same add-if-absent behaviour on the registered list; afterwards `IsRegisteredForEvent` holds |
| `Seqs.AddIfAbsent` | Services/UserSessionService.cs:42-45 | the element is present afterwards, the old list is a prefix, the list grows by one exactly when the element was absent, and no duplicate is introduced |
| `UserSessionService.TrackPageView` | Services/UserSessionService.cs:66-70 | marks activity and changes nothing but the page views and the last-activity time |
| `UserSessionService.ViewedAfterAction` | Services/UserSessionService.cs:75-78 | `HasViewedEvent` is false on a new tracker and becomes true for an event exactly through a view of it; no other action changes it |
| `UserSessionService.RegisteredAfterAction` | Services/UserSessionService.cs:83-86 | `IsRegisteredForEvent` is false on a new tracker and becomes true for an event exactly through a registration of it; no other action changes it |
| `UserSessionService.ViewTwiceRecordsOnce` | Services/UserSessionService.cs:40-48 | viewing event 5 twice on a fresh session records it once and counts two page views |
| `UserSessionService.GetSessionStats` | Services/UserSessionService.cs:91-95 | the line reads back as the minutes and seconds components of the duration, the page views, and the sizes of the two lists, and no other line reads back as those numbers, so the text is fixed by them |
| `UserSessionService.ParseFormatStats` | Services/UserSessionService.cs:94 | every statistics line reads back as the five numbers it was made from |
| `Decimal.ReadIntToString` | Services/UserSessionService.cs:94 | an integer written in decimal and followed by a non-digit reads back as the same integer and the same remainder |
| `Decimal.NatToString` | Services/UserSessionService.cs:94 | the numeral is canonical: digits only, and no leading '0' unless the number is 0 |
| `Decimal.IntToString` | Services/UserSessionService.cs:94 | the text starts with '-' exactly when the number is negative; the digits after it are canonical and never "0" (no "-0") |
| `Decimal.CanonicalUnique` | Services/UserSessionService.cs:94 | a canonical numeral is the numeral of its own value, so each number has exactly one canonical numeral |
| `Decimal.ReadIntInverse` | Services/UserSessionService.cs:94 | any text the reader accepts is the integer's numeral followed by the remainder, so only that text reads as that integer |
| `UserSessionService.ParseStatsInverse` | Services/UserSessionService.cs:94 | the only line that reads back as a set of five numbers is the line formatted from them |
| `UserSessionService.ThreePageViews` | Services/UserSessionService.cs:91-95 | after three page views on a fresh session the line is spelled out in full: "Session: ", the minutes component, "m ", the seconds component, then the literal text "s", then "Views: 3", "Events Viewed: 0" and "Registered: 0", each after the source's vertical-bar separator |
| `UserSessionService.RunInvariant` | Services/UserSessionService.cs:29-70 | over any history the lists never hold duplicates and only grow at the end, each action adds exactly one page view and one notification, and the start time and id are never written |

## Left out

- Program.cs (WebAssembly hosting, dependency injection, `HttpClient`) is framework plumbing.
- Models/Event.cs is not part of this model. The event record has the fields that the catalog's initializer sets.
- The seed events keep their ids, names, locations and dates. Their long descriptions are left empty.
- The observer list behind `OnSessionChanged` is left out. Each `NotifyStateChanged` call is modelled only as one more count in `Notifications`.
- `CurrentSession` is the `Session` field of the tracker state.
- `DateTime.Now` is a parameter `now`. A new `UserSession` reads the clock twice. The model uses one instant for both reads.
- `Guid.NewGuid()` for the session id is a parameter.
- The DataAnnotations attributes on EventRegistration are left out. The presentation layer checks them, not the store.
- The source's `string` values are never null in this model. A null attendee e-mail would throw in the e-mail lookup.
- Reference aliasing is not modelled. The C# store hands out its own objects, and callers could mutate them. The stamped record is returned as a value instead.
- `UserSessionService.RunInvariant`: the invariant covers only changes made through the tracker's four tracking actions. `CurrentSession` (Services/UserSessionService.cs:24) hands out the live `UserSession`, whose `ViewedEvents` and `RegisteredEvents` lists are settable and mutable (Models/UserSession.cs:13-14). A caller can write duplicates or shrink them directly, and no notification is raised.
- `EventService.RunPreservesValid`: the id invariant assumes every call passes a distinct object. If a caller passes the same object to `RegisterForEvent` or `AddAttendee` twice, the source stores two references to it. The second call re-stamps the first entry, so the ids read [2, 2] and `CheckInAttendee(1)` fails.
- `AttendeeModel.InitialsOf`: upper-casing covers ASCII letters only, not the culture-sensitive Unicode `ToUpper`.
- `AttendeeModel.InitialsOf`: a character here is a Unicode scalar value, while C#'s `parts[0][0]` is a UTF-16 code unit. For a name starting with a character outside the Basic Multilingual Plane (an emoji, say), the source returns the lone high surrogate and the model the whole character. The same holds for `Initials`.
- `EventService.GetAttendeeByEmail`: case folding covers ASCII letters only, not the full Unicode rules of `OrdinalIgnoreCase`.
- `EventService.RegisterForEvent`: the id counter is an unbounded integer. The source's 32-bit `int` would wrap after 2^31 − 1 registrations.
- `EventService.AddAttendee`: the same unbounded counter, for attendees.
- `UserSessionService.TrackPageView`: `PageViews` is unbounded. The 32-bit counter would wrap after 2^31 − 1 actions, so "never decreases" holds only below that. The same applies to `SetUserInfo`, `TrackEventView` and `RegisterForEvent`.
- `EventService.GetRegistrationCount`: the sum is exact. LINQ's checked `Sum` would throw an overflow exception beyond the 32-bit range. The same applies to `GetTotalAttendeesCount` and `GetCheckedInCount`.
- `EventService.GetUpcomingEvents`: the model compares every event with one instant `now`. The source reads `DateTime.Now` again for each event inside the `Where` filter (Services/EventService.cs:77), so the two agree only while the clock does not pass an event's date during the scan. An event dated inside that window is left out by the source when it is near the end of the list and kept when it is near the start.
- `UserSessionService.GetSessionStats`: the numbers are written as the invariant culture writes them, with '-' and the digits 0–9. C# interpolation uses the current culture, whose negative sign can differ, and that shows when the minutes or seconds component is negative.
