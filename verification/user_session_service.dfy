/** The per-user session tracker (Services/UserSessionService.cs): owns one
    session, records views, registrations and page navigation, and reports a
    statistics line. The observer callback is modelled by counting how many times
    the tracker has notified its subscribers. */
module UserSessionService {
  import opened Optional
  import opened Clock
  import opened Seqs
  import opened Decimal
  import opened SessionModel

  datatype Service = Service(Session: UserSession, Notifications: nat)

  /** A service created at `now` around a fresh session. */
  function New(sessionId: string, now: Instant): (svc: Service)
    ensures svc.Session == NewSession(sessionId, now)
    ensures svc.Notifications == 0
  {
    Service(NewSession(sessionId, now), 0)
  }

  /** Both id lists hold no duplicates. */
  predicate Valid(svc: Service)
  {
    NoDup(svc.Session.ViewedEvents) && NoDup(svc.Session.RegisteredEvents)
  }

  /** What marking activity does to the parts of the state every mutation
      touches: one more page view, last activity `now`, one more notification,
      and the start time and id of the session kept. */
  ghost predicate MarksActivity(before: Service, after: Service, now: Instant)
  {
    && after.Session.PageViews == before.Session.PageViews + 1
    && after.Session.LastActivityTime == now
    && after.Session.SessionStartTime == before.Session.SessionStartTime
    && after.Session.SessionId == before.Session.SessionId
    && after.Notifications == before.Notifications + 1
  }

  /** UpdateActivity followed by NotifyStateChanged. */
  function Touch(svc: Service, now: Instant): Service
  {
    Service(UpdateActivity(svc.Session, now), svc.Notifications + 1)
  }

  function SetUserInfo(svc: Service, userName: string, email: string, now: Instant): (r: Service)
    ensures MarksActivity(svc, r, now)
    ensures r.Session.UserName == Some(userName) && r.Session.Email == Some(email)
    ensures r.Session.(UserName := svc.Session.UserName, Email := svc.Session.Email,
                       LastActivityTime := svc.Session.LastActivityTime,
                       PageViews := svc.Session.PageViews) == svc.Session
  {
    Touch(svc.(Session := svc.Session.(UserName := Some(userName), Email := Some(email))), now)
  }

  function TrackEventView(svc: Service, eventId: int, now: Instant): (r: Service)
    ensures MarksActivity(svc, r, now)
    ensures HasViewedEvent(r, eventId)
    ensures eventId in svc.Session.ViewedEvents ==> r.Session.ViewedEvents == svc.Session.ViewedEvents
    ensures eventId !in svc.Session.ViewedEvents ==>
      r.Session.ViewedEvents == svc.Session.ViewedEvents + [eventId]
    ensures Valid(svc) ==> Valid(r)
    ensures r.Session.(ViewedEvents := svc.Session.ViewedEvents,
                       LastActivityTime := svc.Session.LastActivityTime,
                       PageViews := svc.Session.PageViews) == svc.Session
  {
    var viewed := AddIfAbsent(svc.Session.ViewedEvents, eventId);
    Touch(svc.(Session := svc.Session.(ViewedEvents := viewed)), now)
  }

  /** The session's own record of a registration, separate from the store's. */
  function RegisterForEvent(svc: Service, eventId: int, now: Instant): (r: Service)
    ensures MarksActivity(svc, r, now)
    ensures IsRegisteredForEvent(r, eventId)
    ensures eventId in svc.Session.RegisteredEvents ==>
      r.Session.RegisteredEvents == svc.Session.RegisteredEvents
    ensures eventId !in svc.Session.RegisteredEvents ==>
      r.Session.RegisteredEvents == svc.Session.RegisteredEvents + [eventId]
    ensures Valid(svc) ==> Valid(r)
    ensures r.Session.(RegisteredEvents := svc.Session.RegisteredEvents,
                       LastActivityTime := svc.Session.LastActivityTime,
                       PageViews := svc.Session.PageViews) == svc.Session
  {
    var registered := AddIfAbsent(svc.Session.RegisteredEvents, eventId);
    Touch(svc.(Session := svc.Session.(RegisteredEvents := registered)), now)
  }

  function TrackPageView(svc: Service, now: Instant): (r: Service)
    ensures MarksActivity(svc, r, now)
    ensures r.Session.(LastActivityTime := svc.Session.LastActivityTime,
                       PageViews := svc.Session.PageViews) == svc.Session
  {
    Touch(svc, now)
  }

  predicate HasViewedEvent(svc: Service, eventId: int)
  {
    eventId in svc.Session.ViewedEvents
  }

  predicate IsRegisteredForEvent(svc: Service, eventId: int)
  {
    SessionModel.IsRegisteredForEvent(svc.Session, eventId)
  }

  // ---------------------------------------------------------------------------
  // The statistics line.

  /** The five numbers the statistics line reports. */
  datatype Stats = Stats(Minutes: int, Seconds: int, PageViews: int, EventsViewed: int, Registered: int)

  /** "Session: {M}m {S}s | Views: {P} | Events Viewed: {V} | Registered: {R}". */
  function FormatStats(st: Stats): string
  {
    "Session: " + (IntToString(st.Minutes) + ("m " + (IntToString(st.Seconds) +
    ("s | Views: " + (IntToString(st.PageViews) +
    (" | Events Viewed: " + (IntToString(st.EventsViewed) +
    (" | Registered: " + IntToString(st.Registered)))))))))
  }

  /** `s` starts with `lit`: what follows it. */
  function ExpectLiteral(lit: string, s: string): Option<string>
  {
    if |lit| <= |s| && s[..|lit|] == lit then Some(s[|lit|..]) else None
  }

  /** Reads a statistics line back into its numbers. Each number must be written
      canonically (no superfluous leading zero, no "-0"), as `IntToString` writes
      it, so the reader accepts exactly one line per five numbers. */
  function ParseStats(s: string): Option<Stats>
  {
    var a :- ExpectLiteral("Session: ", s);
    var m :- ReadInt(a);
    var b :- ExpectLiteral("m ", m.1);
    var sec :- ReadInt(b);
    var c :- ExpectLiteral("s | Views: ", sec.1);
    var views :- ReadInt(c);
    var d :- ExpectLiteral(" | Events Viewed: ", views.1);
    var viewed :- ReadInt(d);
    var e :- ExpectLiteral(" | Registered: ", viewed.1);
    var registered :- ReadInt(e);
    if registered.1 == [] then Some(Stats(m.0, sec.0, views.0, viewed.0, registered.0)) else None
  }

  lemma ExpectLiteralPrefix(lit: string, rest: string)
    ensures ExpectLiteral(lit, lit + rest) == Some(rest)
  {
    assert (lit + rest)[..|lit|] == lit;
    assert (lit + rest)[|lit|..] == rest;
  }

  /** Every statistics line reads back as the numbers it was made from. */
  lemma ParseFormatStats(st: Stats)
    ensures ParseStats(FormatStats(st)) == Some(st)
  {
    var r5 := IntToString(st.Registered);
    var l5 := " | Registered: " + r5;
    var r4 := IntToString(st.EventsViewed) + l5;
    var l4 := " | Events Viewed: " + r4;
    var r3 := IntToString(st.PageViews) + l4;
    var l3 := "s | Views: " + r3;
    var r2 := IntToString(st.Seconds) + l3;
    var l2 := "m " + r2;
    var r1 := IntToString(st.Minutes) + l2;
    ExpectLiteralPrefix("Session: ", r1);
    ReadIntToString(st.Minutes, l2);
    ExpectLiteralPrefix("m ", r2);
    ReadIntToString(st.Seconds, l3);
    ExpectLiteralPrefix("s | Views: ", r3);
    ReadIntToString(st.PageViews, l4);
    ExpectLiteralPrefix(" | Events Viewed: ", r4);
    ReadIntToString(st.EventsViewed, l5);
    ExpectLiteralPrefix(" | Registered: ", r5);
    ReadIntToString(st.Registered, []);
    assert r5 + [] == r5;
  }

  lemma ExpectLiteralInverse(lit: string, s: string)
    requires ExpectLiteral(lit, s).Some?
    ensures s == lit + ExpectLiteral(lit, s).value
  {
    assert s == s[..|lit|] + s[|lit|..];
  }

  /** The converse of `ParseFormatStats`: the only line that reads back as `st` is
      `FormatStats(st)`, so the numbers determine the text. */
  lemma ParseStatsInverse(s: string)
    requires ParseStats(s).Some?
    ensures s == FormatStats(ParseStats(s).value)
  {
    var a := ExpectLiteral("Session: ", s).value;
    ExpectLiteralInverse("Session: ", s);
    var m := ReadInt(a).value;
    ReadIntInverse(a);
    var b := ExpectLiteral("m ", m.1).value;
    ExpectLiteralInverse("m ", m.1);
    var sec := ReadInt(b).value;
    ReadIntInverse(b);
    var c := ExpectLiteral("s | Views: ", sec.1).value;
    ExpectLiteralInverse("s | Views: ", sec.1);
    var views := ReadInt(c).value;
    ReadIntInverse(c);
    var d := ExpectLiteral(" | Events Viewed: ", views.1).value;
    ExpectLiteralInverse(" | Events Viewed: ", views.1);
    var viewed := ReadInt(d).value;
    ReadIntInverse(d);
    var e := ExpectLiteral(" | Registered: ", viewed.1).value;
    ExpectLiteralInverse(" | Registered: ", viewed.1);
    var registered := ReadInt(e).value;
    ReadIntInverse(e);
    assert e == IntToString(registered.0);
  }

  /** `GetSessionStats()` at `now`: the line reports the minutes and seconds
      components of the session's duration, the page-view count and the sizes of
      the two lists. */
  function GetSessionStats(svc: Service, now: Instant): (r: string)
    ensures
      var d := SessionDuration(svc.Session, now);
      ParseStats(r) == Some(Stats(MinutesComponent(d), SecondsComponent(d), svc.Session.PageViews,
                                  |svc.Session.ViewedEvents|, |svc.Session.RegisteredEvents|))
    ensures forall s :: ParseStats(s) == ParseStats(r) ==> s == r
  {
    var d := SessionDuration(svc.Session, now);
    var st := Stats(MinutesComponent(d), SecondsComponent(d), svc.Session.PageViews,
                    |svc.Session.ViewedEvents|, |svc.Session.RegisteredEvents|);
    ParseFormatStats(st);
    forall s | ParseStats(s) == Some(st)
      ensures s == FormatStats(st)
    {
      ParseStatsInverse(s);
    }
    FormatStats(st)
  }

  // ---------------------------------------------------------------------------
  // Whole histories of tracked actions.

  datatype Action =
    | UserInfo(userName: string, email: string)
    | EventView(eventId: int)
    | EventRegistered(eventId: int)
    | PageView

  function Apply(svc: Service, a: Action, now: Instant): Service
  {
    match a
    case UserInfo(n, e) => SetUserInfo(svc, n, e, now)
    case EventView(id) => TrackEventView(svc, id, now)
    case EventRegistered(id) => RegisterForEvent(svc, id, now)
    case PageView => TrackPageView(svc, now)
  }

  /** Applies the actions in order, each at its own instant. */
  function Run(svc: Service, trace: seq<(Action, Instant)>): Service
    decreases |trace|
  {
    if |trace| == 0 then svc else Run(Apply(svc, trace[0].0, trace[0].1), trace[1..])
  }

  /** Over any history: the lists never gain a duplicate and only grow at the end,
      every action counts exactly one page view and one notification (so the count
      never decreases), and neither the start time nor the id is ever written. */
  lemma {:induction false} RunInvariant(svc: Service, trace: seq<(Action, Instant)>)
    requires Valid(svc)
    ensures var r := Run(svc, trace);
      && Valid(r)
      && r.Session.PageViews == svc.Session.PageViews + |trace|
      && r.Notifications == svc.Notifications + |trace|
      && r.Session.SessionStartTime == svc.Session.SessionStartTime
      && r.Session.SessionId == svc.Session.SessionId
      && |svc.Session.ViewedEvents| <= |r.Session.ViewedEvents|
      && r.Session.ViewedEvents[..|svc.Session.ViewedEvents|] == svc.Session.ViewedEvents
      && |svc.Session.RegisteredEvents| <= |r.Session.RegisteredEvents|
      && r.Session.RegisteredEvents[..|svc.Session.RegisteredEvents|] == svc.Session.RegisteredEvents
    decreases |trace|
  {
    if |trace| > 0 {
      var next := Apply(svc, trace[0].0, trace[0].1);
      RunInvariant(next, trace[1..]);
      var r := Run(next, trace[1..]);
      assert r.Session.ViewedEvents[..|svc.Session.ViewedEvents|]
          == r.Session.ViewedEvents[..|next.Session.ViewedEvents|][..|svc.Session.ViewedEvents|];
      assert r.Session.RegisteredEvents[..|svc.Session.RegisteredEvents|]
          == r.Session.RegisteredEvents[..|next.Session.RegisteredEvents|][..|svc.Session.RegisteredEvents|];
    }
  }

  /** `HasViewedEvent` holds of no event on a new tracker, and an event becomes
      viewed exactly by an `EventView` of it; no other action changes the answer. */
  lemma ViewedAfterAction(sessionId: string, t0: Instant, svc: Service, a: Action, now: Instant, x: int)
    ensures !HasViewedEvent(New(sessionId, t0), x)
    ensures HasViewedEvent(Apply(svc, a, now), x) <==> HasViewedEvent(svc, x) || a == EventView(x)
  {
  }

  /** `IsRegisteredForEvent` holds of no event on a new tracker, and an event
      becomes registered exactly by an `EventRegistered` of it; no other action
      changes the answer. */
  lemma RegisteredAfterAction(sessionId: string, t0: Instant, svc: Service, a: Action, now: Instant, x: int)
    ensures !IsRegisteredForEvent(New(sessionId, t0), x)
    ensures IsRegisteredForEvent(Apply(svc, a, now), x)
        <==> IsRegisteredForEvent(svc, x) || a == EventRegistered(x)
  {
  }

  /** Viewing event 5 twice on a fresh session records it once. */
  lemma ViewTwiceRecordsOnce(id: string, t0: Instant, t1: Instant, t2: Instant)
    ensures var r := TrackEventView(TrackEventView(New(id, t0), 5, t1), 5, t2);
      HasViewedEvent(r, 5) && |r.Session.ViewedEvents| == 1 && r.Session.PageViews == 2
  {
  }

  /** After three page views on a fresh session the line reports 3 views and no
      events. */
  lemma FreshCountsText()
    ensures "s | Views: " + (IntToString(3) + (" | Events Viewed: " + (IntToString(0) +
      (" | Registered: " + IntToString(0))))) == "s | Views: 3" + (" | Events Viewed: 0" + " | Registered: 0")
  {
    SmallNumerals();
    assert " | Registered: " + "0" == " | Registered: 0";
    assert " | Events Viewed: " + "0" == " | Events Viewed: 0";
    assert "s | Views: " + "3" == "s | Views: 3";
  }

  lemma SmallNumerals()
    ensures IntToString(3) == "3" && IntToString(0) == "0"
  {
    assert NatToString(3) == [DigitChar(3)];
    assert NatToString(0) == [DigitChar(0)];
  }

  lemma ThreePageViews(id: string, t0: Instant, t1: Instant, t2: Instant, t3: Instant, now: Instant)
    ensures var r := TrackPageView(TrackPageView(TrackPageView(New(id, t0), t1), t2), t3);
      var d := SessionDuration(r.Session, now);
      GetSessionStats(r, now) == "Session: " + IntToString(MinutesComponent(d)) + "m "
        + IntToString(SecondsComponent(d)) + "s | Views: 3" + " | Events Viewed: 0" + " | Registered: 0"
  {
    var r := TrackPageView(TrackPageView(TrackPageView(New(id, t0), t1), t2), t3);
    var d := SessionDuration(r.Session, now);
    var st := Stats(MinutesComponent(d), SecondsComponent(d), 3, 0, 0);
    assert r.Session.PageViews == 3 && |r.Session.ViewedEvents| == 0 && |r.Session.RegisteredEvents| == 0;
    assert IntToString(3) == "3" && IntToString(0) == "0";
    var line := "Session: " + IntToString(MinutesComponent(d)) + "m "
      + IntToString(SecondsComponent(d)) + "s | Views: 3" + " | Events Viewed: 0" + " | Registered: 0";
    FreshCountsText();
    assert line == FormatStats(st);
    ParseFormatStats(st);
    assert ParseStats(line) == ParseStats(GetSessionStats(r, now));
  }
}
