/** One user's session record (Models/UserSession.cs). */
module SessionModel {
  import opened Optional
  import opened Clock

  datatype UserSession = UserSession(
    SessionId: string,
    UserName: Option<string>,
    Email: Option<string>,
    SessionStartTime: Instant,
    LastActivityTime: Instant,
    ViewedEvents: seq<int>,
    RegisteredEvents: seq<int>,
    PageViews: int)

  /** `new UserSession()` created at `now`. The fresh GUID text is a parameter;
      both timestamps read the one instant `now`. */
  function NewSession(sessionId: string, now: Instant): (s: UserSession)
    ensures s.PageViews == 0
    ensures s.ViewedEvents == [] && s.RegisteredEvents == []
    ensures s.UserName.None? && s.Email.None?
    ensures s.SessionStartTime == now && s.LastActivityTime == now
    ensures s.SessionId == sessionId
  {
    UserSession(sessionId, None, None, now, now, [], [], 0)
  }

  /** Marks activity: the last-activity time becomes `now`, one more page view,
      and every other field is kept. */
  function UpdateActivity(s: UserSession, now: Instant): (t: UserSession)
    ensures t.LastActivityTime == now
    ensures t.PageViews == s.PageViews + 1
    ensures t.SessionId == s.SessionId && t.UserName == s.UserName && t.Email == s.Email
    ensures t.SessionStartTime == s.SessionStartTime
    ensures t.ViewedEvents == s.ViewedEvents && t.RegisteredEvents == s.RegisteredEvents
  {
    s.(LastActivityTime := now, PageViews := s.PageViews + 1)
  }

  /** `SessionDuration`: the time elapsed since the session started; negative only
      if the clock reads earlier than the start. */
  function SessionDuration(s: UserSession, now: Instant): (d: Duration)
    ensures s.SessionStartTime + d == now
    ensures d >= 0 <==> now >= s.SessionStartTime
  {
    now - s.SessionStartTime
  }

  predicate IsRegisteredForEvent(s: UserSession, eventId: int)
  {
    eventId in s.RegisteredEvents
  }

  /** A new session is registered for nothing; marking activity does not change
      what it is registered for; recording an id registers that id and keeps the
      others. */
  lemma RegisteredQuery(sessionId: string, now: Instant, s: UserSession, x: int, y: int)
    ensures !IsRegisteredForEvent(NewSession(sessionId, now), x)
    ensures IsRegisteredForEvent(UpdateActivity(s, now), x) <==> IsRegisteredForEvent(s, x)
    ensures IsRegisteredForEvent(s.(RegisteredEvents := s.RegisteredEvents + [y]), x)
        <==> x == y || IsRegisteredForEvent(s, x)
  {
  }
}
