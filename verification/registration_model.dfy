/** The registration record (Models/EventRegistration.cs) as plain data. The
    field-shape attributes on it are checked by the presentation layer, not by the
    store, and are not modelled. */
module RegistrationModel {
  import opened Optional
  import opened Clock

  datatype EventRegistration = EventRegistration(
    Id: int,
    EventId: int,
    FullName: string,
    Email: string,
    Phone: string,
    NumberOfAttendees: int,
    SpecialRequests: Option<string>,
    RegistrationDate: Instant)

  /** `new EventRegistration()` at instant `now`: id and event id 0, empty
      contact fields, one attendee, no special request, stamped `now`. */
  function NewRegistration(now: Instant): (r: EventRegistration)
    ensures r.NumberOfAttendees == 1 && r.RegistrationDate == now
    ensures r.SpecialRequests.None?
  {
    EventRegistration(0, 0, "", "", "", 1, None, now)
  }
}
