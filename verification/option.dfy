/** A value that may be absent. The source returns `null` from its lookups
    (`GetEventById`, `GetAttendeeByEmail`) and keeps `null` in optional fields
    (`UserName`, `Email`, `SpecialRequests`, `CheckInTime`); here that is `None`. */
module Optional {

  datatype Option<+T> = None | Some(value: T) {

    // The three members below make `var x :- e;` work on an Option: an absent
    // `e` ends the enclosing computation with `None`, a present one yields its
    // value.

    predicate IsFailure() {
      None?
    }

    function PropagateFailure<U>(): Option<U>
      requires None?
    {
      None
    }

    function Extract(): T
      requires Some?
    {
      value
    }
  }
}
