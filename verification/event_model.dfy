/** The event record. Its class file (Models/Event.cs) is not part of this model;
    the fields are those the catalog's initializer sets. */
module EventModel {
  import opened Clock

  datatype Event = Event(
    Id: int,
    Name: string,
    Date: Instant,
    Location: string,
    Description: string)

  /** Tick count of a DateTime in the seed data. */
  const Dec15_2025_0900: Instant := 639013860000000000
  const Nov25_2025_1200: Instant := 638996688000000000
  const Dec01_2025_1830: Instant := 639002106000000000
  const Nov20_2025_1400: Instant := 638992440000000000
  const Dec10_2025_1600: Instant := 639009792000000000

  /** The five events the catalog starts with (ids 1 to 5, in this order); the
      long descriptions are left empty. */
  const SeedEvents: seq<Event> := [
    Event(1, "Tech Conference 2025", Dec15_2025_0900, "Seattle Convention Center, WA", ""),
    Event(2, "Community Picnic", Nov25_2025_1200, "Central Park, New York", ""),
    Event(3, "Charity Gala Evening", Dec01_2025_1830, "Grand Ballroom, Chicago", ""),
    Event(4, "Developer Workshop", Nov20_2025_1400, "Tech Hub, San Francisco", ""),
    Event(5, "Music Festival 2025", Dec10_2025_1600, "Austin Music Arena, TX", "")
  ]
}
