/**
  The record shape shared by every component: a marathon event with its
  derived lifecycle and registration statuses.
 */
module MarathonTypes {
  import opened Calendar

  /** A value that may be absent (an optional JSON field). */
  datatype Option<T> = None | Some(value: T)

  /** Lifecycle of the event relative to "now". */
  datatype MarathonStatus = Upcoming | Ongoing | Ended

  /** Lifecycle of the registration window relative to "now". */
  datatype RegistrationStatus = Before | Open | Closed

  /** The five distance categories the sidebar filters on ("5K", "10K", "Half", "Full", "Ultra"). */
  datatype Distance = FiveK | TenK | Half | Full | Ultra

  /**
    One event as the listing sees it. Dates are instants; `entryFee` maps a
    distance to its price.
   */
  datatype Marathon = Marathon(
    id: string,
    name: string,
    location: string,
    region: string,
    date: Instant,
    registrationStart: Instant,
    registrationEnd: Instant,
    distances: seq<Distance>,
    maxParticipants: int,
    currentParticipants: int,
    entryFee: map<Distance, int>,
    image: string,
    description: string,
    website: string,
    organizer: string,
    course: string,
    benefits: seq<string>,
    status: MarathonStatus,
    registrationStatus: RegistrationStatus)
}
