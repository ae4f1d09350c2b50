module PresenceTypes {
  import opened Common

  /** presenceConnsTTL in milliseconds. */
  const CONNS_TTL: int := 120_000

  /** pingPeriod in milliseconds, after which the writer of a connection refreshes its counter. */
  const PING_PERIOD: int := 45_000

  datatype Status = Online | Offline
  datatype Event = Event(user: UserId, status: Status)
}
