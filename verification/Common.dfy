module Common {
  /** A users.id. */
  type UserId = int

  /** WebSocket connections of all instances. */
  type ConnId = nat

  /** Absent Redis keys, NULL columns and missing rows. */
  datatype Option<+T> = None | Some(value: T)

  /** Any element: Go iterates over maps and sets in no particular order. */
  method Pick<T>(s: set<T>) returns (x: T)
    requires s != {}
    ensures x in s
  {
    x :| x in s;
  }
}
