/** The store itself, over a shared Redis. */
module PresenceStores {
  import opened Common
  import opened PresenceTypes
  import opened PresenceSystem

  /** The commands presence uses; a key past its deadline is absent to every command. */
  class RedisServer {
    var counters: map<UserId, CounterKey>
    var names: map<UserId, string>
    var events: seq<Event>

    function View(): Redis
      reads this
    {
      Redis(counters, names, events)
    }

    constructor ()
      ensures View() == Redis(map[], map[], [])
    {
      counters, names, events := map[], map[], [];
    }

    /** INCR and DECR: a missing key counts from zero and is created without a deadline. */
    method IncrBy(u: UserId, delta: int, now: int) returns (n: int)
      modifies this`counters
      ensures n == old(Read(View(), u, now)) + delta
      ensures var deadline := if old(Present(View(), u, now)) then old(counters[u].deadline) else None;
              counters == old(counters)[u := CounterKey(n, deadline)]
    {
      if Present(View(), u, now) {
        n := counters[u].value + delta;
        counters := counters[u := CounterKey(n, counters[u].deadline)];
      } else {
        n := delta;
        counters := counters[u := CounterKey(n, None)];
      }
    }

    /** A live key reads the same for exactly ttl longer; an absent or expired one is not revived. */
    method Expire(u: UserId, ttl: int, now: int)
      modifies this`counters
      ensures forall later :: now <= later ==>
        Read(View(), u, later)
          == if old(Present(View(), u, now)) && later < now + ttl then old(Read(View(), u, now)) else 0
      ensures forall v, later :: v != u ==> Read(View(), v, later) == old(Read(View(), v, later))
      ensures old(Present(View(), u, now)) ==>
                counters == old(counters)[u := CounterKey(old(counters[u].value), Some(now + ttl))]
      ensures !old(Present(View(), u, now)) ==> counters == old(counters)
    {
      if Present(View(), u, now) {
        counters := counters[u := CounterKey(counters[u].value, Some(now + ttl))];
      }
    }
  }

  datatype SnapshotEvent = SnapshotEvent(user: UserId, username: string)

  class PresenceStore {
    const rdb: RedisServer

    constructor (rdb: RedisServer)
      ensures this.rdb == rdb
    {
      this.rdb := rdb;
    }

    method Connect(user: UserId, username: string, now: int) returns (first: bool)
      modifies rdb
      ensures rdb.View() == Connected(old(rdb.View()), user, username, now)
      ensures first <==> old(Read(rdb.View(), user, now)) == 0
      ensures rdb.names == if first then old(rdb.names)[user := username] else old(rdb.names)
      ensures forall later :: now <= later < now + 120_000 ==>
                Read(rdb.View(), user, later) == old(Read(rdb.View(), user, now)) + 1
    {
      var n := rdb.IncrBy(user, 1, now);
      rdb.Expire(user, CONNS_TTL, now);
      if n == 1 {
        rdb.names := rdb.names[user := username];
        rdb.events := rdb.events + [Event(user, Online)];
        return true;
      }
      return false;
    }

    method Disconnect(user: UserId, now: int) returns (last: bool)
      modifies rdb
      ensures rdb.View() == Disconnected(old(rdb.View()), user, now)
      ensures last <==> user !in rdb.counters
    {
      var n := rdb.IncrBy(user, -1, now);
      if n <= 0 {
        rdb.counters := rdb.counters - {user};
        rdb.names := rdb.names - {user};
        rdb.events := rdb.events + [Event(user, Offline)];
        return true;
      }
      return false;
    }

    method Refresh(user: UserId, now: int)
      modifies rdb
      ensures rdb.View() == Refreshed(old(rdb.View()), user, now)
    {
      rdb.Expire(user, CONNS_TTL, now);
    }

    /** Exactly the listed contacts, each once, in no particular order. */
    method GetSnapshot(contactIDs: seq<UserId>) returns (events: seq<SnapshotEvent>)
      ensures forall e :: e in events <==>
                e.user in contactIDs && e.user in rdb.names && e.username == rdb.names[e.user]
      ensures forall i, j :: 0 <= i < j < |events| ==> events[i].user != events[j].user
    {
      events := [];
      if |contactIDs| == 0 {
        return;
      }
      var allowed: set<UserId> := {};
      for i := 0 to |contactIDs|
        invariant forall u :: u in allowed <==> u in contactIDs[..i]
      {
        allowed := allowed + {contactIDs[i]};
      }
      var unseen := rdb.names.Keys;
      while unseen != {}
        invariant unseen <= rdb.names.Keys
        invariant forall u :: u in allowed <==> u in contactIDs
        invariant forall e :: e in events <==>
                    e.user in contactIDs && e.user in rdb.names.Keys - unseen && e.username == rdb.names[e.user]
        invariant forall i, j :: 0 <= i < j < |events| ==> events[i].user != events[j].user
        decreases unseen
      {
        var u := Pick(unseen);
        unseen := unseen - {u};
        if u in allowed {
          assert forall e :: e in events ==> e.user != u;
          events := events + [SnapshotEvent(u, rdb.names[u])];
        }
      }
    }
  }
}
