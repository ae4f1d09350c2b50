/** The client objects, the hub that routes to them, and the limiter shared by all of a user's connections. */
module Hubs {
  import opened Common
  import opened TokenBucket
  import opened KeyedLimiters
  import opened SendQueue
  import opened HubRegistry
  import HubLimits

  const SHARED: string := ""

  class WsClient {
    const userID: UserId
    var buffer: seq<Frame>
    var closed: bool
    var channelClosed: bool
    var connOpen: bool
    ghost var accepted: seq<Frame>
    var written: seq<Frame>

    ghost function View(): Queue
      reads this
    {
      Queue(buffer, closed, channelClosed, connOpen, accepted)
    }

    constructor (userID: UserId)
      ensures this.userID == userID && View() == Queue([], false, false, true, []) && written == []
    {
      this.userID := userID;
      buffer, closed, channelClosed, connOpen := [], false, false, true;
      accepted, written := [], [];
    }

    method CloseWith()
      modifies this
      ensures View() == Closed(old(View())) && written == old(written)
    {
      if closed {
        return;
      }
      closed := true;
      channelClosed := true;
      connOpen := false;
    }

    method EnqueueDropSlow(msg: Frame)
      modifies this
      ensures View() == Enqueued(old(View()), msg) && written == old(written)
    {
      if closed {
        return;
      }
      if |buffer| < QUEUE_SIZE {
        buffer := buffer + [msg];
        accepted := accepted + [msg];
      } else {
        CloseWith();
      }
    }

    /** The writer's last loop: flush what is buffered until it is gone or a write fails; goodWrites succeed first. */
    method Flush(goodWrites: nat)
      modifies this
      ensures var n := if goodWrites < |old(buffer)| then goodWrites else |old(buffer)|;
              && written == old(written) + old(buffer)[..n]
              && buffer == if goodWrites < |old(buffer)| then old(buffer)[n + 1..] else []
      ensures closed == old(closed) && channelClosed == old(channelClosed) && connOpen == old(connOpen)
      ensures accepted == old(accepted)
    {
      var done := 0;
      while buffer != []
        invariant done <= goodWrites && done <= |old(buffer)|
        invariant buffer == old(buffer)[done..] && written == old(written) + old(buffer)[..done]
        invariant closed == old(closed) && channelClosed == old(channelClosed) && connOpen == old(connOpen)
        invariant accepted == old(accepted)
        decreases |buffer|
      {
        var msg := buffer[0];
        buffer := buffer[1..];
        if done == goodWrites {
          return;
        }
        written := written + [msg];
        done := done + 1;
      }
    }
  }

  /** A rate.Limiter shared by reference, with every call any reader ever made on it. */
  class UserLimiter {
    var bucket: Bucket
    ghost var history: seq<Call>

    /** The bucket is where the answers recorded so far leave it. */
    ghost predicate Valid()
      reads this
    {
      (forall i :: 0 <= i < |history| ==> history[i].key == SHARED) && Follows(bucket, history)
    }

    constructor (now: real)
      ensures bucket == Fresh(HubLimits.WS_LIMIT, now) && Valid() && history == []
    {
      bucket := Fresh(HubLimits.WS_LIMIT, now);
      history := [];
    }

    method Allow(now: real) returns (ok: bool)
      requires Valid()
      modifies this
      ensures Valid() && (bucket, ok) == Take(HubLimits.WS_LIMIT, old(bucket), now)
      ensures history == old(history) + [Call(SHARED, now)]
      ensures ok == Keeping(HubLimits.WS_LIMIT, history).1[|history| - 1]
    {
      hide Take, TokensAt, Keeping, Fresh;
      SharedStep(history, bucket, now);
      var (b, allowed) := Take(HubLimits.WS_LIMIT, bucket, now);
      bucket := b;
      ok := allowed;

      history := history + [Call(SHARED, now)];
    }
  }

  /** The bucket of one shared limiter after the calls in history. */
  ghost predicate Follows(bucket: Bucket, history: seq<Call>) {
    if history == [] then bucket == Fresh(HubLimits.WS_LIMIT, bucket.last)
    else Keeping(HubLimits.WS_LIMIT, history).0 == map[SHARED := bucket]
  }

  lemma SharedStep(history: seq<Call>, bucket: Bucket, now: real)
    requires Follows(bucket, history)
    ensures var more := history + [Call(SHARED, now)];
            && Follows(Take(HubLimits.WS_LIMIT, bucket, now).0, more)
            && Keeping(HubLimits.WS_LIMIT, more).1[|more| - 1] == Take(HubLimits.WS_LIMIT, bucket, now).1
  {
    var more := history + [Call(SHARED, now)];
    assert more[..|more| - 1] == history;
    KeepingLast(HubLimits.WS_LIMIT, more);
    if history == [] {
      FirstTake(bucket.last, now);
      assert Keeping(HubLimits.WS_LIMIT, []) == (map[], []);
    }
    hide Take, Keeping, Fresh;
  }

  /** A full bucket answers its first call the same way whenever it was made. */
  lemma FirstTake(made: real, now: real)
    ensures Take(HubLimits.WS_LIMIT, Fresh(HubLimits.WS_LIMIT, made), now)
         == Take(HubLimits.WS_LIMIT, Fresh(HubLimits.WS_LIMIT, now), now)
  {
    var elapsed := if now < made then 0.0 else now - made;
    assert Refill(HubLimits.WS_LIMIT, elapsed) >= 0.0 && Refill(HubLimits.WS_LIMIT, now - now) == 0.0;
  }

  class Hub {
    var clientsByUser: map<UserId, set<WsClient>>
    var limitersByUser: map<UserId, UserLimiter>

    ghost function View(): Registry<WsClient, UserLimiter>
      reads this
    {
      Registry(clientsByUser, limitersByUser)
    }

    /** Clients of a user; none if the user is not in the map. */
    ghost function Clients(u: UserId): set<WsClient>
      reads this
    {
      ClientsOf(View(), u)
    }

    constructor ()
      ensures View() == Registry(map[], map[])
    {
      clientsByUser, limitersByUser := map[], map[];
    }

    method AddClient(c: WsClient)
      modifies this
      ensures View() == WithClient(old(View()), c.userID, c)
      ensures forall u :: Clients(u) == old(Clients(u)) + if u == c.userID then {c} else {}
    {
      var clients := if c.userID in clientsByUser then clientsByUser[c.userID] else {};
      clientsByUser := clientsByUser[c.userID := clients + {c}];
    }

    /** The limiter of the user's connected readers, or a new one with a full bucket. */
    method LimiterFor(userID: UserId, now: real) returns (l: UserLimiter)
      modifies this
      ensures View() == WithLimiter(old(View()), userID, l) && l == limitersByUser[userID]
      ensures userID !in old(limitersByUser) ==>
                fresh(l) && l.Valid() && l.history == [] && l.bucket == Fresh(HubLimits.WS_LIMIT, now)
    {
      if userID in limitersByUser {
        l := limitersByUser[userID];
        assert limitersByUser == limitersByUser[userID := l];
        return;
      }
      l := new UserLimiter(now);
      limitersByUser := limitersByUser[userID := l];
    }

    /** The last client of a user takes the user's entry and limiter with it. */
    method RemoveClient(c: WsClient)
      modifies this
      ensures View() == WithoutClient(old(View()), c.userID, c)
      ensures forall u :: Clients(u) == old(Clients(u)) - if u == c.userID then {c} else {}
      ensures c.userID in old(clientsByUser) && Clients(c.userID) == {} ==>
                c.userID !in clientsByUser && c.userID !in limitersByUser
    {
      if c.userID !in clientsByUser {
        return;
      }
      var clients := clientsByUser[c.userID] - {c};
      clientsByUser := clientsByUser[c.userID := clients];
      if clients == {} {
        clientsByUser := clientsByUser - {c.userID};
        limitersByUser := limitersByUser - {c.userID};
      }
    }

    /** Every client of the user, and nobody else, is offered the frame once. */
    method SendToUser(userID: UserId, msg: Frame)
      modifies Clients(userID)
      ensures forall c :: c in Clients(userID) ==>
                c.View() == Enqueued(old(c.View()), msg) && c.written == old(c.written)
    {
      var targets: set<WsClient> := if userID in clientsByUser then clientsByUser[userID] else {};
      ghost var all := targets;
      while targets != {}
        invariant targets <= all
        invariant forall c :: c in targets ==> c.View() == old(c.View()) && c.written == old(c.written)
        invariant forall c :: c in all - targets ==>
                    c.View() == Enqueued(old(c.View()), msg) && c.written == old(c.written)
        decreases targets
      {
        var c := Pick(targets);
        targets := targets - {c};
        c.EnqueueDropSlow(msg);
      }
    }

    /** Every connection of the user is closed, nobody else's is touched. */
    method DisconnectUser(userID: UserId)
      modifies Clients(userID)
      ensures forall c :: c in Clients(userID) ==> c.View() == Closed(old(c.View())) && c.written == old(c.written)
    {
      var targets: set<WsClient> := if userID in clientsByUser then clientsByUser[userID] else {};
      ghost var all := targets;
      while targets != {}
        invariant targets <= all
        invariant forall c :: c in targets ==> c.View() == old(c.View()) && c.written == old(c.written)
        invariant forall c :: c in all - targets ==> c.View() == Closed(old(c.View())) && c.written == old(c.written)
        decreases targets
      {
        var c := Pick(targets);
        targets := targets - {c};
        c.CloseWith();
      }
    }
  }
}
