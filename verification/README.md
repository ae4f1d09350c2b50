# OnyxChat: a verified model

OnyxChat is a chat server that runs as several instances over one Postgres database and one Redis, with a React
client. This project models the small protocols that keep its shared state right, and proves properties of them over
all inputs, all runs and all interleavings.

Conventions used throughout:

- An object or store whose methods change state is a class; each method's contract gives the whole new state as a
  function of the old one, and the theorems are about that function.
- A protocol is a total function `Step(state, action)`; an action that is not enabled leaves the state as it is, and
  `Exec` runs any sequence of actions. A theorem about `Exec(acts)` is a theorem about every interleaving.
- Where a promised property is false of the code, a lemma builds a run in which it fails, and the condition under
  which it holds is proved as an if-and-only-if.

The parts, one module a file:

- `TokenBucket.dfy`, `KeyedLimiters.dfy`. The lazy token bucket in exact arithmetic, and `KeyedLimiter` over it.
  Forgetting idle keys is invisible to callers exactly when rate × ttl ≥ burst. A call is answered true exactly when
  counting it keeps every window ending with it within burst + rate × length.
- `PresenceTypes.dfy`, `PresenceProtocol.dfy`, `PresenceEvents.dfy`. Connect and Disconnect as single Redis commands,
  interleaved over any number of connections and instances, the counter key expiring at any moment. A user is never
  stuck online. Full agreement fails: a DEL or HDEL that comes late hides a connected user or splits the two readers.
  For the counter, the listing and the published events the exact condition under which they are right is proved.
- `PresenceCrashes.dfy`, `CrashEvents.dfy`. The same commands with deadlines on the keys and crashes between any two
  commands, and again the exact conditions for the key, the listing, the events and the readers' agreement.
- `PresenceSystem.dfy`, `PresenceStores.dfy`. Presence with each call as one step, over real time: TTLs, pings, crashes
  between calls. While a user's connections refresh within a gap, the user reads as online exactly when the gap is below
  the TTL of 120 s. The code's pings come every 45 s. Each step is shown to be the command protocol run without
  interruption.
- `TokenRotation.dfy`, `TabClosing.dfy`, `AuthServer.dfy`. Refresh, login and logout in any number of tabs over one
  localStorage slot, against a server that looks up, deletes and stores tokens in separate commands. No tab is assumed to have only one
  refresh in flight, because the check in web/onyxchat-web/src/api/client.ts:29-31 is separated from its assignment by an
  await. The Web Lock is the condition that a refresh reads the slot only when no other call is between its read and
  its end. The classes give the handlers and browser calls run alone, and each is proved to end as the concurrent
  protocol does when one call runs by itself.
- `MessageTable.dfy`, `MessageStores.dfy`, `Paging.dfy`, `MessageRuns.dfy`, `ChatDelivery.dfy`. The message table and its
  store; paging in both directions while others insert, mark and delete; receipts and deletion over whole runs; and
  delivery from the sender's request to the lines of a client's list, with every stage free to repeat, delay and reorder.
- `SendQueue.dfy`, `HubRegistry.dfy`, `HubLimits.dfy`, `Hubs.dfy`. One WebSocket client's queue under concurrent
  enqueues, closes and writer steps; runs of the registry of clients and shared limiters; what the limiters do for a
  user across reconnects; and the objects.
- `Decimal.dfy`, `Tickets.dfy`. Decimal printing and parsing, the `id:username` ticket value, and single use of tickets.
- `Accounts.dfy`, `UserStores.dfy`. Users, contacts, invites, messages and the deletion log as one database, each
  request one step, and the transactions statement by statement.
- `Common.dfy`. User ids, the optional value and an arbitrary choice from a set.

Where the code differs from what its comments and names suggest, the model follows the code:

- `DeleteAccountGDPR` can fail for a live account. It renames the user to `deleted_<id>`, and usernames are unique, so an
  account registered under that name blocks it (`Accounts.TakenNameBlocksErasure`; exact condition:
  `Accounts.ErasureTakesEffectIff`).
- The TTL on the counter does not clean up after every crash. The names hash has none, so the snapshot can list a user
  the notifier calls offline (`PresenceSystem.CrashLeavesListing`; exact condition: `PresenceSystem.ReadersAgreeIff`). INCR
  and EXPIRE are two commands, so a crash between them leaves the counter itself without a TTL and the user online for
  ever (`PresenceCrashes.CrashPinsOnline`; exact condition: `PresenceCrashes.KeyThereIff`). Crashes before HSET and
  before HDEL leave the listing wrong, the first also for later connections that keep pinging
  (`PresenceCrashes.CrashHidesListing`, `CrashKeepsListing`, `CrashHidesLaterConnection`; exact conditions:
  `PresenceCrashes.ListedIff` and, for the two readers, `PresenceCrashes.ReadersAgreeIff`). A crash before the offline
  PUBLISH leaves followers believing the user online (`CrashEvents.CrashKeepsAnnouncement`; exact condition:
  `CrashEvents.AnnouncedIff`).
- The fallback to unlocked refreshes can sign a browser out although no response is lost
  (`TokenRotation.UnlockedRaceSignsOut`; exact condition: `TokenRotation.UnlockedSessionKeptIff`). With the lock, one lost
  response does (`TokenRotation.LostResponseSignsOut`; exact condition: `TokenRotation.LockedSessionKeptIff`).
- The client's lists are free of duplicates for received messages; an own message can show twice
  (`ChatDelivery.OwnMessageCanShowTwice`; exact condition: `ChatDelivery.ShownOnceIff`).
- A tab that closes between the server's DEL and its own write leaves a dead token stored
  (`TabClosing.ClosedTabStrandsToken`; exact condition: `TabClosing.DeadTokenIff`).
- A user's WebSocket limiter is shared by all connections but goes with the last of them, so the bound of 40 + 20 × length
  is one limiter's and not the user's (`HubLimits.ReconnectDoublesBurst`; exact condition:
  `HubLimits.HubDropsInvisibleIff`).

## Model

| member | source | states |
|---|---|---|
| `TokenBucket.TokensLater` | server/onyxchat-server/internal/http/ratelimit.go:46-50 | Reading a bucket at an intermediate time changes nothing: the tokens at a later time are those at the earlier one plus the refill between, capped at the burst, and never fall. |
| `KeyedLimiters.EvictionUnobservable` | server/onyxchat-server/internal/http/ratelimit.go:32-51 | If a ttl refills a whole burst, every ordered sequence of calls gets the same answers as from a map that never evicts. |
| `KeyedLimiters.EvictionObservable` | server/onyxchat-server/internal/http/ratelimit.go:38-42 | If a ttl does not refill a burst (the rate-0 configurations), there is a run of calls on which the eviction changes an answer. |
| `KeyedLimiters.EvictionUnobservableIff` | server/onyxchat-server/internal/http/router.go:39-41 | Eviction is invisible on all ordered runs if and only if rate × ttl ≥ burst, the condition the three configured limiters meet. |
| `KeyedLimiters.WindowBound` | server/onyxchat-server/internal/http/ratelimit.go:35-50 | In every window of every run one key is allowed at most burst + rate × length calls, evictions included. |
| `KeyedLimiters.KeepingBound` | server/onyxchat-server/internal/http/ratelimit.go:44-50 | The same bound for a limiter that keeps every key, with no condition on the ttl. |
| `KeyedLimiters.AllowedIffEveryWindowPermits` | server/onyxchat-server/internal/http/ratelimit.go:32-51 | A call is allowed if and only if counting it too leaves every window that ends with it within burst + rate × length. |
| `KeyedLimiters.HeldKeysExact` | server/onyxchat-server/internal/http/ratelimit.go:38-49 | After each call the map holds exactly the keys used within the last ttl, each with the time of its latest call. |
| `KeyedLimiters.KeyedLimiter.constructor` | server/onyxchat-server/internal/http/ratelimit.go:23-30 | A new limiter has no keys and an empty history. |
| `KeyedLimiters.KeyedLimiter.Sweep` | server/onyxchat-server/internal/http/ratelimit.go:38-42 | The loop removes exactly the entries idle for longer than the ttl, in whatever order it meets them. |
| `KeyedLimiters.KeyedLimiter.Allow` | server/onyxchat-server/internal/http/ratelimit.go:32-51 | The answer and the new map are those the run semantics gives for the history extended by this call, so every theorem about runs applies to the object. |
| `PresenceProtocol.SafeAlways` | server/onyxchat-server/internal/http/presence.go:36-76 | In every interleaving: the counter is at most the connections counted in, a counter at or below zero has a DEL pending, and a listed name has a live connection or an HDEL pending. |
| `PresenceProtocol.NeverStuckOnline` | server/onyxchat-server/internal/http/ws.go:315-349 | In every interleaving and with expiry at any moment, once all of a user's connections have run Disconnect the counter key is absent and the name is not listed. |
| `PresenceProtocol.NamesAreGenuine` | server/onyxchat-server/internal/http/presence.go:46-47 | In every run a listed user is listed under the name of one of the user's own connections. |
| `PresenceProtocol.Ledger` | server/onyxchat-server/internal/http/presence.go:39-66 | Conservation: connections counted in = the counter + everything DELs and expiries have wiped from it, and that loss is never negative. |
| `PresenceProtocol.CounterAgreesIff` | server/onyxchat-server/internal/http/presence.go:39-66 | The counter equals the connections counted in at every moment of a run if and only if every DEL and every expiry of the run found it reading zero. |
| `PresenceProtocol.ClearKeepsAgreementIff` | server/onyxchat-server/internal/http/presence.go:65-66 | In an agreeing state a DEL keeps agreement if and only if the counter it deletes reads zero at that moment. |
| `PresenceProtocol.ListedIff` | server/onyxchat-server/internal/http/presence.go:46-71 | With no command of a user pending, the user is listed if and only if a connection is counted in and some HSET ran after the last HDEL that found a connection already past its own HSET step. |
| `PresenceProtocol.UnlistKeepsListingIff` | server/onyxchat-server/internal/http/presence.go:68-71 | An HDEL keeps a right listing right if and only if no connection of the user is counted in at that moment. |
| `PresenceProtocol.LateDelHidesUser` | server/onyxchat-server/internal/http/presence.go:61-75 | A concrete run in which the conditions of CounterAgreesIff, ListedIff and PresenceEvents.AnnouncedIff all fail: a late DEL leaves a connected user, with no command pending, uncounted and unlisted, and followers last told offline. |
| `PresenceProtocol.LateHdelSplitsReaders` | server/onyxchat-server/internal/http/presence.go:65-71 | A concrete run in which the condition of ListedIff fails: a late HDEL leaves a user counted but not listed, so that notifier and snapshot disagree although no count was lost. |
| `PresenceEvents.AnnouncedIff` | server/onyxchat-server/internal/http/presence.go:46-72 | With no command of a user pending, the last published event says online if and only if a connection is counted in and some online PUBLISH ran after the last offline PUBLISH that found a connection already past its own. |
| `PresenceCrashes.RunsAreProtocolRuns` | server/onyxchat-server/internal/http/presence.go:36-76 | Every run with deadlines, time and crashes at any command is a run of the command protocol, a dead connection being one that sends nothing more; so the protocol's theorems hold with the dead counted as still at their last command. |
| `PresenceCrashes.UndatedIff` | server/onyxchat-server/internal/http/presence.go:39-45 | With no running connection between its INCR and EXPIRE or before its DEL, the counter key has no ttl if and only if a connection died there leaving it without one and no EXPIRE or DEL of it has run since. |
| `PresenceCrashes.KeyThereIff` | server/onyxchat-server/internal/http/presence.go:39-85 | Crashes at any command included, with no running connection in between: the counter key is there if and only if it was left without a ttl in that way or its last EXPIRE is less than a ttl ago. |
| `PresenceCrashes.KeyOutlivesTtlIff` | server/onyxchat-server/internal/http/presence.go:78-85 | Crashes at any command included: one ttl after the last EXPIRE, with no running connection in between, the counter key is still there if and only if it was left without a ttl in that way; otherwise the user reads as offline. |
| `PresenceCrashes.ListedIff` | server/onyxchat-server/internal/http/presence.go:46-71 | Crashes at any command included, with no command of a running connection pending: the user is listed if and only if some connection, running or dead, has sent its INCR and not its HDEL, and some HSET ran after the last HDEL that found a connection past its HSET or a dead one owing a list command, and after the last death owing a list command while the user was unlisted. |
| `PresenceCrashes.ReadersAgreeIff` | server/onyxchat-server/internal/http/presence.go:36-76 | Crashes at any command included, with no command of a running connection pending: listing and isOnline agree if and only if the listing's condition holds exactly when the counter is positive and its key was orphaned or given its ttl less than a ttl ago. |
| `PresenceCrashes.CrashPinsOnline` | server/onyxchat-server/internal/http/presence.go:39-43 | A concrete run, a crash between INCR and EXPIRE, after which the user reads as online at any later time. |
| `PresenceCrashes.CrashHidesListing` | server/onyxchat-server/internal/http/presence.go:43-47 | A concrete run, a crash between EXPIRE and HSET, after which the user is counted and not listed. |
| `PresenceCrashes.CrashKeepsListing` | server/onyxchat-server/internal/http/presence.go:66-68 | A concrete run, a crash between DEL and HDEL, after which the key is gone and the name is still listed. |
| `PresenceCrashes.CrashHidesLaterConnection` | server/onyxchat-server/internal/http/presence.go:43-47 | A concrete run in which, after a crash between EXPIRE and HSET, a later connection that keeps pinging is counted and never listed. |
| `CrashEvents.AnnouncedIff` | server/onyxchat-server/internal/http/presence.go:46-72 | Crashes at any command included, with no command of a running connection pending: the last published event says online if and only if some connection, running or dead, has sent its INCR and not its offline PUBLISH, and an online PUBLISH ran after the last offline one that found a connection past its own or a dead one owing a PUBLISH, and after the last death owing a PUBLISH while the last event was not online. |
| `CrashEvents.CrashKeepsAnnouncement` | server/onyxchat-server/internal/http/presence.go:68-72 | A concrete run in which a crash before the offline PUBLISH leaves followers last told online about a user who is neither counted nor listed. |
| `PresenceSystem.Agreement` | server/onyxchat-server/internal/http/presence.go:36-123 | While each of a user's own connections refreshes within a gap below the ttl and ends with a Disconnect, in every reachable state the counter is the number of live connections, the name is listed iff that is positive, both readers agree with it, and the user's events alternate online and offline with the last matching the state. Other users' connections may crash or stop pinging. |
| `PresenceSystem.AgreementIff` | server/onyxchat-server/internal/http/presence.go:19-23 | That agreement holds over all such runs and users for a given gap if and only if the gap is below 120 000 ms. |
| `PresenceSystem.KeyOutlivesConnections` | server/onyxchat-server/internal/http/ws.go:402-411 | In every run, crashes between calls included: while each live connection of the user refreshes within a gap below the ttl, the counter key does not expire, reads at least the number of live connections, and the user reads as online. |
| `PresenceSystem.KeyOutlivesIff` | server/onyxchat-server/internal/http/presence.go:19-23 | A connected user always reads as online for a given refresh gap if and only if the gap is below 120 000 ms. |
| `PresenceSystem.PingsKeepOnline` | server/onyxchat-server/internal/http/ws.go:29-29 | With the code's own ping period: in every run in which each live connection of the user refreshes within two periods, one missed ping included, the user reads as online while any connection lives, and everything agrees unless one of them crashed. |
| `PresenceSystem.ReadersAgreeIff` | server/onyxchat-server/internal/http/presence.go:43-49 | In every run, late pings and crashes between calls included, the listing and isOnline agree on a user if and only if, unless a DEL has run since, the last EXPIRE that found the user's key is less than a ttl ago. |
| `PresenceSystem.SnapshotMatchesNotifier` | server/notification-service/internal/notifier/service.go:129-139 | In every run with crashes between calls, the contacts a snapshot reports are exactly those for whom the notifier's isOnline answers true if and only if no contact's last EXPIRE, with no DEL since, is a ttl ago. |
| `PresenceSystem.CrashForgotten` | server/onyxchat-server/internal/http/presence.go:78-85 | In every run with crashes between calls, a user reads as offline at the latest one ttl after the last connect or ping. Crashes inside a call are the subject of PresenceCrashes.KeyOutlivesTtlIff. |
| `PresenceSystem.CrashLeavesListing` | server/onyxchat-server/internal/http/presence.go:101-121 | A concrete run in which the condition of ReadersAgreeIff fails after a crash between calls: the snapshot still lists a user whom the notifier calls offline. |
| `PresenceSystem.ConnectIsUninterrupted` | server/onyxchat-server/internal/http/presence.go:36-54 | The four commands of a Connect, run in a row from any state of the command protocol, give the keys and events of the one-step Connect. |
| `PresenceSystem.DisconnectIsUninterrupted` | server/onyxchat-server/internal/http/presence.go:58-76 | The same for the DECR, DEL, HDEL and PUBLISH of a Disconnect. |
| `PresenceStores.RedisServer.IncrBy` | server/onyxchat-server/internal/http/presence.go:39-39 | INCR and DECR read an absent or expired key as zero, keep a live key's deadline and give a new key none. |
| `PresenceStores.RedisServer.Expire` | server/onyxchat-server/internal/http/presence.go:43-43 | A live key reads the same until exactly one ttl from now and as zero from then on; an absent or expired key is not revived; other keys are untouched. |
| `PresenceStores.PresenceStore.Connect` | server/onyxchat-server/internal/http/presence.go:36-54 | The command sequence leaves Redis as the one-step Connect does and reports the first connection exactly when the counter read zero. |
| `PresenceStores.PresenceStore.Disconnect` | server/onyxchat-server/internal/http/presence.go:58-76 | The command sequence leaves Redis as the one-step Disconnect does and reports the last connection exactly when the counter key is gone. |
| `PresenceStores.PresenceStore.Refresh` | server/onyxchat-server/internal/http/presence.go:81-85 | A ping moves the deadline of a live counter and nothing else. |
| `PresenceStores.PresenceStore.GetSnapshot` | server/onyxchat-server/internal/http/presence.go:90-123 | The events are exactly the listed users among the given contacts, each once, with their listed name, also when the contact list is empty or repeats an id. |
| `TokenRotation.StoredTokenNullOrLive` | web/onyxchat-web/src/api/auth.ts:49-84 | For any number of tabs that stay open, in any interleaving, with lost responses and without the lock: whenever no call is in flight the stored token is absent or live on the server. |
| `TabClosing.DeadTokenIff` | web/onyxchat-web/src/api/auth.ts:49-84 | Tabs closing at any point included: with nothing at work the stored token is dead if and only if a tab closed before its call's own write, that call's DEL took effect, and its token is still the stored one. |
| `TabClosing.ClosedTabStrandsToken` | web/onyxchat-web/src/api/auth.ts:52-60 | A concrete run in which the tab of a refresh closes between the DEL and its write, leaving a dead token stored with nothing at work. |
| `TabClosing.ClosedTabIsStill` | web/onyxchat-web/src/api/auth.ts:57-60 | Once its tab is closed a call goes no further in the tab and none of its steps writes the slot. |
| `TokenRotation.InvStep` | web/onyxchat-web/src/api/auth.ts:58-60 | Every step of every tab and of the server keeps the invariant whose heart is that a dead stored token was read by a call whose tab is still at work on it, and that a token on its way to a tab is live and nowhere else. |
| `TokenRotation.InvAlways` | web/onyxchat-web/src/api/auth.ts:49-84 | That invariant holds from any state that has it through every run. |
| `TokenRotation.SlotAfter` | web/onyxchat-web/src/api/auth.ts:49-93 | The slot changes only by the delivery of a token to a refresh or login that was answered with it, which then holds that token, or by the end of a logout or of a refresh's catch block, which then holds none. |
| `TokenRotation.LoginOnlyStores` | web/onyxchat-web/src/api/auth.ts:27-30 | A login changes the slot only when its answer brings a token, and then to that token. |
| `TokenRotation.EmptiedOnlyAfterMatch` | web/onyxchat-web/src/api/auth.ts:57-60 | In every run from a quiet state: a step that empties the slot ends a logout, or a refresh whose own comparison found its token stored. |
| `TokenRotation.HowCallsEnd` | web/onyxchat-web/src/api/auth.ts:49-93 | A call ends with a token only when that token has just been stored; a logout ends only by emptying the slot; a refresh ends without a token only after finding nothing to send, emptying the slot, or finding another token stored. |
| `TokenRotation.LockedRotationKeepsSession` | web/onyxchat-web/src/api/auth.ts:65-70 | With refreshes only, all under the lock, and no lost response or failing server step: every refresh that finishes succeeds, and whenever the lock is free the session's live tokens are exactly the stored one. |
| `TokenRotation.LockedSessionKeptIff` | web/onyxchat-web/src/api/auth.ts:57-70 | With refreshes only, under the lock, with lost responses and server failures at any point: whenever the lock is free a token is stored if and only if no refresh failed in its tab, and then it is live. |
| `TokenRotation.UnlockedSessionKeptIff` | web/onyxchat-web/src/api/auth.ts:58-68 | With refreshes only, no lock, no response lost and no failing server step, the browser stays signed in throughout (a live token stored, or a new one on its way to a tab) if and only if no tab ever removes a token other than the one it compared while no refresh has a new one on its way. |
| `TokenRotation.AtomicClearKeepsSession` | web/onyxchat-web/src/api/auth.ts:58-60 | If comparing the stored token and removing it were one step, such unlocked refreshes would never sign the browser out: with nothing in flight the stored token is live. |
| `TokenRotation.UnlockedRaceSignsOut` | web/onyxchat-web/src/api/auth.ts:66-68 | A concrete run of two unlocked refreshes, no response lost and no server step failing, in which the condition of UnlockedSessionKeptIff fails: it ends with an empty slot while the new token is live. |
| `TokenRotation.LostResponseSignsOut` | web/onyxchat-web/src/api/auth.ts:57-61 | A concrete locked run in which the condition of LockedSessionKeptIff fails: one lost response ends with an empty slot and a stranded live token. |
| `AuthServer.TokenServer.RefreshHandler` | server/onyxchat-server/internal/http/auth_handlers.go:210-260 | A refresh succeeds exactly for a live token of a live account; it then replaces that token by a fresh one of the same user, and otherwise changes nothing. |
| `AuthServer.TokenServer.LoginHandler` | server/onyxchat-server/internal/http/auth_handlers.go:131-194 | A login succeeds exactly for a live account with the right password, adding one fresh token and touching no other. |
| `AuthServer.TokenServer.LogoutHandler` | server/onyxchat-server/internal/http/auth_handlers.go:267-279 | A logout removes the given token, if one is given, and no other. |
| `AuthServer.TokenServer.NewRefreshToken` | server/onyxchat-server/internal/http/refresh_token.go:18-24 | A new token is not live and has never been stored before. |
| `AuthServer.TokenServer.LookupRefreshToken` | server/onyxchat-server/internal/http/refresh_token.go:31-38 | Answers a user exactly when the token was last stored for that user and not deleted since. |
| `AuthServer.LiveTokenIff` | server/onyxchat-server/internal/http/refresh_token.go:26-43 | The live-token set: after any sequence of stores and deletes, a token is live for a user if and only if it was stored for that user and neither stored again nor deleted since. |
| `AuthServer.RefreshAloneEnds` | web/onyxchat-web/src/api/auth.ts:49-63 | A refresh run alone in the concurrent protocol swaps a live stored token of a live account for a fresh one, and otherwise empties the slot and leaves the server's keys alone; the tab is done and holds what is stored. |
| `AuthServer.LoginAloneEnds` | web/onyxchat-web/src/api/auth.ts:26-33 | A login run alone stores one fresh token, or changes nothing when refused; either way the tab is done. |
| `AuthServer.LogoutAloneEnds` | web/onyxchat-web/src/api/auth.ts:72-84 | A logout run alone empties the slot, revokes exactly the token that was in it, and leaves the tab done. |
| `AuthServer.Browser.DoRefresh` | web/onyxchat-web/src/api/auth.ts:49-63 | Slot and server end as the protocol's lone refresh does; it succeeds exactly when the account behind the stored token is there, and the new token belongs to the same account. |
| `AuthServer.Browser.Login` | web/onyxchat-web/src/api/auth.ts:26-33 | Slot and server end as the protocol's lone login does. |
| `AuthServer.Browser.Logout` | web/onyxchat-web/src/api/auth.ts:72-84 | Slot and server end as the protocol's lone logout does. |
| `MessageTable.SelectIn` | server/onyxchat-server/internal/store/message_store.go:98-104 | A query returns a row if and only if the table has it and it meets the condition. |
| `MessageTable.SelectAscending` | server/onyxchat-server/internal/store/message_store.go:103-103 | A query over the table comes out in strictly ascending id order. |
| `MessageTable.InsertedValid` | server/onyxchat-server/internal/store/message_store.go:57-83 | An insert keeps ids ascending and the (sender, client id) pairs unique, and the row a send returns is in the table. |
| `MessageStores.AfterColumns` | server/onyxchat-server/internal/store/message_store.go:98-104 | A query above a cursor returns exactly the stored messages with a larger id that either of the two sent to the other. |
| `MessageStores.BeforeColumns` | server/onyxchat-server/internal/store/message_store.go:113-119 | The same below a cursor. |
| `MessageStores.PageSinceReads` | server/onyxchat-server/internal/store/message_store.go:97-107 | A page above a cursor displays only messages the two exchanged, in either direction, deleted ones without their text, and all of them when nothing more is announced. |
| `MessageStores.PageBeforeReads` | server/onyxchat-server/internal/store/message_store.go:112-130 | The same for a page below a cursor. |
| `MessageStores.ReadColumns` | server/onyxchat-server/internal/store/message_store.go:162-168 | The ids a receipt lists are exactly those of the unread, undeleted messages from that sender to that recipient. |
| `MessageStores.PageSize` | server/onyxchat-server/internal/http/message_handlers.go:274-282 | The page size is between 1 and 100, 50 when no positive limit is asked for, and never above a positive limit; it falls below one only at 100. |
| `MessageStores.NewestReversed` | server/onyxchat-server/internal/store/message_store.go:121-129 | Fetching newest first, cutting at the limit and reversing gives the newest messages, oldest first. |
| `MessageStores.ReverseInPlace` | server/onyxchat-server/internal/store/message_store.go:126-128 | The two-index swap loop reverses the array. |
| `MessageStores.MessageStore.CreateOrGetExisting` | server/onyxchat-server/internal/store/message_store.go:57-83 | Idempotent send: the returned row has the draft's sender and client id and is in the table; it is new exactly when reported inserted, then with every column from the draft and neither read nor deleted, and a repeated send leaves the rows as they were. |
| `MessageStores.MessageStore.GetByID` | server/onyxchat-server/internal/store/message_store.go:86-93 | Finds the row with that id, blanked if deleted, and fails only when there is none. |
| `MessageStores.MessageStore.QueryMessages` | server/onyxchat-server/internal/store/message_store.go:209-232 | The first limit rows fetched, blanked where deleted, and hasMore exactly when one more was fetched. |
| `MessageStores.MessageStore.ListConversationSince` | server/onyxchat-server/internal/store/message_store.go:97-107 | The oldest limit messages the two sent each other above the cursor, ascending, hasMore exactly when more remain; without more, all of them. |
| `MessageStores.MessageStore.ListConversationBefore` | server/onyxchat-server/internal/store/message_store.go:112-130 | The newest limit messages the two sent each other below the cursor, ascending after the in-place reversal, hasMore exactly when older ones remain; without more, all of them. |
| `MessageStores.MessageStore.ListMessages` | server/onyxchat-server/internal/http/message_handlers.go:274-322 | Which page the handler answers for every combination of raw query strings: beforeId wins and must parse to a positive number, sinceId must parse to a non-negative one, and with neither the walk starts at 0. |
| `MessageStores.MessageStore.GetUnreadForUser` | server/onyxchat-server/internal/store/message_store.go:134-156 | The undeleted messages to the user past the cursor, oldest first. |
| `MessageStores.MessageStore.MarkRead` | server/onyxchat-server/internal/store/message_store.go:160-185 | Sets read_at on exactly the unread, undeleted messages from that sender to that recipient, changes no other row, and returns exactly their ids. |
| `MessageStores.MessageStore.SoftDelete` | server/onyxchat-server/internal/store/message_store.go:190-205 | Sets deleted_at on the message only for its own sender and only once, and changes no other row; fails exactly when no such row exists. |
| `Paging.ForwardExact` | server/onyxchat-server/internal/store/message_store.go:97-107 | Following each page's last id until hasMore is false yields exactly the pair's messages above the start cursor as they stand at the last page, in order, whatever is inserted, marked or deleted between the pages. |
| `Paging.ForwardReads` | server/onyxchat-server/internal/store/message_store.go:97-107 | An id is in a finished forward walk exactly when a stored message with it, above the cursor, passed between the two in either direction; each once, ascending. |
| `Paging.BackwardReads` | server/onyxchat-server/internal/store/message_store.go:112-130 | The same for a finished walk back, of the messages below the cursor as the walk began. |
| `Paging.PartiesReadTheSame` | server/onyxchat-server/internal/store/message_store.go:101-101 | Both parties walking the same tables read the same ids page by page. |
| `Paging.SentIsReadByBoth` | server/onyxchat-server/internal/store/message_store.go:101-101 | A message from one user to another is in the finished walks of both. |
| `Paging.QuietWalkEnds` | server/onyxchat-server/internal/store/message_store.go:228-231 | Without inserts, marks and deletions and erasures between the pages allowed, the forward walk ends after exactly max(1, ceil(n/limit)) pages. |
| `Paging.PagesFor` | server/onyxchat-server/internal/store/message_store.go:228-231 | The page count is the least positive number of pages that holds n messages. |
| `Paging.BackwardExact` | server/onyxchat-server/internal/store/message_store.go:112-130 | Walking back by each page's first id and putting older pages in front yields exactly the messages below the cursor as they stood at the start: concurrent inserts never show. |
| `Paging.BackwardEnds` | server/onyxchat-server/internal/store/message_store.go:112-130 | A walk back ends after exactly max(1, ceil(n/limit)) pages, n counted at its start, even under concurrent inserts. |
| `Paging.WalksMirror` | server/onyxchat-server/internal/store/message_store.go:97-130 | Walking back from above everything a finished forward walk read gives the same ids in the same order, for any two page sizes. |
| `MessageRuns.RunExtends` | server/onyxchat-server/internal/store/message_store.go:57-205 | Over any run the table only grows at its end; stored messages keep place, id, parties and client id. |
| `MessageRuns.ForwardPagingInAnyRun` | server/onyxchat-server/internal/store/message_store.go:97-107 | In any run of sends, reads, deletions and erasures, a finished forward walk has read exactly the messages past the cursor that either of the two sent to the other, each once, in ascending order. |
| `MessageRuns.BackwardPagingInAnyRun` | server/onyxchat-server/internal/store/message_store.go:112-130 | In any such run, a finished walk back has read exactly those below the cursor, as it began, each once, in ascending order. |
| `MessageRuns.ReceiptsExact` | server/onyxchat-server/internal/store/message_store.go:160-185 | Over any run the ids returned by all MarkRead calls never repeat and are exactly those of the messages with read_at set. |
| `MessageRuns.DeletedIsFinal` | server/onyxchat-server/internal/store/message_store.go:190-205 | Once a message is deleted its deletion and read marks never change again. |
| `MessageRuns.DeletedStaysHidden` | server/onyxchat-server/internal/store/message_store.go:44-48 | Once deleted, a message is shown blank ever after, is never replayed to its recipient, and if unread is never receipted. |
| `ChatDelivery.ReceivedAtMostOnce` | web/onyxchat-web/src/context/ChatContext.tsx:151-155 | End to end: however often a send is retried, an event republished or redelivered, a reconnect replayed or a page refetched, no list holds two received lines with one (sender, client message id). |
| `ChatDelivery.LinesAreGenuine` | web/onyxchat-web/src/context/ChatContext.tsx:217-309 | Every line ever shown is the user's own unconfirmed line or a message that is stored with that id, sender and client id. |
| `ChatDelivery.InvAlways` | web/onyxchat-web/src/context/ChatContext.tsx:138-383 | In every run, everything published, replayed, fetched or answered is a stored message, every page is in order, and every list is genuine and free of received duplicates. |
| `ChatDelivery.OnlyOwnTraffic` | server/onyxchat-server/internal/http/message_handlers.go:137-138 | In every run, every frame, page and reply that reaches a client is of a message its own user sent or received. |
| `ChatDelivery.HandledExactlyOnce` | web/onyxchat-web/src/context/ChatContext.tsx:138-155 | In any reachable state, whatever happened while the body was decrypted, handling a frame leaves its message exactly once on the list its peer was looked up for, keeps the lines before it, and changes no other list; a message not there yet is added at the end with its id, sender, client id and decrypted text, not failed. |
| `ChatDelivery.AppendShowsPage` | web/onyxchat-web/src/context/ChatContext.tsx:239-245 | Loading more history leaves every message of the page on the list. |
| `ChatDelivery.PublishedReachesList` | server/onyxchat-server/internal/http/message_handlers.go:125-138 | A published message from a contact, once pushed and handled, is on that contact's list, with its decrypted text if it was not there before. |
| `ChatDelivery.CatchUpReplays` | server/onyxchat-server/internal/store/message_store.go:132-156 | Reconnecting replays, besides what was on its way, exactly the undeleted messages to the user past the cursor. |
| `ChatDelivery.SendPublishes` | server/onyxchat-server/internal/http/message_handlers.go:192-247 | Every accepted send, a repeated one included, publishes the id of the stored row, and answers the sender with it. |
| `ChatDelivery.ReplaceShowsPage` | web/onyxchat-web/src/context/ChatContext.tsx:224-226 | Opening a conversation, or restoring it after a failed delete, shows exactly the page, in order, each message with its own text. |
| `ChatDelivery.AppendShowsTexts` | web/onyxchat-web/src/context/ChatContext.tsx:239-245 | Loading more keeps the lines there and adds, in id order, exactly the messages of the page not on the list yet, each with its own text. |
| `ChatDelivery.ConfirmShowsText` | web/onyxchat-web/src/context/ChatContext.tsx:294-299 | Confirming a send shows, in place of its line, the saved message with the typed text, and touches nothing else; without that line it changes nothing. |
| `ChatDelivery.DeletionRemovesMessage` | web/onyxchat-web/src/context/ChatContext.tsx:369-372 | Deleting removes exactly the message from the list it was deleted on. |
| `ChatDelivery.DeletionEventRemovesMessage` | web/onyxchat-web/src/context/ChatContext.tsx:187-196 | The event of a deletion removes exactly that message from every list. |
| `ChatDelivery.RemovalKeepsOrder` | web/onyxchat-web/src/context/ChatContext.tsx:191-191 | The lines around a removed one keep their order. |
| `ChatDelivery.ConfirmDistinctIff` | web/onyxchat-web/src/context/ChatContext.tsx:294-299 | On a list with distinct ids, confirming a line keeps the ids distinct if and only if the list does not hold both that line and, elsewhere, the saved message. |
| `ChatDelivery.ShownOnceIff` | web/onyxchat-web/src/context/ChatContext.tsx:138-383 | Own messages included: in a run no list ever has two lines with one id if and only if no confirmation finds its line and the saved message both on the list already. No other client step can create a duplicate. |
| `ChatDelivery.StoredAtMostOnce` | web/onyxchat-web/src/context/ChatContext.tsx:294-299 | In such a run no list has two lines for one stored (sender, client message id), whoever sent it. |
| `ChatDelivery.OwnMessageCanShowTwice` | web/onyxchat-web/src/context/ChatContext.tsx:294-299 | A concrete run of the context's functions in which the condition of ShownOnceIff fails: confirming an own send after a page load shows that message twice. The panel offers that load only after a full page. |
| `ChatDelivery.ServerKeepsInv` | server/onyxchat-server/internal/http/message_handlers.go:193-247 | Any request of any user, a deduplicated retry that is published again included, keeps the delivery invariant: published frames, pages and replies stay copies of stored messages. |
| `SendQueue.WrittenIsPrefixOfAccepted` | server/onyxchat-server/internal/http/ws.go:357-400 | In every interleaving of enqueues, closes and writer steps: frames written are an in-order prefix of those accepted, written, in hand and buffered make up the accepted, and the buffer never exceeds 64. |
| `SendQueue.ChannelClosedAtMostOnce` | server/onyxchat-server/internal/http/ws.go:71-81 | However many callers close concurrently, the channel is closed at most once, and never before the closed flag is set. |
| `SendQueue.OverflowCloses` | server/onyxchat-server/internal/http/ws.go:224-233 | An enqueue on an open client closes it exactly when the buffer holds 64 frames, and otherwise accepts the frame. |
| `SendQueue.ClosedAcceptsNothing` | server/onyxchat-server/internal/http/ws.go:225-227 | From a closed state, whatever runs, the client stays closed and accepts nothing more. |
| `SendQueue.WriterGetsThrough` | server/onyxchat-server/internal/http/ws.go:370-400 | On an open connection whose writes and pings succeed the writer writes any number of buffered frames in as many rounds, draining or not, and is ready for more. |
| `SendQueue.CallsAddUp` | server/onyxchat-server/internal/http/ws.go:71-91 | The interleaved steps of closeWith and enqueueDropSlow, run without interruption, amount to the whole calls that the hub's clients make. |
| `Hubs.WsClient.CloseWith` | server/onyxchat-server/internal/http/ws.go:71-91 | Closing marks, closes channel and connection once; closing again does nothing. |
| `Hubs.WsClient.EnqueueDropSlow` | server/onyxchat-server/internal/http/ws.go:224-233 | Accepts at the tail, or drops a full client, or ignores a closed one. |
| `Hubs.WsClient.Flush` | server/onyxchat-server/internal/http/ws.go:370-386 | The drain loop writes the buffered frames in order up to the first failure, losing only the frame that failed. |
| `Hubs.UserLimiter.Allow` | server/onyxchat-server/internal/http/ws.go:440-445 | One bucket answers all of a user's connections, as the token-bucket run over all their calls does. |
| `Hubs.Hub.AddClient` | server/onyxchat-server/internal/http/ws.go:124-134 | The client joins its user's set, also when it is already there, and no other user's clients change. |
| `Hubs.Hub.LimiterFor` | server/onyxchat-server/internal/http/ws.go:113-122 | The user's current limiter if there is one, otherwise a new one with a full bucket, which becomes the current one. |
| `Hubs.Hub.RemoveClient` | server/onyxchat-server/internal/http/ws.go:136-149 | The client leaves; the last one takes the user's entry and limiter with it, and no other user is affected. |
| `HubRegistry.HubAlways` | server/onyxchat-server/internal/http/ws.go:113-149 | In every run of the handler's order over any number of connections, the hub holds exactly the connections between their addClient and removeClient, limiters belong to users with an entry, and every reader holds its user's current limiter. |
| `HubRegistry.ReadersShareLimiter` | server/onyxchat-server/internal/http/ws.go:415-431 | In every such run no user maps to an empty set, every stored limiter belongs to a user with a registered client, and two readers hold the same limiter if and only if they are the same user's. |
| `HubRegistry.LimiterForFindsClient` | server/onyxchat-server/internal/http/ws.go:308-349 | Whenever the handler reaches limiterFor its own client is registered. |
| `HubRegistry.LimiterKeptIff` | server/onyxchat-server/internal/http/ws.go:145-148 | A user's limiter is still the one of an earlier moment if and only if the user has had a registered client at every moment since. |
| `TokenBucket.ForgetInvisibleIff` | server/onyxchat-server/internal/http/ws.go:145-148 | Replacing a bucket by a full one, as a reconnect after the last connection does, is invisible to every later sequence of calls if and only if the old bucket had refilled by then. |
| `HubLimits.FollowsAlways` | server/onyxchat-server/internal/http/ws.go:113-149 | In every run of the hub with calls, the readers of a user are answered as by one bucket that is replaced exactly when limiterFor finds none. |
| `HubLimits.WsLimits` | server/onyxchat-server/internal/http/ws.go:24-25 | A fresh limiter of a user allows exactly up to 40 reads at once; an empty one allows, some seconds later, exactly up to 20 for each second, at most 40. |
| `HubLimits.HubUserBound` | server/onyxchat-server/internal/http/ws.go:113-122 | In every such run, within any window of a user's events all of the user's connections together are allowed at most burst + rate × length reads, and another burst for each limiter replaced in the window. |
| `HubLimits.ReconnectDoublesBurst` | server/onyxchat-server/internal/http/ws.go:145-148 | A concrete run in which a burst, a disconnect, a reconnect and another burst are all allowed at one instant: the bound of one limiter is not the user's. |
| `HubLimits.HubDropsInvisibleIff` | server/onyxchat-server/internal/http/ws.go:113-149 | In every such run the user's bucket is worth as much as one never dropped at every moment if and only if every dropped bucket had refilled when its successor was made; and then every call is answered alike. |
| `Hubs.Hub.SendToUser` | server/onyxchat-server/internal/http/ws.go:172-190 | Every client of the user, and nobody else, is offered the frame exactly once. |
| `Hubs.Hub.DisconnectUser` | server/onyxchat-server/internal/http/ws.go:209-220 | Every client of the user, and nobody else, is closed. |
| `Decimal.NatRoundTrip` | server/onyxchat-server/internal/http/ws_ticket.go:41-41 | Decimal printing yields digits only and parses back to the same number. |
| `Decimal.IntRoundTrip` | server/onyxchat-server/internal/http/ws_auth_middleware.go:26-26 | Parsing a printed integer gives it back exactly when it fits int64, and an error otherwise. |
| `Decimal.ParsesOnlyNumbers` | server/onyxchat-server/internal/http/ws_auth_middleware.go:26-26 | Only an optional sign and digits parse, with the right sign and only to an int64; a leading plus changes nothing. |
| `Decimal.PrintIntInjective` | server/onyxchat-server/internal/store/contact_store.go:74-74 | Different ids print differently, so anonymous names do not collide. |
| `Tickets.TicketRoundTrip` | server/onyxchat-server/internal/http/ws_auth_middleware.go:24-28 | For every int64 id and every username, colons included, the stored value parses back to exactly the pair that was printed. |
| `Tickets.TicketsAreSingleUse` | server/onyxchat-server/internal/http/ws_auth_middleware.go:20-33 | Over all runs of issue, expiry and consumption each ticket admits at most one connection, and as the user it was issued to. |
| `Tickets.ExpiredAdmitsNobody` | server/onyxchat-server/internal/http/ws_ticket.go:15-15 | A ticket that has expired is never stored again, so it admits nobody in the rest of the run. |
| `Tickets.StoredTicketAdmits` | server/onyxchat-server/internal/http/ws_auth_middleware.go:20-33 | A ticket that is still stored admits its live user, and is gone afterwards. |
| `Tickets.TicketStore.Issue` | server/onyxchat-server/internal/http/ws_ticket.go:40-45 | Issuing is the protocol's issue step, and what is stored parses back to the user it was issued to. |
| `Tickets.TicketStore.Consume` | server/onyxchat-server/internal/http/ws_auth_middleware.go:20-62 | GETDEL, parse and account check are the protocol's consume step: the ticket is gone either way, and a user is answered exactly when one admission is recorded. |
| `Accounts.ErasureHolds` | server/onyxchat-server/internal/store/contact_store.go:51-142 | Over all runs: contacts relate only live users; every message a deleted user sent is blank; a deleted user's row holds nothing but the name deleted_<id> and the time; and each deleted user has exactly one audit row, counting exactly the messages they had sent. |
| `Accounts.ErasedRowIsFinal` | server/onyxchat-server/internal/store/contact_store.go:71-81 | Once deleted, a user's row never changes again. |
| `Accounts.ErasureIsAudited` | server/onyxchat-server/internal/store/contact_store.go:122-132 | The audit row counts exactly the messages the user had sent and the unused invites they had created. |
| `Accounts.InvAlways` | server/onyxchat-server/internal/store/contact_store.go:51-142 | In every run usernames index users exactly, and contacts, blank messages and the deletion log stay as the erasure promises. |
| `Accounts.FollowersAreReverseContacts` | server/onyxchat-server/internal/store/contact_store.go:237-259 | The users notified of a presence change are exactly those whose contact list shows the subject, all live and none the subject. |
| `Accounts.LiveIffNeverErased` | server/onyxchat-server/internal/store/contact_store.go:263-278 | Over all runs a user looked up by id is found exactly when registered and never erased. |
| `Accounts.ErasedInvitesNeverRedeemable` | server/onyxchat-server/internal/store/contact_store.go:104-109 | An invite unused when its creator was erased is never redeemable again, whatever resets, re-registrations of the name and deletions follow. |
| `Accounts.ErasureAlwaysPossible` | server/onyxchat-server/internal/store/contact_store.go:71-84 | If nobody registers a name of the form deleted_<id>, every live account can be erased at any time of any run. |
| `Accounts.ErasureTakesEffectIff` | server/onyxchat-server/internal/store/contact_store.go:71-88 | Erasing a live account takes effect if and only if no other row holds its anonymous name; otherwise the database is unchanged. |
| `Accounts.TakenNameBlocksErasure` | server/onyxchat-server/internal/store/contact_store.go:74-84 | A concrete run in which a registered name blocks another live account's erasure. |
| `Accounts.InviteLedger` | server/onyxchat-server/internal/store/user_store.go:46-91 | For every code and run: registrations with it = its current used mark + resets that hit it while used. |
| `Accounts.OneUserBetweenResets` | server/onyxchat-server/internal/store/admin_invite_store.go:73-87 | Between two resets a code admits at most one user. |
| `Accounts.InviteConservation` | server/onyxchat-server/internal/store/user_store.go:46-91 | In every run, failed and rolled-back registrations included: users = successful registrations = codes marked used + resets that hit a used code. |
| `UserStores.UserStore.RegisterWithInvite` | server/onyxchat-server/internal/store/user_store.go:46-91 | Marks the code and inserts the user together or not at all; succeeds exactly for an unused, unexpired code and a free name, and reports an invalid code exactly when it is not redeemable. |
| `UserStores.UserStore.DeleteAccountGDPR` | server/onyxchat-server/internal/store/contact_store.go:51-142 | The transaction performs the whole erasure and logs it, or changes nothing; it fails exactly when the account is not live or another row holds the anonymous name. |
| `UserStores.UserStore.AddContact` | server/onyxchat-server/internal/store/contact_store.go:149-169 | Adds the pair for a live target other than the user, is idempotent, and otherwise changes nothing. |
| `UserStores.UserStore.RemoveContact` | server/onyxchat-server/internal/store/contact_store.go:172-192 | Removes exactly that pair, and fails exactly when it is not there. |
| `UserStores.UserStore.ListContacts` | server/onyxchat-server/internal/store/contact_store.go:209-232 | Exactly the user's live contacts with their names, each once, in the order of the names under whatever collation the database has. |
| `UserStores.UserStore.GetContactFollowerIDs` | server/onyxchat-server/internal/store/contact_store.go:237-259 | Exactly the live users who have this user as a contact, each once. |
| `UserStores.UserStore.GetUserByID` | server/onyxchat-server/internal/store/contact_store.go:263-278 | After any run of requests, finds exactly the users that are registered and were never erased. |
| `UserStores.UserStore.GetUserByUsername` | server/onyxchat-server/internal/store/user_store.go:121-136 | The live user of that name, or not found exactly when no live user has it. |
| `UserStores.UserStore.AdminCreateInvite` | server/onyxchat-server/internal/store/admin_invite_store.go:53-70 | Adds an unused invite; fails exactly when the code exists. |
| `UserStores.UserStore.AdminResetInvite` | server/onyxchat-server/internal/store/admin_invite_store.go:73-87 | Clears the used mark and keeps the expiry; fails exactly when the code does not exist. |

## Left out

- Cryptography (ECDH, AES-GCM, bcrypt, JWT signing, base64): bodies and IVs are opaque strings, tokens and tickets are fresh values that never repeat.
- HTTP, JSON, CORS, request validation, logging, metrics and tracing; the React components, desktop client, service worker and infrastructure scripts.
- Errors of Redis and Postgres, except those a property names: lost responses, an ignored failed DEL, a failed SET, a rolled-back registration, a failed frame or ping write.
- Floating-point rounding inside rate.Limiter: buckets are exact reals, and the times of the calls to one limiter do not decrease.
- golang.org/x/time/rate and go-redis are not part of this model's sources; their buckets and commands are modelled as documented.
- Entries of the limiter map are values, so the pointer a caller could hold to an evicted `limiterEntry` is not modelled; no caller holds one across calls.
- The 30 days of a refresh token: the rotation theorems are about tokens that do not expire. A ticket's 30 seconds appear as an expiry at any moment.
- The Bearer header fallback of the WebSocket middleware, which does not touch tickets.
- The username inside a presence event; and the presence calls of the store class take one reading of the clock per call; the order in which several calls mix is the subject of `PresenceProtocol`.
- StartPresenceSubscriber's loop: who receives an event is stated by `Accounts.FollowersAreReverseContacts`, the sending by `Hubs.Hub.SendToUser`.
- In `SendQueue`, the closed check and the channel send of enqueueDropSlow are one step, and the recover around close(c.send) is not modelled.
- The WebSocket handler's replay of unread messages through the hub appears as frames that may arrive any number of times (`ChatDelivery`), not as calls on a socket.
- Unread counters, typing indicators, key-change events, the shared-key cache, the completeness of a client's history list, and which contacts the client keeps when a user switches.
- The createdAt, encrypted and recipient fields of the client's lines.
- SQL statements are functions on table values. Locks, isolation levels and rows that become visible out of id order are not modelled.
- MessageStores.MessageStore.MarkRead: returns ids in id order, although RETURNING promises none; the theorems about receipts do not depend on the order.
- AuthServer.TokenServer.StoreRefreshToken: takes only tokens that NewRefreshToken has handed out, as its two callers do.
- Tickets.TicketStore.Issue: takes only tickets never issued before and int64 ids, which fresh random bytes and the users table give.
- CreateUser, ConsumeInviteCode, SearchUsers, ListUsers, AdminListInvites, IsContact, UpdatePassword and the setters for keys and push tokens; the columns display_name, used_at, created_at and the constant public_key_cleared.
- In `PresenceSystem` a connection's writer sends no EXPIRE after its Disconnect; `PresenceCrashes` lets it.
- A closing tab frees the Web Lock: the two theorems about refreshes under the lock are about tabs that stay open.
- The notification service beyond its reader of the presence counter.
