# Verified model of the backend's stateful protocols

This project models, in Dafny 4.11, the small stateful protocols that the NestJS backend runs over
Redis and its database, and proves what they guarantee over whole runs. Each module follows one
service. A service whose methods change stored state is a class: its methods run the same commands
in the same order and are proved equal to a step function, and the theorems are about every
sequence of steps. In `RateLimiter`, `ReadThroughCache`, `RoomIndex`, `ActivityFeed` and
`Presence.ViewsAgree` a step is one Redis command, one MULTI block or one database query, and traces
interleave freely. Everywhere else a step is a whole handler, and runs are sequential.

Conventions. Times are integers in milliseconds on one clock shared by Redis and its callers. A key
is readable while `now < expiry`; a Redis server keeps it one millisecond longer, until now is past
the expiry, so results that turn on the exact instant of expiry shift by that millisecond. Key strings are typed values and assumed distinct. JSON encoding,
logging, sockets, mail and payment SDK calls are not modelled beyond the outcome they may have.

The modules:

- `Wrappers`, `Numbers`: values that may be missing, and the smaller of two numbers.
- `Redis`: keys with an expiry.
- `RateLimiter`: both sliding-window limiters. The real-time bound holds for every interleaving and
  is exact: `max` admissions in any span shorter than L, on all runs with stamp-to-MULTI delay up to
  d, if and only if L <= windowMs - d. Against the limiter that never forgets, the guard decides
  identically on in-order stamps if and only if d <= 1000 ms, the Express version if and only if
  d = 0: its `expireAt` is computed from the stamp and leaves no slack.
- `ReadThroughCache`: `getOrSet` and `invalidate` as interleaved commands, with failures. Staleness is
  at most ttl + D, and that bound is reached by a reader that overlaps one write. A hit is not always
  the row: every quiet moment of a run is coherent if and only if no step stores an outdated value
  after all writers have invalidated, or loses the last invalidation of a wrong entry.
- `UnreadCounter`: the INCR/DECR counter, with commands that fail. It is not always the table's count;
  the drift law says by how much it is off. With Redis up it is never too high. It is right throughout
  a run if and only if every step passes a check made before it.
- `RoomIndex`: the two-way room index with a two-step removal. A room overstates its users exactly
  for stranded pairs, which are described by the trace and what each removal read.
- `ActivityFeed`: LPUSH and LTRIM as separate commands, with the feed's exact length at every moment.
- `MessageCursor`: cursor pages with the in-place reverse, complete walks, and the read watermark.
- `SettingsPages`: cursor and offset walks. The returned `nextCursor` names the first row not shown,
  and the next request skips its cursor row, so following it loses one row per block of limit + 1;
  the walk is complete if and only if one page holds everything. The query DTO documents the cursor
  as the last id of the previous page, and that walk is complete.
- `Otp`: one-time codes, with an exact success criterion. A code can succeed until 5 ms
  short of 3000 s after creation, not 600 s, because every wrong guess restarts the TTL.
- `TokenRotation`: refresh tokens and their blacklist. A token carries no nonce, so one exchanged in
  the second it was issued is exchanged for itself and dies with its own revocation.
- `Presence`: online set, socket maps, reconnect and cleanup. A reconnect does not replace the stored
  socket: the old one stays stored and takes the user offline when it closes. The maps match the open
  sockets throughout a run if and only if nobody connects twice and no sweep removes anybody. Sweeps
  do: nothing renews `connectedAt`, so the job takes offline everyone connected for more than five
  minutes, and leaves their socket open.
- `RevenueCat`: subscription events, whichever of a user's rows `findOne` returns.
- `Conversations`: one live row per member, one direct conversation per pair. The second fails in one
  way only: adding a removed member back to a direct conversation of two leaves three rows that match
  no later request, which then opens a second conversation for the pair.
- `PaymentCache`: two invalidated caches over the transaction table. They answer like the queries, on a
  sequential run, if and only if no swallowed del failure leaves a live entry of a row that changed.
- `StripeWebhook`: attempts, retry and duplicate transactions. `attempts` grows by two per run, so the
  filter commented as allowing three retries allows one. Checkout events are looked up by an order id
  that the create never sets, so each successful redelivery adds a transaction, except while another
  gateway's transaction carries the session's id as its order id and is not deleted.
- `SubscriptionPlans`: which plan is on offer per type, including after a Stripe failure.

Verify with `dafny verify dfyconfig.toml`.

## Model

| member | source | states |
|---|---|---|
| Redis.CeilSeconds | libs/common/src/guards/sliding-window-rate-limit.guard.ts:83 | rounding milliseconds up to seconds: the least number of seconds covering them |
| RateLimiter.CanActivate | libs/common/src/guards/sliding-window-rate-limit.guard.ts:40-124 | the commands of the MULTI, run in order, leave the window the step function describes and judge its count; a MULTI that ran and whose reply was lost admits with its entry stored; one that never ran, or no options, admits and changes nothing |
| RateLimiter.CheckRateLimit | express-mongo-redisCache-rateLimit-example/rateLimiterRedis.ts:95-148 | the same for the Express version with absolute expiry; without an answer it fails open with all of max left |
| RateLimiter.SortedSetKey.ZRemRangeByScore | libs/common/src/guards/sliding-window-rate-limit.guard.ts:76 | pruning removes exactly the members whose score lies in the range, and an emptied key loses its expiry |
| RateLimiter.SortedSetKey.ExpireAtMs | express-mongo-redisCache-rateLimit-example/rateLimiterRedis.ts:114 | an expiry already past deletes the key; otherwise only the expiry changes |
| RateLimiter.Survives | libs/common/src/guards/sliding-window-rate-limit.guard.ts:76-82 | neither pruning by any interleaved worker nor the TTL removes an entry while less than windowMs - d has passed |
| RateLimiter.RealTimeBound | libs/common/src/guards/sliding-window-rate-limit.guard.ts:69-114 | any set of admitted requests within a real-time span shorter than windowMs - d has at most max members |
| RateLimiter.BoundIsExact | libs/common/src/guards/sliding-window-rate-limit.guard.ts:69-114 | a span length is bounded on all runs if and only if it is at most windowMs - d, for both limiters |
| RateLimiter.RefusalIsEarned | libs/common/src/guards/sliding-window-rate-limit.guard.ts:76-104 | a refused request had at least max others less than windowMs + d before it, in real time, with stamps in any order |
| RateLimiter.HeldIffRecent | libs/common/src/guards/sliding-window-rate-limit.guard.ts:76-86 | with in-order stamps and delay within the slack, an entry is stored if and only if it is in the window |
| RateLimiter.ContentsAreRecent | libs/common/src/guards/sliding-window-rate-limit.guard.ts:76-86 | the set holds the current request and exactly the earlier ones in its window |
| RateLimiter.RefinesNaive | libs/common/src/guards/sliding-window-rate-limit.guard.ts:76-104 | a request is admitted if and only if fewer than max earlier requests, admitted or refused, lie in its window |
| RateLimiter.RefinementIsExact | express-mongo-redisCache-rateLimit-example/rateLimiterRedis.ts:105-134 | agreement with the limiter that keeps all history holds on all runs with delay up to d if and only if d <= 1000 for the guard, d = 0 for Express; both thresholds count on a key being unreadable at its very expiry |
| RateLimiter.LateForgetterDisagrees | express-mongo-redisCache-rateLimit-example/rateLimiterRedis.ts:113-114 | the two-request run on which a key expires under a stamp still in the window; its second MULTI runs at the very instant of expiry |
| RateLimiter.ImplementationsAgree | express-mongo-redisCache-rateLimit-example/rateLimiterRedis.ts:105-134 | with no delay both limiters decide alike on every trace |
| RateLimiter.AgreementIsExact | express-mongo-redisCache-rateLimit-example/rateLimiterRedis.ts:105-134 | the two limiters decide alike on all in-order runs with delay up to d if and only if d = 0, a key being unreadable at its very expiry |
| RateLimiter.RemainingIsHonest | libs/common/src/guards/sliding-window-rate-limit.guard.ts:93-101 | in a burst at one instant exactly the next X-RateLimit-Remaining requests pass, each told one fewer, and all after them are refused |
| ReadThroughCache.FreshStep | libs/redis/src/redis.service.ts:19-58 | every command of every interleaved reader and writer keeps the cached and the fetched values recently current |
| ReadThroughCache.ReturnsBoundedStaleness | libs/redis/src/redis.service.ts:19-58 | each value a call returns was the database's at some moment within the last ttl + D, under any interleaving and any Redis failure |
| ReadThroughCache.CoherentStepIff | libs/redis/src/redis.service.ts:37-58 | from a coherent state a command leaves a wrong entry with no writer pending if and only if it is a late set of an outdated value or the loss of the last del |
| ReadThroughCache.CoherentWhenQuiet | libs/redis/src/redis.service.ts:19-58 | at every quiet moment of a run a hit equals the direct fetch, if and only if no step of the run spoils |
| ReadThroughCache.SpoilingSetOverlaps | libs/redis/src/redis.service.ts:37-45 | a set can only spoil if a write came between its own fetch and it |
| ReadThroughCache.OverlapReachesTheBound | libs/redis/src/redis.service.ts:37-54 | a set that overlaps a write outlives its invalidation and serves the old value until ttl + D - 1 after it was last current |
| ReadThroughCache.RedisService.GetOrSet | libs/redis/src/redis.service.ts:19-48 | hit, miss, null row and failed commands; if the entry mirrors the row the answer is the row and still mirrors it |
| ReadThroughCache.RedisService.WriteAndInvalidate | libs/redis/src/redis.service.ts:50-58 | after a write the key is absent or, if the del failed and was swallowed, as it was; exactly when the entry still mirrors the row |
| UnreadCounter.NotificationService.SendNotification | src/features/notification/notification.service.ts:26-60 | the created row, then the increment; the row stays when INCR or EXPIRE throws |
| UnreadCounter.NotificationService.Broadcast | src/features/notification/notification.service.ts:90-96 | one send per receiver in order, up to the first that throws |
| UnreadCounter.BroadcastCounts | src/features/notification/notification.service.ts:90-96 | with Redis up each receiver's counter grows by the times it is named, with a fresh TTL, and nobody else's changes |
| UnreadCounter.BroadcastRows | src/features/notification/notification.service.ts:90-96 | each receiver has as many new unread rows as times it was sent one, whatever Redis did |
| UnreadCounter.NotificationService.MarkAsRead | src/features/notification/notification.service.ts:180-191 | the row is marked and the counter decremented whether or not the row was unread; a foreign id is an error, and so is a counter command that throws afterwards |
| UnreadCounter.NotificationService.MarkAllAsRead | src/features/notification/notification.service.ts:196-212 | all unread rows are marked and the key deleted, unless the del fails, which is swallowed |
| UnreadCounter.NotificationService.DeleteNotification | src/features/notification/notification.service.ts:217-226 | the row is flagged and the counter decremented if the row was never read; a counter command that throws is an error |
| UnreadCounter.NotificationService.GetUnreadCount | src/features/notification/notification.service.ts:152-168 | the cached number if live and read, else the count, which is then cached unless the set fails |
| UnreadCounter.NotificationService.AddToCounter | src/features/notification/notification.service.ts:259-275 | INCR or DECR from zero when absent, then a fresh TTL; without the EXPIRE a new key never expires |
| UnreadCounter.CountStep | src/features/notification/notification.service.ts:26-226 | how each operation moves the true unread count |
| UnreadCounter.DriftLaw | src/features/notification/notification.service.ts:26-275 | on every run, failed commands included, a cached counter is the true count less the rows unread when the key was made and the redundant decrements since, plus the balance of the changes that failed to reach it |
| UnreadCounter.AnswerIsExactIffBalanced | src/features/notification/notification.service.ts:152-168 | a cached answer is right if and only if those terms balance, and too high if and only if the missed changes outweigh the others |
| UnreadCounter.NeverTooHigh | src/features/notification/notification.service.ts:152-226 | while every INCR, DECR and DEL reaches Redis the answer never exceeds the true count and is right if and only if nothing drifted |
| UnreadCounter.CarefulRunsAgree | src/features/notification/notification.service.ts:26-275 | the answer equals the count at every moment of a run if and only if each counted change hits a row still unread and a warm key or an empty inbox, and each lost change finds no warm key or nothing to count |
| UnreadCounter.AgreesStepIff | src/features/notification/notification.service.ts:26-275 | from a right answer one operation keeps it right if and only if it passes that check |
| UnreadCounter.ColdIncrementForgets | src/features/notification/notification.service.ts:50-53 | after any run: a message, the key lapses, a message; the cache then reads 1 and the table two more than before |
| RoomIndex.UserSideIsContained | src/features/socket.gateway/services/socket-room.service.ts:49-100 | under every interleaving a room listed for a user lists that user |
| RoomIndex.UserKeyIff | src/features/socket.gateway/services/socket-room.service.ts:80-100 | a user's key holds a room if and only if it was joined and neither left nor cleared since |
| RoomIndex.RoomKeyIff | src/features/socket.gateway/services/socket-room.service.ts:71-100 | a room's key holds a user if and only if they joined and no leave or removal that had read the pair came since |
| RoomIndex.OrphansAreStranded | src/features/socket.gateway/services/socket-room.service.ts:84-100 | the room side exceeds the user side exactly for pairs joined between the read and the write of a removal, or orphaned by expiry |
| RoomIndex.ExactInverses | src/features/socket.gateway/services/socket-room.service.ts:106-157 | without expiry and such overlaps the two maps are exact inverses |
| RoomIndex.RemovalCleansAllButStranded | express-mongo-redisCache-rateLimit-example/redis/redisStateManagerForSocketV2.ts:268-286 | a removal leaves the user in no room when the maps agree, and never finds a stranded pair |
| RoomIndex.SocketRoomService.JoinRoom | src/features/socket.gateway/services/socket-room.service.ts:49-58 | both keys gain the pair and nothing else changes |
| RoomIndex.SocketRoomService.LeaveRoom | src/features/socket.gateway/services/socket-room.service.ts:60-69 | both keys lose the pair and nothing else changes |
| RoomIndex.SocketRoomService.IsUserInRoom | src/features/socket.gateway/services/socket-room.service.ts:75-78 | the chat query answers from the room side |
| RoomIndex.SocketRoomService.IsUserInTaskRoom | src/features/socket.gateway/services/socket-room.service.ts:132-135 | the task and group queries answer from the user side |
| RoomIndex.SocketRoomService.PurgeRooms | src/features/socket.gateway/services/socket-room.service.ts:89-97 | the srem loop and the del remove exactly the rooms read earlier from the room side and everything from the user side |
| RoomIndex.SocketRoomService.RemoveUserFromAllRooms | src/features/socket.gateway/services/socket-room.service.ts:84-100 | an uninterrupted removal purges the rooms the user has |
| RoomIndex.RemoveUserEverywhere | express-mongo-redisCache-rateLimit-example/redis/redisStateManagerForSocketV2.ts:176-179 | all three room kinds are purged of the user |
| ActivityFeed.ExactContents | src/features/socket.gateway/services/socket-room.service.ts:259-272 | under any interleaving the feed is a newest-first prefix of the history, of the stated exact length |
| ActivityFeed.FeedIsCapped | src/features/socket.gateway/services/socket-room.service.ts:259-287 | length between min(cap, pushes) and cap + pending, and the latest min(cap, pushes) once every adder has trimmed |
| ActivityFeed.ZeroCapNeverTrims | src/features/socket.gateway/services/socket-room.service.ts:266 | a cap of zero keeps everything |
| ActivityFeed.Feed.AddActivity | src/features/socket.gateway/services/socket-room.service.ts:259-272 | an uninterrupted add is its push followed by its trim |
| ActivityFeed.Feed.GetActivities | src/features/socket.gateway/services/socket-room.service.ts:274-280 | the newest `limit` activities; a limit of zero reads all |
| MessageCursor.MessageService.GetMessagesWithCursor | src/features/chatting/message/message.service.ts:140-194 | the page of the rows next to the cursor and the watermark it sets; a limit of zero throws exactly when rows exist |
| MessageCursor.MessageService.Deliver | src/features/chatting/message/message.service.ts:178-193 | the watermark is taken in query order, the cursors after the in-place reverse |
| MessageCursor.AssembledAsPromised | src/features/chatting/message/message.service.ts:188-193 | cursors read after the reverse name the ends of the ascending page |
| MessageCursor.ReverseInPlace | src/features/chatting/message/message.service.ts:189 | the array is reversed in place |
| MessageCursor.MessageService.MarkMessagesAsRead | src/features/chatting/message/message.service.ts:266-291 | the watermark becomes the last listed message's time; an empty page changes nothing |
| MessageCursor.PagesAscend | src/features/chatting/message/message.service.ts:166-189 | every page is in ascending order |
| MessageCursor.PageIsExact | src/features/chatting/message/message.service.ts:149-193 | for any cursors: the page is the `limit` messages in range next to the cursor, hasMore tells whether some are left, nextCursor names its last message and prevCursor its first |
| MessageCursor.CursorsContinue | src/features/chatting/message/message.service.ts:188-191 | on every page, forward or backward, what is later than nextCursor is everything newer than the page and what is earlier than prevCursor everything older |
| MessageCursor.LaterOfLater | src/features/chatting/message/message.service.ts:161-164 | the rows after one of the rows after a cursor are the rest of them |
| MessageCursor.ForwardVisitsAll | src/features/chatting/message/message.service.ts:140-194 | following after = nextCursor terminates and shows every later message exactly once, in order |
| MessageCursor.BackwardVisitsAll | src/features/chatting/message/message.service.ts:140-194 | following before = prevCursor terminates and shows every earlier message exactly once |
| MessageCursor.PageSetsUnread | src/features/chatting/message/message.service.ts:181-186 | after any page the unread count is the number of others' messages newer than results[last] going forward, newer than results[0] going back |
| MessageCursor.WalkLeavesNothingUnread | src/features/chatting/message/message.service.ts:365-393 | a forward walk from the start leaves the unread count at zero |
| MessageCursor.MessageService.GetUnreadCount | src/features/chatting/message/message.service.ts:365-393 | the number of others' messages newer than the watermark, or of all of others' messages without one |
| SettingsPages.GetAllWithPaginationCursor | src/features/settings/services/settings.service.ts:110-152 | taking limit + 1 and popping yields the page after the cursor and the id of the row after it |
| SettingsPages.WalkByLastId | libs/common/src/shared/types/paginate.ts:82 | passing the last returned id terminates and shows every row once |
| SettingsPages.NextCursorSkipsBlockEnds | src/features/settings/services/settings.service.ts:131-145 | following nextCursor shows exactly the rows with index mod (limit + 1) not equal to limit, dropping one per full block |
| SettingsPages.NextCursorCompleteIff | src/features/settings/services/settings.service.ts:131-145 | that walk is complete if and only if there are at most `limit` rows |
| SettingsPages.TotalPages | src/features/settings/services/settings.service.ts:106 | the least number of pages that covers all rows |
| SettingsPages.PageIsAsAsked | src/features/settings/services/settings.service.ts:83-108 | a page carries its number, the limit asked for, the total and the number of pages, and holds that many rows unless they run out |
| SettingsPages.Limit | src/features/settings/services/settings.service.ts:86 | the page size is the one asked for, or ten if none was |
| SettingsPages.OffsetPagesCoverExactly | libs/common/src/generic/generic.service.ts:65-94 | pages 1..n are the whole list if and only if n reaches totalPages, and later pages are empty |
| Otp.OtpService.CreateOtp | src/features/authentication/otp/otp.service.ts:16-35 | a fresh record with no attempts and a full TTL |
| Otp.OtpService.VerifyOtp | src/features/authentication/otp/otp.service.ts:37-67 | each branch's outcome and the record it leaves |
| Otp.OtpService.ResetPassword | src/features/authentication/auth/auth.service.ts:198-208 | the password changes exactly when the code verifies |
| Otp.StateAfter | src/features/authentication/otp/otp.service.ts:37-67 | the record after any sequence of calls: all guesses wrong and timely, or spent for good |
| Otp.SucceedsIff | src/features/authentication/otp/otp.service.ts:54-66 | a call succeeds if and only if it is among the first five, all earlier ones were wrong, and no gap reached the TTL |
| Otp.AtMostOneSuccess | src/features/authentication/otp/otp.service.ts:54-66 | at most one call succeeds, no later than five times the TTL less a millisecond after creation; that millisecond is the one in which a key reaches its expiry |
| Otp.AtMostFiveInvalid | src/features/authentication/otp/otp.service.ts:59-63 | at most five mismatches are recorded, and exactly which |
| Otp.OutcomeIsExact | src/features/authentication/otp/otp.service.ts:37-67 | every outcome exactly: too many on the sixth timely call after five wrong ones, verified or invalid before that, not found in all other cases |
| Otp.RecordIsBounded | src/features/authentication/otp/otp.service.ts:54-62 | attempts never exceed five and the expiry stays within one TTL per attempt |
| Otp.LatestSuccess | src/features/authentication/otp/otp.service.ts:61 | a run that succeeds at exactly that bound, each guess in the last millisecond before the expiry |
| TokenRotation.AuthService.RefreshToken | src/features/authentication/auth/auth.service.ts:129-159 | a token is exchanged exactly when not blacklisted, ours, unexpired and its user stored and undeleted; the new one names that user's current profile and expires in seven days, and the old one is blacklisted; a refusal changes nothing |
| TokenRotation.AuthService.LoginUser | src/features/authentication/auth/auth.service.ts:52-81 | an undeleted user gets a token for their current profile that expires in seven days and starts a chain; anybody else is refused |
| TokenRotation.AuthService.LogoutToken | src/features/authentication/auth/auth.service.ts:164-167 | the presented token is blacklisted and no other token's standing changes |
| TokenRotation.AuthService.BlacklistToken | src/features/authentication/auth/auth.service.ts:237-247 | the entry lasts seven days from now |
| TokenRotation.RotatedStep | src/features/authentication/auth/auth.service.ts:129-167 | every call keeps all superseded, exchanged and revoked tokens dead beyond their own exp |
| TokenRotation.OnlyNewestIsLive | src/features/authentication/auth/auth.service.ts:129-159 | in each login's chain only the newest token can be live |
| TokenRotation.NoTokenExchangedTwice | src/features/authentication/auth/auth.service.ts:152-153 | no token is exchanged twice on any run |
| TokenRotation.ExchangedIff | src/features/authentication/auth/auth.service.ts:129-159 | on every run a token is exchanged if and only if it was handed out, is neither revoked nor expired, and its user was last stored undeleted |
| TokenRotation.BlacklistOutlivesToken | src/features/authentication/auth/auth.service.ts:38 | a blacklist entry is still present unless its token has expired by itself |
| TokenRotation.LogoutIsFinal | src/features/authentication/auth/auth.service.ts:164-167 | nothing after a logout makes the token usable again |
| TokenRotation.RefreshYieldsLiveTokenIff | src/features/authentication/auth/auth.service.ts:213-232 | the new token is live if and only if it is not already blacklisted and differs from the one given in |
| Presence.ViewsAgree | src/features/socket.gateway/services/socket-auth.service.ts:146-206 | under every interleaving a user is in the online set iff they have a stored socket iff their status is online |
| Presence.MapsNameLiveSockets | src/features/socket.gateway/services/socket-auth.service.ts:92-134 | with atomic handlers both socket maps name only open sockets of their own user |
| Presence.InverseIffCalm | src/features/socket.gateway/services/socket-auth.service.ts:92-134 | the maps are exact inverses over the open sockets at every moment of a run if and only if nobody connects with a socket open and no sweep removes anybody |
| Presence.CalmStep | src/features/socket.gateway/services/socket-auth.service.ts:92-134 | from exact inverses one event keeps them so if and only if it is calm |
| Presence.PresentIffYoungAtSweep | src/features/socket.gateway/services/socket-auth.service.ts:146-180 | with one open socket per user, a socket and its user are in both maps, with the time it was opened, if and only if it was at most five minutes old at the last sweep |
| Presence.SweepDropsTheConnected | src/features/socket.gateway/services/socket-auth.service.ts:314-331 | a sweep takes offline exactly the users whose open socket is more than five minutes old, and closes none of them |
| Presence.EntriesAreYoung | src/features/socket.gateway/services/socket-auth.service.ts:314-331 | no presence entry is ever older than ten minutes past connectedAt |
| Presence.ReconnectIsLost | src/features/socket.gateway/services/socket-auth.service.ts:100-110 | after a reconnect the old socket stays stored, and its closing takes the user offline with a socket open |
| Presence.SocketAuthService.HandleUserConnection | src/features/socket.gateway/services/socket-auth.service.ts:92-118 | the first connection is stored; a different socket only forgets the old one's entry and returns it |
| Presence.SocketAuthService.AddOnlineUser | src/features/socket.gateway/services/socket-auth.service.ts:146-180 | all four views gain the user |
| Presence.SocketAuthService.RemoveOnlineUser | src/features/socket.gateway/services/socket-auth.service.ts:185-206 | the user and socket go, the status turns offline |
| Presence.SocketAuthService.CleanUp | src/features/socket.gateway/services/socket-auth.service.ts:314-331 | the loop removes exactly the online users whose entry is older than five minutes |
| RevenueCat.RevenueCatWebhookService.ProcessEvent | src/features/subscription.module/revenueCat/services/revenueCatWebhook.service.ts:66-231 | each handler's effect on the row found |
| RevenueCat.RevenueCatWebhookService.HandleInitialPurchase | src/features/subscription.module/revenueCat/services/revenueCatWebhook.service.ts:96-141 | a known user and an unused order id create one active row with one cycle and both dates at the expiration; anything else changes nothing |
| RevenueCat.OnePerOrder | src/features/subscription.module/revenueCat/services/revenueCatWebhook.service.ts:102-109 | at most one subscription per order id; expiration and renewal dates stay equal |
| RevenueCat.CyclesAreConserved | src/features/subscription.module/revenueCat/services/revenueCatWebhook.service.ts:146-160 | a user's billing cycles sum to subscriptions plus renewals received once one existed, for any choice of row |
| RevenueCat.ActiveIffNeverHit | src/features/subscription.module/revenueCat/services/revenueCatWebhook.service.ts:165-231 | a row is active if and only if no cancellation, expiration, refund or billing issue ever hit it |
| RevenueCat.RowsTellTheirHistory | src/features/subscription.module/revenueCat/services/revenueCatWebhook.service.ts:96-231 | on every run a row's two dates are the expiration of its last renewal, or else of its purchase; its status is the one the last other event named; its cycles are one more than its renewals; it is inactive if and only if an expiration hit it |
| Conversations.ConversationService.CreateConversation | src/features/chatting/conversation/conversation.service.ts:31-70 | the error for fewer than two people; an existing direct conversation of exactly these two people, with nothing changed; or a new one, direct exactly for two people, with a live row for each of them and nobody else and no other row changed |
| Conversations.ConversationService.FindExistingDirectConversation | src/features/chatting/conversation/conversation.service.ts:75-93 | a match is found exactly when one exists |
| Conversations.ConversationService.AddParticipantsToConversation | src/features/chatting/conversation/conversation.service.ts:98-116 | afterwards exactly the users named and those who were live before are live; rows are only appended, and only to this conversation |
| Conversations.ConversationService.RemoveParticipant | src/features/chatting/conversation/conversation.service.ts:239-243 | every row of that user in that conversation is soft-deleted, and no other row changes |
| Conversations.Dedupe | src/features/chatting/conversation/conversation.service.ts:33 | no repeats, same people |
| Conversations.MatchesIffSameSet | src/features/chatting/conversation/conversation.service.ts:89-92 | comparing lengths and sorted ids accepts exactly the duplicate-free rows of the same people |
| Conversations.OneLiveRowAlways | src/features/chatting/conversation/conversation.service.ts:98-116 | nobody ever has two live rows in one conversation |
| Conversations.OneDirectPerPair | src/features/chatting/conversation/conversation.service.ts:31-116 | at most one direct conversation per unordered pair on every run, with any adds and removals but that re-adding |
| Conversations.UnambiguousIffNeverReadds | src/features/chatting/conversation/conversation.service.ts:75-116 | no pair has two direct conversations, now or after any one request, throughout a run if and only if no step re-adds a removed member to a direct conversation of two |
| Conversations.ReaddBreaks | src/features/chatting/conversation/conversation.service.ts:89-116 | after any such step the pair's next request opens a second conversation |
| Conversations.ReaddedPairHasTwo | src/features/chatting/conversation/conversation.service.ts:31-116 | on any run, removing one side of a direct chat, adding it back and requesting the chat again ends with two direct conversations of the same two people |
| Conversations.FirstRequestOpens | src/features/chatting/conversation/conversation.service.ts:31-70 | such a chat is one request away |
| Conversations.OpensIffNoneExists | src/features/chatting/conversation/conversation.service.ts:31-46 | a request opens a conversation if and only if it names at least two people and, for just two, none of theirs exists |
| Conversations.OpensForAll | src/features/chatting/conversation/conversation.service.ts:31-60 | a conversation that opens, direct or group, holds exactly the people named, once each and live, and leaves all other rows alone |
| PaymentCache.CachesAreTransparent | src/features/payment.module/paymentTransaction/services/paymentTransaction.service.ts:81-222 | both cached finders answer what the query would throughout a sequential run, if and only if no del fails over a live entry of a row that visibly changed |
| PaymentCache.RewriteStep | src/features/payment.module/paymentTransaction/services/paymentTransaction.service.ts:81-98 | rewriting a row keeps both finders right if and only if nothing visible changed or no live entry outlived the invalidation |
| PaymentCache.OtherListsUnchanged | src/features/payment.module/paymentTransaction/services/paymentTransaction.service.ts:89-91 | a changed transaction shows only in its own user's list, so one user key suffices |
| PaymentCache.RowsKeepTheirHistory | src/features/payment.module/paymentTransaction/services/paymentTransaction.service.ts:193-222 | on every run a row has the status of its last update, or else the one it was created with, and is deleted if and only if that was asked for |
| PaymentCache.ListIsNewestFirst | src/features/payment.module/paymentTransaction/services/paymentTransaction.service.ts:155-177 | a user's list holds exactly their undeleted transactions, each once, newest first |
| PaymentCache.PaymentTransactionService.SetStatus | src/features/payment.module/paymentTransaction/services/paymentTransaction.service.ts:193-222 | the row found gets the status asked for, the response merged key by key and its first completion time; its user and flag, and every other row, stay |
| PaymentCache.PaymentTransactionService.SoftDelete | src/features/payment.module/paymentTransaction/services/paymentTransaction.service.ts:505-520 | the row found is flagged deleted and nothing else in the table changes |
| PaymentCache.PaymentTransactionService.Find | src/features/payment.module/paymentTransaction/services/paymentTransaction.service.ts:119-140 | the cached row, or the undeleted row queried, which is then cached for 300 s |
| PaymentCache.PaymentTransactionService.FindForUser | src/features/payment.module/paymentTransaction/services/paymentTransaction.service.ts:155-177 | the cached list, or the list queried, which is then cached for 300 s |
| StripeWebhook.AttemptsAreTwiceRuns | src/features/payment.module/stripeWebhook/services/stripeWebhook.service.ts:310-329 | attempts is twice the finished runs; the status is pending before the first, failed if the last one failed and completed otherwise |
| StripeWebhook.OfferedIffOneFailedRun | src/features/payment.module/stripeWebhook/services/stripeWebhook.service.ts:341-348 | an event is offered for retry if and only if it ran once and failed |
| StripeWebhook.OneTxPerCreation | src/features/payment.module/stripeWebhook/services/stripeWebhook.service.ts:155-177 | a session has as many transactions as it had deliveries that did not fail and found nothing on record |
| StripeWebhook.FoundIffRecorded | src/features/payment.module/stripeWebhook/services/stripeWebhook.service.ts:155-157 | the lookup by order id finds a session if and only if another gateway recorded its id in a row that was not deleted since, however many checkouts were handled |
| StripeWebhook.RowCarriesIffRecorded | src/features/payment.module/paymentTransaction/services/paymentTransaction.service.ts:145-150 | which row the lookup may return: one some operation recorded there and none deleted since |
| StripeWebhook.RedeliveryDuplicates | src/features/payment.module/stripeWebhook/services/stripeWebhook.service.ts:155-177 | a further delivery adds a transaction if and only if no undeleted row of another gateway carries the session's id as order id |
| StripeWebhook.StripeWebhookService.ProcessEvent | src/features/payment.module/stripeWebhook/services/stripeWebhook.service.ts:67-132 | one run's effect on the event row and the transactions |
| StripeWebhook.StripeWebhookService.HandleCheckoutSessionCompleted | src/features/payment.module/stripeWebhook/services/stripeWebhook.service.ts:137-187 | found, created or failed, with the status updates around it |
| SubscriptionPlans.OfferedIsLastCreated | src/features/subscription.module/subscriptionPlan/services/subscriptionPlan.service.ts:123-234 | the plan on offer for a type is exactly its last create's, unless Stripe failed that create or the plan was deleted |
| SubscriptionPlans.AtMostOneActive | src/features/subscription.module/subscriptionPlan/services/subscriptionPlan.service.ts:123-309 | at most one active undeleted plan per type |
| SubscriptionPlans.SubscriptionPlanService.DeactivateExisting | src/features/subscription.module/subscriptionPlan/services/subscriptionPlan.service.ts:124-134 | the loop deactivates exactly the active plans of the type |
| SubscriptionPlans.SubscriptionPlanService.CreateSubscriptionPlan | src/features/subscription.module/subscriptionPlan/services/subscriptionPlan.service.ts:105-257 | the new plan has the channel asked for, or RevenueCat for individual and Stripe for business plans; exactly the active undeleted plans of its type lose their flag; a Stripe failure leaves only that |
| SubscriptionPlans.SubscriptionPlanService.DeleteSubscriptionPlan | src/features/subscription.module/subscriptionPlan/services/subscriptionPlan.service.ts:295-309 | the plan is flagged deleted and inactive and no other plan changes |

## Left out

- RateLimiter.RealTimeBound: requests let through because Redis gave no answer are not counted as admitted.
- UnreadCounter.DriftLaw: each service call is one step; a getUnreadCount whose set lands after another call's INCR is not modelled.
- Presence.EntriesAreYoung: the cleanup job runs as one step every five minutes, as its interval asks; a late timer or a sweep interleaved with reconnects is not modelled.
- TokenRotation.OnlyNewestIsLive: Redis is up; a blacklist entry that could not be written leaves its token usable.
- TokenRotation.NoTokenExchangedTwice: refresh calls are atomic; two overlapping refreshes of one token both read the blacklist before either writes it.
- TokenRotation.AuthService.RefreshToken: the signature check is an input that tells whether the token was issued here; password comparison and OAuth are not modelled.
- Otp.SucceedsIff: verify calls on one code are atomic.
- Conversations.ConversationService.AddParticipantsToConversation: a row's role and cached user name are not part of the model.
- RevenueCat.RevenueCatWebhookService.ProcessEvent: start dates, platform and environment, which no handler reads, are not part of a row here.
- Conversations.UnambiguousIffNeverReadds: requests are sequential; two overlapping createConversation calls for one pair both look before either creates.
- RevenueCat.OnePerOrder: events are sequential; two overlapping purchases of one order both run the lookup (line 105) before either creates (line 120).
- SubscriptionPlans.AtMostOneActive: creates are sequential; two overlapping creates of one type both deactivate before either inserts.
- PaymentCache.CachesAreTransparent: calls do not overlap; the user name and mail that the populated documents also hold are not part of a transaction here.
- StripeWebhook.AttemptsAreTwiceRuns: runs of one event do not overlap, and neither logging the event nor its status updates fail; a create is never refused as a duplicate, as prisma/schema/payment.module/paymentTransaction.prisma:55,70 declares transactionId optional and only indexed.
- SettingsPages.OffsetPagesCoverExactly: a negative page number, which the generic service passes on to the database, is not modelled; both services agree on pages from one on.
- MessageCursor.ForwardVisitsAll: the conversation does not change during the walk and creation times are distinct, as the cursor comparison needs.
- The earnings overview: its calendar arithmetic in local time is a separate concern from the caches.
- Updating a subscription plan in place: it may reactivate any plan, so it keeps no invariant of its own.
- Message sending, socket emission, queues, mail, push notifications and file storage: no state of their own.
- Guards for roles, webhook signatures and OAuth token checks: thin or mocked in the source.
- Crashes between two commands of one handler, except where the handlers are modelled command by command.
