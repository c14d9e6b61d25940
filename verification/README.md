# Online auction server: a verified model

This project models the money and auction logic of the server and proves what it keeps. It has three
layers.

1. **The sequential server.** `Store` is the contents of the data directory. Each modelled handler and the
   timer is an `Event`, and `Step` runs one handler without interruption. `Server.DataFiles` holds the same
   tables as mutable fields; its methods follow the C handlers statement by statement, loops included, and
   each is proved to do exactly what its event function says. `Replies` states for every request, on the tables
   alone, which code it is answered with and what it leaves. The results about runs (`Exec`) start from the
   seeded data directory `SEED` or from any store that satisfies the invariants.
2. **Interleaved bids.** `Protocol` cuts `handle_place_bid` into eighteen program points, each one file
   access, lock operation or semaphore operation, for any number of threads, with semaphores indexed by
   `(id - 1) % 1024` and wallet locks by `uid % 64`. Deposits, new auctions, closes and disputes run as atomic
   events between any two steps, unless a close meets a copy of its auction's record or a refund undercuts a
   bid. The main result says that every execution is linearizable to the atomic bids of layer 1: each bid has
   the reply and the effect it has in one sequential order, and that order respects real time. `Races`,
   `Undercutting`, `BidIds` and `TwoBids` say exactly what happens where those conditions fail.
3. **What stands around it.** The circular work queue and its condition variable, the session table and the
   notification registry, the last-admin guard, and the fixed-size record files on bytes.

Files: `sums`, `records`, `recordfile`, `wallet`, `events` (data and operations); `disputes`, `escrow`,
`ledger`, `bidlog`, `refunds`, `guards`, `replies`, `crash`, `prefixes`, `doubleclose`, `timer`, `admins`,
`stage` (sequential results); `server` (the imperative handlers); `protocol`, `exclusion`, `refinement`, `steps`,
`commits`, `environment`, `linearization` (interleaved bids); `schedules`, `races`, `undercut`, `bidids`, `twobids`
(what their conditions are for); `sessions`, `workqueue` (the rest).

## Assumptions

- Amounts are whole paise in unbounded integers, where the server has `double`; the results are about the
  algorithm, not about rounding.
- Ids, counts and times are unbounded, except in `RecordFiles`, where the 32-bit subtraction in the offsets
  is written out.
- File operations succeed, and each access to a data file is atomic under that file's mutex.
- Roles and account statuses are plain integers, because the server stores whatever number a request
  carries. A dispute verdict other than the two decisions is `DisputeOpen`.
- A user has at most one request in flight. A connection serves one request at a time, and
  `Sessions.OneConnectionAlways` says when a user has one connection, `TwoBids.SecondBidUnheldIff` what two bids
  of one user do otherwise. Requests come from users that have a
  record.
- The role gates of the dispatch loop are not needed by any result except where `Permits` is named: runs may
  contain any request by anyone.

## Where the code differs from its comments

The model follows the code.

- `close_auction_internal` says the auction semaphore keeps bids out while it settles
  (server/auction_engine.c:104-105), but neither caller takes it. `Races.CloseUndoneIff` says when that
  matters: a close can be undone exactly when some bid is between its re-read and its write, and then
  (`Races.CloseWithCopyOutIsUndone`) that bid undoes it in every continuation. In the interleaved model a close
  waits for that window to pass, and for nothing else.
- The result of `place_hold` is ignored (server/bid_handler.c:149). `Undercutting.RefundBreaksCheckIff` says
  when a refund takes away what the optimistic check saw, `Undercutting.RefundBetweenCheckAndHold` that the bid
  is then recorded with nothing held, and `Undercutting.UndercutHappens` that requests the server lets through
  lead there. In the interleaved model exactly such refunds wait.
- A resolved dispute pays the leader back even if nothing was sold, takes the start price from the seller of
  an auction nobody bid on, and the debit of the seller can fail (server/dispute.c:183-203). Conservation is
  therefore stated with exact terms, and `Refunds.RefundUndoesCloseIff` says exactly when a refund takes back
  what the close did.
- `is_winning` is set on every bid when it is placed (server/bid_handler.c:164), so the rewrite at settlement
  is idle: `BidLog.MarkingIsIdle`.
- `next_bid_id` and `append_bid` are two steps. A bid's id is its position in the log exactly when nothing is
  appended in between: `BidIds.BidIdIsPositionIff`, `BidIds.BidIdsMayRepeat`.
- Timer and manual close can both read the auction as OPEN before either writes it, and then both settle it
  (server/auction_engine.c:75-86, server/auction_engine.c:205-208). The seller is paid twice; the total is kept
  exactly when the winner could be charged twice: `DoubleClose.SettledTwiceIff`,
  `DoubleClose.DoubleCloseConservesIff`, `DoubleClose.DoubleCloseSoundIff`, `DoubleClose.DoubleCloseMints`.
- The log does not always show how far a handler got (server/auction_engine.c:100-101): it falls behind the
  wallets after each wallet write, and says nothing while the record is closed and the hold still frozen:
  `Prefixes.AuditedIff`, `Prefixes.SoundIff`, and for a settlement write by write `Crash.SettleAuditedIff`.
- The sanity guards of the wallet should never trigger (server/wallet.c:61). They are dead code for everything but
  refunds, and `Guards.GuardsFireIff` says for which refunds they are not; `Guards.HoldGuardFires` is a run in
  which a seller who has bid with the money keeps it.
- The last-admin guard sees only role changes; a toggle by an account with a role number above the
  enumeration gets past it: `Admins.StepKeepsAdminIff`, `Admins.OutOfRangeRoleLocksOut`.
- User names are compared on 32 characters but stored with 31: `Admins.StepKeepsNamesIff`.
- The cleanup of a connection clears one session, that of the last user it remembers, and only while
  authenticated. A second login on a connection whose user has a session, failed or successful, leaves that
  session behind for good: `Sessions.StepStrandsIff`, `Sessions.StrandedForGood`,
  `Sessions.SecondLoginStrandsSession`.
- One session per user does not mean one connection: the cleanup after a logout clears whatever session the
  user has by then (server/server.c:311-320). `Sessions.StepKeepsOwnIff` gives the exact condition,
  `Sessions.LateCleanupEvicts` the runs that break it.
- The repository's README.md says a log entry precedes every wallet change (README.md:55). It precedes each wallet
  call of a sale's settlement and of a refund, and no other: `Prefixes.AnnouncedIff`. Deposits, holds, releases and
  the individual calls are logged afterwards (server/wallet.c:116-122).

## Model

| member | source | states |
|---|---|---|
| RecordFiles.ReadFinds | common/file_io.h:67-83 | Reading at the computed offset finds exactly the record with that id; id 0, ids past the end and a torn last record are all not found |
| RecordFiles.WritePuts | common/file_io.h:49-65 | Writing record `id` in place or as the next one changes that record of the table and no other; written as the next one it replaces a torn tail |
| RecordFiles.WriteLeavesGap | common/file_io.h:123-126 | Writing past the next id leaves all-zero records in between |
| RecordFiles.AppendExtends | common/file_io.h:162-174 | An append adds exactly its record to a whole file; on a torn file the torn bytes shift into it |
| RecordFiles.RecordFile.Read | common/file_io.h:135-148 | The read with a computed offset returns the table entry, or not found |
| RecordFiles.RecordFile.Write | common/file_io.h:120-133 | The write at a computed offset updates one table entry |
| RecordFiles.RecordFile.NextId | common/file_io.h:107-114 | The file length gives one more than the number of records |
| RecordFiles.RecordFile.Append | common/file_io.h:162-174 | The append-only write adds one record to a whole file |
| Wallets.QuietMoves | server/wallet.c:49-81 | When no guard fires, the guarded update is exactly the requested move of one wallet |
| Server.DataFiles.ApplyWalletDelta | server/wallet.c:49-81 | The read, the three guards and the write-back compute the guarded update, and report whether it was accepted |
| Server.DataFiles.PlaceHold | server/wallet.c:93-125 | The authoritative check, the guarded hold, the log line that is written even when the update is refused, and the result |
| Server.DataFiles.ReleaseHold | server/wallet.c:135-148 | The guarded release, its log line and its result |
| Server.DataFiles.SettlePayment | server/wallet.c:162-176 | Balance and hold go down together, the log line and the result |
| Server.DataFiles.CreditWallet | server/wallet.c:186-199 | The guarded credit, its log line and its result |
| Server.DataFiles.HandleDeposit | server/wallet.c:209-228 | A deposit is refused unless positive, otherwise credited |
| Server.DataFiles.HandlePlaceBid | server/bid_handler.c:78-183 | Run without interruption, the handler with its double check and ignored hold result is the atomic bid, reply included |
| Server.DataFiles.HandleCreateAuction | server/auction_engine.c:26-65 | Validation and the new record |
| Server.DataFiles.RewriteBids | server/auction_engine.c:129-146 | The offset loop over bids.dat marks the bids of the winner on this auction and leaves all others |
| Server.DataFiles.CloseAuctionInternal | server/auction_engine.c:109-160 | Status, write-ahead entry, settlement, rewrite, or release, in the order of the code |
| Server.DataFiles.HandleCloseAuction | server/auction_engine.c:72-94 | The manual close with its three refusals |
| Server.DataFiles.CollectExpired | server/auction_engine.c:195-201 | The scan fills the array with the first 64 expired open auctions and nothing else |
| Server.DataFiles.TimerTick | server/auction_engine.c:177-216 | Scan and closing loop together are the tick |
| Server.DataFiles.HandleFileDispute | server/dispute.c:18-72 | Filing on a closed auction only |
| Server.DataFiles.IssueRefund | server/dispute.c:176-203 | Write-ahead entry, credit, and the debit or the anomaly line |
| Server.DataFiles.HandleResolveDispute | server/dispute.c:134-224 | Deciding an open dispute, with every refusal |
| Server.DataFiles.HandleToggleAccount | server/dispute.c:271-296 | The rank check and the new status |
| Server.DataFiles.HandleAddUser | server/admin.c:39-90 | The name scan stops exactly when the name is taken; otherwise a new user with an empty wallet |
| Server.DataFiles.CountAdmins | server/admin.c:139-152 | The counting loop counts the active admins that are not deleted |
| Server.DataFiles.HandleChangeRole | server/admin.c:125-172 | The last-admin guard and the role change |
| Server.DataFiles.HandleDeleteUser | server/admin.c:189-212 | The soft delete, never of an admin |
| Server.DataFiles.constructor | seed_admin.c:34-59 | The seeded directory: one active admin with an empty wallet |
| Escrow.BidReply | server/bid_handler.c:82-134 | A bid is accepted exactly when the auction exists and is open, the bidder exists and has the amount available, and it beats the current bid; a refused one changes nothing |
| Escrow.BidStep | server/bid_handler.c:143-177 | On a sound store an acceptable bid swaps the holds, raises the record, appends the bid and writes the log, and no guard interferes |
| Escrow.CloseOutcome | server/auction_engine.c:72-94 | A close that is not due changes nothing; any other is the settlement and one log line |
| Escrow.CloseEffect | server/auction_engine.c:109-160 | A close pays the seller from the leader's hold when somebody bid and the reserve is zero or at most the bid, and only releases the hold otherwise |
| Escrow.StepKeepsSound | server/wallet.c:49-81 | Every handler keeps: each hold is the sum of the current bids of the open auctions its user leads, and is covered by the balance |
| Escrow.RunKeepsSound | server/wallet.c:49-81 | The same over every run |
| Escrow.EscrowHolds | server/bid_handler.c:136-149 | In every reachable store each hold is exactly the escrow of the open auctions the user leads, and 0 <= hold <= balance |
| Escrow.RefusalChangesNothing | server/dispute.c:137-165 | In every reachable store a request with an error reply leaves all tables and the log as they were; no deposit is refused after it was logged, and no dispute is decided before its auction is found missing |
| Ledger.GuardsAreDead | server/wallet.c:61-75 | In every reachable store, every wallet call of a bid, a manual close or a timer close passes all guards without a clamp, and an accepted bid places its hold |
| Ledger.StepBooked | server/auction_engine.c:102-103 | One event changes the sum of all balances by exactly what it is accountable for: deposits, and refund credits less refund debits |
| Ledger.Conservation | server/auction_engine.c:102-103 | Over every run the sum of all balances is the deposits plus what refunds credited less what they debited; bids, closes and ticks create and lose nothing |
| Ledger.RefundConservesIff | server/dispute.c:183-203 | A resolved dispute keeps the total exactly when it has a leader to credit and a seller who covers it, or neither |
| Ledger.StepKeepsAudited | server/wallet.c:116-124 | Every handler keeps: replaying the wallet entries of the log through the guards gives each user's wallet |
| Ledger.LogRebuildsWallets | server/wallet.c:116-124 | After any run the log rebuilds every balance and hold from zero, refused calls that were logged included |
| BidLog.MarkingIsIdle | server/auction_engine.c:129-146 | As every bid is marked when placed, the rewrite at settlement changes nothing |
| BidLog.StepKeepsLogged | server/bid_handler.c:151-166 | Every handler keeps each auction record the summary of its logged bids, and bid ids dense |
| BidLog.RecordFoldsLog | server/bid_handler.c:151-166 | In every reachable store the logged bids on an auction climb from above the start price, `bid_count` is their number, and current bid and leader are those of the last, or start price and 0 |
| BidLog.RunFrozen | server/auction_engine.c:110-111 | Once an auction left OPEN, no run changes its record but for the status, adds a bid, or opens it again |
| Disputes.StepKeepsReviewed | server/dispute.c:33-60 | Every handler keeps: an auction is DISPUTED exactly while one dispute about it is open or resolved, and it has as many refunds as resolved disputes |
| Disputes.DisputeSafety | server/dispute.c:148-158 | Over every run: at most one refund and one open dispute per auction; an open dispute marks its auction DISPUTED, and a resolved one leaves it so with nothing open about it |
| Disputes.DecisionIsFinal | server/dispute.c:148-151 | A decided dispute record is never written again |
| Disputes.RejectedMayBeRefiled | server/dispute.c:209-215 | Filing and rejecting leaves auctions, wallets and refunds as they were, so it can repeat |
| Refunds.RefundUndoesCloseIff | server/dispute.c:167-203 | After any close, by hand or by the timer, sold or not, and any events that follow, a resolved dispute moves every balance back by exactly what the close moved and touches no hold, if and only if: of a sale, the seller's available balance covers the amount or seller and winner are the same; of an unsold auction with bids, leader and seller are the same; of one without bids, the seller does not cover the start price |
| Refunds.RefundInvertsSale | server/dispute.c:167-203 | Of a sale: the refund inverts it if and only if the seller covers it |
| Refunds.UnsoldRefundIdleIff | server/dispute.c:167-203 | Of an auction that sold nothing: the refund leaves every wallet alone if and only if leader and seller are the same, or there is no leader and the seller does not cover the start price |
| Refunds.NoBidRefundBurnsMoney | server/dispute.c:183-203 | A resolved dispute about an auction nobody bid on takes exactly the start price out of the system when its seller covers it |
| Refunds.UnsoldRefundMintsMoney | server/dispute.c:183-203 | A run from the seed with an unmet reserve in which the refund credits the leader with money nobody paid |
| Guards.GuardsFireIff | server/wallet.c:61-75 | In every reachable store, the wallet calls of any event pass all guards unless it is a refund without a leader to credit, or one that debits a seller whose balance covers the amount only with money on hold |
| Guards.HoldGuardFiresIff | server/dispute.c:192-197 | The seller's debit is asked for, logged and refused exactly when the seller is not the leader, the balance covers the amount, and what is not on hold does not |
| Guards.HoldGuardFires | server/dispute.c:192-197 | A run from the seed, every request let through by the role gates, leads there: the winner is paid and the seller is not charged |
| Replies.AddUserReply | server/admin.c:39-90 | Refused with 99 exactly when an account in use has the first 32 characters as its name; otherwise one new active record with the next id, the requested role, the first 31 characters and an empty wallet |
| Replies.ChangeRoleReply | server/admin.c:125-172 | 4 for an unknown account, 3 for the demotion of an admin while no two active admins exist, otherwise 0 and that record has the requested role, nothing else changed |
| Replies.ToggleReply | server/dispute.c:271-296 | 4 for an unknown account, 3 for one whose role is not below the actor's, otherwise 0 and that record has the requested status, nothing else changed |
| Replies.DeleteReply | server/admin.c:189-212 | 4 for an unknown account, 3 for an admin, otherwise 0 and the record stays, marked deleted and inactive |
| Replies.RoleGates | server/server.c:180-295 | Which role numbers get past the dispatch loop with which request |
| Replies.DeltaOutcome | server/wallet.c:49-81 | The guarded update refuses an unknown user, a negative balance and a hold above the balance, turns a negative hold into zero, and otherwise moves exactly one wallet |
| Replies.PlaceHoldOutcome | server/wallet.c:93-125 | A hold is placed and logged exactly when the user has the amount free |
| Replies.DepositReply | server/wallet.c:209-228 | Refused with 99 exactly when not positive; otherwise one balance grows by the amount |
| Replies.CreateReply | server/auction_engine.c:26-65 | Refused with 99 exactly when the start price is not positive or the duration is below ten; otherwise one open record as requested, at the start price, without bids, ending after the whole duration |
| Replies.BidReplies | server/bid_handler.c:78-134 | Each refusal of a bid, 4, 7, 6 and 5, under exactly its condition, in that order |
| Replies.BidEffects | server/bid_handler.c:143-177 | An accepted bid, wallet by wallet and field by field |
| Replies.CloseReply | server/auction_engine.c:72-87 | Each refusal of a manual close, 4, 3 and 7, under exactly its condition, in that order |
| Replies.NotShut | server/auction_engine.c:203-212 | A close that does not go through, by hand or by the timer, changes nothing |
| Replies.SaleIff | server/auction_engine.c:109-160 | A close that goes through frees the leader's hold; it moves the current bid from leader to seller, and logs the settlement, if and only if there is a leader and the reserve is zero or at most the current bid; otherwise no balance moves |
| Replies.SaleMarks | server/auction_engine.c:129-146 | Of a sale the winner's bids on this auction are marked, and no other bid changes |
| Replies.FileReply | server/dispute.c:18-72 | 4 for an unknown auction, 7 for one that is not closed, otherwise one open dispute by this user, and the auction is marked |
| Replies.ResolveReply | server/dispute.c:134-165 | 4 for an unknown dispute, 99 for a verdict that is no decision and for a decided dispute, 0 exactly for a decision on an open one |
| Replies.RejectEffects | server/dispute.c:205-211 | A rejection decides the dispute, restores the auction to CLOSED, and moves no money |
| Replies.RefundEffects | server/dispute.c:167-203 | A RESOLVED verdict, wallet by wallet: the leader is credited, the seller debited when able, and the log says which was asked for |
| Crash.SettleIsItsWrites | server/auction_engine.c:109-146 | Step by step, a settlement is exactly these writes: the record, the write-ahead entry, the winner's wallet, its log line, the seller's wallet, its log line, and then each bid of the winner in file order; a refused update and a bid that does not match write nothing |
| Crash.SettleEnds | server/auction_engine.c:109-146 | After the last of them the directory is what the handler leaves |
| Crash.RefundIsItsWrites | server/dispute.c:176-203 | Step by step, a refund is exactly these writes: the write-ahead entry, the winner's wallet, its log line, and the seller's wallet and log line or the anomaly line |
| Crash.RefundEnds | server/dispute.c:176-203 | After the last of them the directory is what the handler leaves |
| Crash.SettleCrashSafe | server/auction_engine.c:117-127 | After any prefix of a settlement's writes the total is unchanged, or short by exactly the sale amount between the two wallet writes; no wallet moved unless the write-ahead entry is the first new line of the log |
| Crash.RefundCrashSafe | server/dispute.c:176-203 | After any prefix of a refund's writes the total is more by what is credited from the second write on, and less by what is debited from the fourth on; no wallet moved unless the write-ahead entry is the first new line of the log |
| Crash.SettleSoundIff | server/auction_engine.c:99-101 | A settlement cut short leaves holds that are not the escrow exactly after one or two writes: the record says CLOSED and the leader's hold is still frozen |
| Crash.SettleAuditedIff | server/auction_engine.c:99-101 | The log replays to the wallets after any prefix but three and five writes, where it looks as it did before the wallet moved; after one write it has no trace of the settlement |
| Prefixes.PrefixIsItsWrites | server/wallet.c:93-199 | A deposit, an accepted bid, a due close and a refund, step by step, are exactly the listed disk writes of their handlers |
| Prefixes.PrefixEnds | server/bid_handler.c:136-177 | They lead from the store before the handler to the store after it |
| Prefixes.WritesAreCalls | server/wallet.c:49-81 | The user table changes at a write exactly by the wallet call that the write carries out |
| Prefixes.AnnouncedIff | server/auction_engine.c:99-121 | A line that tells of a wallet call stands in the log before the call is made if and only if the handler settles a sale or refunds |
| Prefixes.AuditedIff | server/auction_engine.c:99-101 | Of every handler that moves money, cut short anywhere, the log tells every wallet exactly unless the last write changed a wallet |
| Prefixes.SoundIff | server/bid_handler.c:136-155 | Cut short anywhere, the holds are the escrow except in a bid between its first wallet write and its record, and in a close between its record and the leader's wallet write |
| DoubleClose.AloneIsAtomic | server/auction_engine.c:203-212 | A closer whose read and settlement have nothing in between is the atomic close |
| DoubleClose.SettledTwiceIff | server/auction_engine.c:75-86 | Of the six orders of two closers, the two in which one settles before the other reads settle the auction once, the other four twice |
| DoubleClose.DoubleCloseConservesIff | server/auction_engine.c:102-103 | After two settlements the total is more by the price exactly when the auction sells, leader and seller differ, and the winner's balance is below twice the price; otherwise it is kept |
| DoubleClose.DoubleCloseCharges | server/auction_engine.c:120-121 | The seller is paid twice, and the winner charged twice if the balance allows it |
| DoubleClose.DoubleCloseSoundIff | server/wallet.c:61-75 | The holds are still the escrow exactly when there is no leader, the leader leads nothing else, or the second charge is refused |
| DoubleClose.DoubleCloseMints | server/auction_engine.c:205-208 | A run from the seed, every request let through by the role gates, leads to an auction whose double settlement makes up its price |
| Timer.ExpiredIdsExact | server/auction_engine.c:195-201 | The scan without a bound lists exactly the open auctions whose time is up, in increasing order |
| Timer.TickClosesBatch | server/auction_engine.c:195-215 | One tick closes exactly min(64, n) of the n expired open auctions, lowest ids first, and leaves every other auction alone |
| Timer.TickClosesIff | server/auction_engine.c:195-212 | One tick closes an auction if and only if it is open, its end time is not after now, and fewer than 64 such auctions come before it; every other record stays |
| Timer.NoAuctionStarves | server/auction_engine.c:181-212 | Whatever requests run between the ticks and inside their closing loops: an auction that has run out is not open any more after one tick for each 64 auctions that were open up to its id, and so after n / 64 of them for auction number n |
| Timer.RoundsClose | server/auction_engine.c:181-212 | As long as such an auction stays open, each round closes 64 before it, and no auction ever opens again |
| Timer.TickIsRound | server/auction_engine.c:177-216 | Scan and closing loop with nothing in between are one of those rounds |
| Timer.TicksDrain | server/auction_engine.c:181-212 | The bound is sharp: after k ticks at any instants with nothing in between and no new expiries, exactly the first 64k expired auctions are closed and the others are as they were |
| Timer.BacklogEmpties | server/auction_engine.c:181-212 | After k such ticks a backlog of n is empty exactly when n <= 64k |
| Timer.NewAuctionRuns | server/auction_engine.c:29-45 | A new auction is open and expired exactly when its whole duration has passed, so never in its first ten seconds |
| Admins.CountedAdminExists | server/admin.c:139-152 | The count is positive exactly when an active admin exists |
| Admins.StepKeepsAdminIff | server/admin.c:138-158 | From a store with an active admin, an event leaves one exactly when it is not a toggle of the only active admin by a role number above the enumeration |
| Admins.AdminAlwaysExists | server/admin.c:138-158 | As long as requested roles stay in the enumeration and actors act with a role some record held, no run loses the last active admin |
| Admins.OutOfRangeRoleLocksOut | server/dispute.c:280-286 | With a role number outside the enumeration a run of two requests leaves no active admin |
| Admins.TogetherAtomic | server/admin.c:125-172 | With nothing in between, reading and writing back are the role change as one step |
| Admins.RoleStepKeepsAdminIff | server/admin.c:138-162 | Cut between count and write, a step leaves an active admin exactly when it is not the write of a demotion that the guard, asked again at that time, would refuse |
| Admins.RacingDemotions | server/admin.c:138-162 | Two demotions of the two active admins, each counting before either writes, both pass the guard and leave none |
| Admins.StepKeepsNamesIff | server/admin.c:42-67 | An event keeps the names of accounts in use apart exactly when it does not add a name that fills the field and is taken once clipped |
| Admins.NamesStayUnique | server/admin.c:42-67 | Over every run with shorter names, no two accounts in use share one |
| Exclusion.SharedLocks | server/bid_handler.c:54-55 | Auctions share a semaphore exactly when their ids differ by a multiple of 1024, users a wallet lock when theirs differ by a multiple of 64 |
| Exclusion.OneInCritical | server/bid_handler.c:105-113 | Two threads are never both in the critical section of auctions that share a semaphore |
| Exclusion.NextKeepsExclusive | server/bid_handler.c:112-168 | Every action keeps: a semaphore is taken exactly by the thread inside its critical section, a wallet bucket exactly by the thread inside its wallet section |
| Exclusion.SomeoneCanMove | server/wallet.c:93-148 | With a bid in flight some thread is enabled: locks are taken in the order semaphore, then bucket |
| Exclusion.NeverDeadlocked | server/bid_handler.c:112-168 | No execution reaches a state in which a bid is in flight and no thread can move |
| Exclusion.BidsTerminate | server/bid_handler.c:78-183 | In every execution, whatever runs in between, bid threads move at most as often as there is work left plus seventeen times for each bid that begins |
| Exclusion.BidsFinish | server/bid_handler.c:117-168 | From every state all bids can finish, and then every semaphore is posted and every lock is free |
| Refinement.StoredSolvent | server/wallet.c:49-81 | In every intermediate state a stored hold is the sequential escrow less what a committed bid has yet to place, and is covered by the balance |
| Steps.SilentKeepsInv | server/bid_handler.c:82-134 | A step that writes nothing keeps the relation between the running system and the sequential order |
| Commits.CommitReady | server/bid_handler.c:146-149 | At its first wallet write a thread's bid would be accepted by the atomic handler in the sequential store |
| Commits.ReleaseWrites | server/bid_handler.c:146-148 | The interleaved release of the previous leader's hold passes the guards and moves that wallet by exactly the old bid |
| Commits.HoldWrites | server/bid_handler.c:149 | The interleaved hold passes the guards and moves the bidder's wallet by exactly the amount |
| Commits.OthersKeepWallets | server/wallet.c:93-148 | No other thread's wallet write changes the copy a lock holder works on or lowers what a bidder in flight has available |
| Commits.ThreadStepKeepsInv | server/bid_handler.c:78-168 | Every step of a bid keeps the relation, extending the sequential order by at most that bid |
| Environment.ConsiderateHarmless | server/bid_handler.c:92-103 | A deposit, close or refund under the stated conditions changes nothing a thread in flight relies on: what it could afford it still can, and its copies stand |
| Environment.NextKeepsInv | server/auction_engine.c:109-160 | A new request or an atomic event between any two steps keeps the relation, unless it closes an auction whose record some bid holds a copy of, or refunds from a wallet so that a bid that relies on it can no longer be afforded |
| Linearization.ExecutionKeepsInv | server/bid_handler.c:78-168 | Every state of every execution has a sequential order, and later orders extend earlier ones |
| Linearization.InterleavedBidsAreAtomic | server/bid_handler.c:78-168 | Once no bid is in flight, there is a sequential order of atomic handlers that holds every bid exactly once, rejected ones included, and the other events as they happened; it ends in the stored wallets, auctions, disputes and per-auction bid lists, gives every bid the reply it got, and can be cut at every moment of the run between what was over and what had not begun |
| Linearization.HoldNeverFails | server/bid_handler.c:146-149 | In every state of every permitted execution the optimistic check is still valid when the hold is placed, so `place_hold`, whose result is ignored, succeeds with exactly its move |
| Linearization.CopyIsCurrent | server/bid_handler.c:115-155 | From re-read to write a semaphore holder's local copy is the stored record, even when other auctions share the semaphore |
| Linearization.HoldsInTransit | server/bid_handler.c:143-155 | In every reachable intermediate state each hold is the escrow of the stored auctions, less holds released and plus holds placed by threads that have yet to write their auction, and 0 <= hold <= balance |
| Races.ClosedStays | server/bid_handler.c:151-155 | While closes wait for copies, no execution opens an auction again that is not open |
| Races.CloseUndoneIff | server/auction_engine.c:72-87 | In every reachable state, a due close that respects the wallet locks can be undone by some continuation if and only if some bid holds a copy of the auction's record, between its re-read and its write |
| Races.CloseWithCopyOutIsUndone | server/bid_handler.c:151-155 | And then in every continuation the bid either still holds its copy or has written it, and after that step the auction is open |
| Races.CloseInCriticalSectionReopens | server/auction_engine.c:72-87 | Every acceptable bid has an execution that leads there |
| Undercutting.RefundBreaksCheckIff | server/dispute.c:192-197 | In every reachable state, a refund breaks the optimistic check of a bid between check and hold if and only if the bidder is the debited seller, is not the credited leader, the debit goes through, and what is left is below the amount |
| Undercutting.RefundBetweenCheckAndHold | server/bid_handler.c:146-155 | For every acceptable bid and every refund there is an execution in which the refund runs between check and hold; the bid is accepted and recorded in any case, and its hold is placed if and only if what the refund left, with what a leader gets back, covers the amount |
| Undercutting.UndercutBidIsRecorded | server/bid_handler.c:146-155 | In particular, of a user who does not lead the auction already, every undercut bid is recorded with nothing held for it |
| Undercutting.LateRefusalUnexplained | server/bid_handler.c:87-103 | If the auction closes between peek and check and the refund comes after that, the bid is refused for lack of money, a reply the atomic bid gives at no place among the two events |
| Undercutting.UndercutHappens | server/dispute.c:167-203 | A run from the seed, each of its requests made by an active account whose role at that time passes the gate, leads to such a bid and such a refund, which pass their gates too |
| BidIds.BidIdIsPositionIff | server/bid_handler.c:158-166 | A bid's id is its position in the log if and only if nothing was appended between taking the id and appending |
| BidIds.BidIdsMayRepeat | common/file_io.h:162-182 | Any two acceptable bids of different users on auctions with different semaphores have an execution in which they get the same id |
| TwoBids.SecondBidUnheldIff | server/bid_handler.c:92-155 | For every two acceptable bids of one user, the execution in which both pass the check before either takes its hold: both are accepted and recorded, the second hold is placed if and only if what the first left, with what the second auction gives back, covers it, and one after the other the second would have been refused |
| Sessions.RegistryHasRoom | server/notify.c:69-83 | In every agreeing state the registry has a free entry |
| Sessions.LoginAcceptedIff | server/auth.c:87-113 | With good credentials a login is accepted if and only if its user has no session and fewer than 64 users have one; then it adds exactly that session and registration, otherwise nothing, and the connection is authenticated accordingly |
| Sessions.LoginCodes | server/auth.c:89-102 | Code 2 for a user who has a session, 99 when all 64 places are taken, 0 otherwise |
| Sessions.BadCredentials | server/server.c:196-198 | Bad credentials change neither table and leave the connection unauthenticated |
| Sessions.ConnectStarts | server/server.c:160-175 | A new positive descriptor is served, with nobody logged in; anything else changes nothing |
| Sessions.LeavingEnds | server/server.c:311-324 | A logout, and the cleanup of an authenticated connection, end exactly the session and the registration of the user the connection remembers |
| Sessions.StartsEmpty | server/notify.c:53-61 | At start there are 128 empty places in the registry and no sessions |
| Sessions.LoginAgrees | server/auth.c:87-113 | A login keeps one session per user in at most 64 slots, and the registry in agreement |
| Sessions.LeaveAgrees | server/auth.c:135-145 | Logout and cleanup keep the agreement and leave the user without a session |
| Sessions.AlwaysAgrees | server/auth.c:87-145 | Over all runs of connects, logins, re-logins, logouts and disconnects: at most 64 slots, one session per user, and a registry that lists the same users with the same descriptors |
| Sessions.DisconnectFreesIff | server/server.c:311-320 | A disconnect leaves a user without a session exactly when there was none or the connection is authenticated and this is the user it remembers; earlier users of the connection keep theirs |
| Sessions.StepStrandsIff | server/server.c:196-198 | If every session belongs to a connection that serves its user, one event keeps it so exactly when it is not a second login, failed or successful, on a connection whose user has a session there |
| Sessions.NobodyStranded | server/server.c:311-320 | Over every run without such a login each session belongs to a connection that serves its user, and none is left when all connections are gone |
| Sessions.StrandedForGood | server/auth.c:89-94 | A session whose user no connection remembers is never cleared by any run, and every login of its user is refused |
| Sessions.SecondLoginStrandsSession | server/server.c:196-198 | From every agreeing state in which serving connections own their sessions and no other connection remembers the user, a second login with any outcome and a disconnect strand the session of the first user |
| Sessions.SwitchingUsersStrands | server/server.c:196-198 | From a fresh start: log in, log in as somebody else, disconnect, and the first session is stranded |
| Sessions.FailedReloginStrandsSession | server/server.c:196-198 | The failed one in particular: the session stays behind and the user's next login is refused |
| Sessions.StepKeepsOwnIff | server/server.c:311-320 | If every connection that serves a user owns that user's session, one event keeps it so exactly when it is not the cleanup of a logged-out connection whose user is served elsewhere |
| Sessions.OneConnectionAlways | server/auth.c:87-113 | Over every run without such a cleanup no two connections take requests for the same user |
| Sessions.LateCleanupEvicts | server/server.c:200-203 | From every agreeing state in which serving connections own their sessions, a logout, a login elsewhere and the late cleanup of the first connection leave room for a second connection that serves the same user |
| Sessions.FirstWhere | common/file_io.h:201-221 | The search returns the first matching entry, or none when there is none |
| Sessions.Tables.FindSessionSlot | common/file_io.h:201-221 | The scan finds the first active slot of the user |
| Sessions.Tables.FindFreeSlot | common/file_io.h:223-244 | The bounded scan finds the first cleared slot below 64, or the end of a file with fewer than 64 slots, and fails exactly when the first 64 slots are all active |
| Sessions.Tables.NotifyRegister | server/notify.c:69-83 | The loop fills the first free entry of the array and no other |
| Sessions.Tables.NotifyUnregister | server/notify.c:91-103 | The loop clears the user's first active entry and no other |
| Sessions.Tables.Lookup | server/notify.c:111-117 | The loop returns the user's descriptor, or -1 |
| Sessions.Tables.OpenSession | server/auth.c:87-113 | Check, slot, session and registration |
| Sessions.Tables.CloseSession | server/auth.c:135-145 | Clearing the session slot and the registry entry |
| WorkQueue.Queue.Enqueue | server/server.c:54-73 | Refuses exactly when 64 descriptors wait, otherwise appends; `rear` stays `(front + count) % 64` |
| WorkQueue.Queue.Dequeue | server/server.c:80-89 | Takes the oldest descriptor and leaves the rest in order |
| WorkQueue.Queue.constructor | server/server.c:350-355 | An empty queue |
| WorkQueue.StepSane | server/server.c:54-89 | Every move keeps: if some worker sleeps, the workers awake inside dequeue number at least the queue, and what was accepted is what was taken followed by what waits |
| WorkQueue.ArriveQueuesIff | server/server.c:54-73 | In the pool a connection is queued, last, exactly when fewer than 64 wait, and dropped otherwise |
| WorkQueue.NoJobStranded | server/server.c:54-89 | Over every interleaving, spurious wake-ups included: descriptors leave once and in order, and while a job waits and a worker sleeps, another worker can take it |

## Left out

- `handle_change_password` writes back the whole cached user record (server/auth.c:163-178), wallet and role included; no result covers runs with that step.
- Listing and viewing handlers, feedback, notification delivery, message framing, `handle_modify_user`: filters and payloads that add only easy members.
- Item names, descriptions, full names, passwords, reasons, resolutions, start and last-login times: fields no modelled decision reads.
- Sockets, the accept loop, thread creation, signal handling, password hashing, `fcntl` locks: environment.
- Failing or short file operations, except that `RecordFiles` says what a torn file reads as.
- Restart with a persisted session file and an empty registry: the session results are for runs from a fresh start.
- Linearization.InterleavedBidsAreAtomic: closes and refunds are atomic events, which wait while a copy of the auction's record is out or a bid would be undercut (`Races.CloseUndoneIff`, `Undercutting.RefundBreaksCheckIff` and `Undercutting.LateRefusalUnexplained` say why); all events respect the wallet locks. Bid ids are not compared, because they can repeat (`BidIds.BidIdsMayRepeat`), and neither is the order of the transaction log, because threads may log in another order than they take effect.
- Linearization.HoldNeverFails: under the same conditions on the rest of the server.
- Toggle, role change and new users write whole records outside the wallet lock; they are events of the sequential model only. Login writes the record too, for its last-login time, and is an event of the session model only.
- Timer and manual close are atomic events of the interleaved model; cut into read and settlement they are a model of their own, `DoubleClose`, in which only closers run.
- Prefixes.PrefixIsItsWrites: a wallet update is one write, and the writes of `auctions.dat` and `bids.dat` are whole records.
- Admins.AdminAlwaysExists: a role change counts and writes in one step; `Admins.RoleStepKeepsAdminIff` says when it matters that it does not.
- The log lines of the wallet calls are not steps of the interleaved model.
- Exclusion.BidsFinish: says that finishing is possible from every state, and `BidsTerminate` bounds every schedule of bid steps; fairness towards one thread that waits for a semaphore is not stated.
- Sessions: login is one step, although it registers after `auth_lock` is released, and the cleanup of a connection takes no lock.
- WorkQueue.Queue.Dequeue: takes from a queue that is not empty; the wait for one is the `Check` move of the pool.
- WorkQueue.NoJobStranded: the buffer is the abstract queue that `Queue` refines, and serving a client is one state.
- The lazy initialisation of semaphores and wallet locks is part of taking them.
