# Verification of the chain and pool core

A Dafny model of the bookkeeping at the heart of this Quorum/HotStuff fork of go-ethereum, with
proofs that its redundant structures agree. It covers:

- the transaction pool: pending and queued lists, lookup, price heap and virtual nonces
  (`TxPool.dfy` on top of `PoolSteps`, `AccountRules`, `HeadReset`, `HeadWalk`, `Fairness`, `PoolLists`,
  `TxLookup`, `TxPricedList`, `TxNoncer`), the list classes it is built from (`TxList`, `SortedMap`,
  `BinaryHeap`), and the scheduler of its reorganisations (`ReorgScheduler`);
- the canonical chain: header import, rewind and ancestor lookup (`HeaderChain`) and block
  adoption and reorganisation (`BlockChain`), over headers linked by hash (`Headers`);
- the section indexer (`ChainIndexer`), the event feed (`Feed`), gas and value accounting with
  private transactions (`GasAccounting`, `Ledger`), and derivation paths (`DerivationPath`).

State that the source updates in place is a class here, loops are loops, and every method is
proved against a specification. Some choices of representation:

- A transaction is identified with its hash, and a header with its hash: a header value holds
  its parent, so a hash determines all ancestors. A block body is a function of the header.
- The pool holds its per-account lists as maps from nonce to transaction. The classes `TxList`
  and `SortedMap` are proved to implement the same functions on such maps.
- Nonces are below 2^64 - 1; other integers are unbounded except where the source checks or
  wraps 64 or 32 bits, which is written out.
- What comes from outside is an argument or a free choice: the chain state, the verdicts of
  signature, size, permission and privacy checks, coins, which receivers are ready, which
  account is idle, and the order in which a Go map is ranged over.
- "Gapless" means that an account's pending nonces are exactly those from its state nonce up to
  its virtual nonce, and that nothing is queued below the virtual nonce.

Some expectations do not hold without a condition; an input that breaks them and the exact
condition are proved instead.

- A reset can leave an account with nothing pending and a virtual nonce ahead of its state nonce:
  with gas prices disabled, which is the default, an unpayable transaction of the state nonce is
  promoted and then dropped (`PlainResetSettles`, `StandstillSettles`, `StrandedByReset`;
  `RunReorg` and `Run` state it for the pool).
- When the state nonce falls back and transactions return, a gap can stay pending
  (`ResetSettles`, `FallbackSettles`, `GapAfterFallback`).
- A full pool can stay too full: fullness counts transactions but room is made in slots
  (`MakeRoom`, `TooManySlots`), and a transaction with two heap entries counts twice
  (`CountedTwice`). Without two entries the exact condition is that of `MakeRoom`.
- Importing headers that are already known can leave the canonical index wrong (`WriteHeaders`,
  `RemarksUnlessKnown`, `KnownTieBreaksIndex`).
- Adopting a block lower than the head whose parent is canonical leaves index entries above it
  (`WriteKnownBlock`, `HeavierBlockStrands`).
- The balances of two nodes agree after a private call exactly if the reward account is the
  coinbase or the call cost nothing (`RunTwice`).

The comment on `truncateQueue` speaks of the oldest transactions; the code takes the accounts that
were active last, and so does the model.

To check the proofs: `dafny verify dfyconfig.toml`.

## Model

| member | source | states |
|---|---|---|
| TxPools.TxPool.Run | core/tx_pool.go:333-404 | Over any sequence of additions, price changes, evictions and reorganisations, head resets included, the pending lists, the queues and the lookup agree: an account has no nonce twice, the known transactions are exactly the pending and queued ones, the slot count is their sum, no lookup removal misses, the price heap covers every live remote transaction, its stale counter is never too low, and no remote transaction belongs to a local account. The state is that of the last head adopted. Each operation that adds no abandoned transactions keeps a gapless pool gapless if and only if its reset, if any, finds no account blocked; with gas prices enabled a new head finds none. Each operation also has its effect on what the pool holds: an addition brings nothing but its transactions and, with room, places them as AddTxs says; a price change removes exactly the remote transactions below it and an eviction exactly one queue, and a reorganisation gives every account the share that RunReorg says |
| TxPools.TxPool.RunReorg | core/tx_pool.go:1109-1172 | A run keeps the agreement. From a gapless pool, unless the reset adds abandoned transactions: the pool is gapless afterwards if and only if no account is blocked by a transaction of its state nonce that it cannot pay for; and without a reset no dirty account keeps a transaction queued that could follow its pending ones. Every transaction that is newly pending is reported. Afterwards the pending total is within the limit or every non-local account within its guaranteed slots, the queue is within its limit or only local accounts are queued, and virtual nonces follow the pending lists. The trail shows where each account stood: once abandoned transactions are back as Reset says, once promotion and demotion by the rules of AccountRules are done, and once the limits are enforced; after a reset exactly the promoted transactions are reported |
| TxPools.TxPool.Rearrange | core/tx_pool.go:1112-1145 | The part of a run before truncation: the exact share of every account afterwards, promoted if dirty, or promoted and demoted from its share under the new head, in which abandoned transactions are back in their places; exactly the newly pending transactions are reported; without abandoned transactions a gapless account is then settled or, exactly if it is blocked, stranded |
| TxPools.TxPool.Adopt | core/tx_pool.go:1120-1145 | Adopts the new head, promotes every queued account and demotes: the exact share of every account from its share once abandoned transactions are back. An account whose pending nonces are contiguous is settled if and only if the reset does not break it. The abandoned transactions are back in their places as Reset says, with room for them the virtual nonces are those of the new state, and exactly the promoted ones are reported |
| TxPools.TxPool.Enforce | core/tx_pool.go:1147-1154 | Enforcing the limits makes settled accounts gapless, leaves stranded ones stranded and exhausted queues exhausted |
| TxPools.TxPool.Reset | core/tx_pool.go:1240-1262 | Adopts the state of the new head and starts the virtual nonces over; they stay there if there is room for all abandoned transactions. If there is room for all abandoned transactions, each that is admissible, not below the new state nonce, payable under the new head and priced as configured has its place taken afterwards: a transaction with its sender and nonce is known, and it is the abandoned one itself if it has no rival. The agreement is kept, and everything is left alone when blocks are missing |
| TxPools.ChangeOfHead | core/tx_pool.go:1176-1252 | When the pool can follow a change of head, and exactly which transactions are to be added again |
| HeadWalks.Abandoned | core/tx_pool.go:1180-1238 | Nothing is added again if the new head continues the old one or the heights differ by more than 64; the pool gives up exactly if the old head is missing and the new one is not lower, or the branches do not meet in a stored block |
| HeadWalks.Walk | core/tx_pool.go:1210-1236 | The three loops succeed exactly if the branches meet with all blocks stored, and return what the old branch holds above the last common block and the new one does not, in order |
| HeadWalks.AddedAgain | core/tx_pool.go:1236 | A transaction is returned exactly if some block of the old branch above the fork holds it and none of the new branch does |
| HeadWalks.RootedMeet | core/tx_pool.go:1210-1235 | In a store with one genesis block any two blocks meet, so the walk succeeds |
| TxPools.TxPool.Add | core/tx_pool.go:633-720 | Which check rejects a transaction, in which order and exactly when: known, invalid, underpriced, or outbid. An accepted one takes the place of the known one with its sender and nonce, which it outbids, and nothing else leaves but the dropped ones: remote, of no local account, none dearer than one that stays, and only from a full pool. A rejected one changes nothing, except that drops may precede a failed replacement. If no live transaction has two entries in the price heap: overflow exactly if the remote transactions are too small, and after an accepted one that could fit the slots in use are within the limits. With room, counting every known transaction once, nothing is dropped and a valid transaction is refused only for a rival that it does not outbid; without it and without free slots an accepted one costs some remote transaction its place |
| TxPools.TxPool.Admit | core/tx_pool.go:677-720 | Accepted exactly if it pays more than the known transaction with its sender and nonce and at least the bump in percent, rounded down; that one then leaves and nothing else; the result reports whether there was one |
| TxPools.TxPool.MakeRoom | core/tx_pool.go:651-676 | Rejects as underpriced exactly if the pool is full, the transaction is remote and no live remote is cheaper; otherwise drops a cheapest part of the remotes. If no live transaction has two entries in the price heap: overflow exactly if all remotes together are too small, and the transaction fits afterwards if and only if it did before, or the pool was full and the remotes together are large enough |
| TxPricedLists.CountedTwice | core/tx_list.go:530-551 | A transaction removed and added again while its old entry is in the heap: Discard reports two slots freed but one is |
| TxPools.TooManySlots | core/tx_pool.go:652-664 | A pool of five slots accepts two remote transactions of four slots each, because fullness counts transactions |
| TxPools.TxPool.ReplacePending | core/tx_pool.go:679-701 | Replaces a pending transaction exactly if outbid; keeps the agreement and the gapless run |
| TxPools.TxPool.AddToQueue | core/tx_pool.go:702-706 | Enters the queue or replaces there exactly if outbid; keeps the agreement, and nothing is queued below the virtual nonce |
| TxPools.TxPool.Validate | core/tx_pool.go:545-624 | Passes exactly what is admissible, not below the state nonce, affordable within the gas limit, and priced as the configuration asks |
| TxPools.TxPool.RefusalsMean | core/tx_pool.go:545-624 | Each refusal is given exactly if its own check fails and no earlier one does |
| TxPools.TxPool.AddTxs | core/tx_pool.go:908-920 | Step by step over the whole batch: each result says exactly how the known transactions change at its turn, a transaction is refused as known exactly if it is known by then, and the dirty accounts are exactly those with a transaction in a new place; agreement and gapless accounts are kept. If the pool has room for all slots of the batch, every transaction that passes the checks has its place taken afterwards, by itself if it has no rival in the pool or in the batch, and nothing known loses its place except to a rival |
| TxPools.BatchPlaces | core/tx_pool.go:908-920 | Over any batch for which there is room step by step: every passing transaction ends in its place, rivals included, and what was known keeps its place |
| TxPools.RoomyBySlots | core/tx_pool.go:651-664 | A pool with slots for all of a batch, each of its transactions using at least one, has room at every step of it |
| TxPools.TxPool.SetGasPrice | core/tx_pool.go:438-454 | Exactly the live remote transactions below the new price leave the pool, and none of a local account |
| TxPools.TxPool.Expel | core/tx_pool.go:670-675 | Removing transactions already taken out of the price list restores all invariants, repeated entries included |
| TxPools.TxPool.EnqueueTx | core/tx_pool.go:725-760 | Inserts exactly if the list accepts; exact new queue and lookup; an unexpected missing transaction is the only error |
| TxPools.TxPool.PromoteTx | core/tx_pool.go:778-808 | Inserts exactly if the list accepts; the loser leaves the lookup; exact new pending lists and virtual nonces |
| TxPools.TxPool.RemoveTx | core/tx_pool.go:958-1004 | A pending transaction leaves with all after it, which go to the queue, and the virtual nonce falls back to it; a queued one just leaves; an unknown one changes nothing; agreement and gapless accounts are kept |
| PoolSteps.RemovalAgrees | core/tx_pool.go:958-1004 | Moving the transactions after a removed one to the queue keeps lists and lookup in agreement |
| PoolSteps.GaplessRemoval | core/tx_pool.go:975-992 | Removal from the middle of a gapless run leaves a gapless run up to the lowered virtual nonce |
| TxPools.TxPool.PromoteAccount | core/tx_pool.go:1277-1335 | The account changes by the promotion rule with its state nonce, balance and gas limit and, unless it is local, the configured queue limit, and every other share is untouched. The transactions returned are exactly those newly pending; agreement and gapless accounts are kept |
| TxPools.TxPool.PromoteExecutables | core/tx_pool.go:1267-1337 | Every listed account changes by the promotion rule and no other account changes; returned are exactly the transactions that are newly pending |
| AccountRules.PromotionRule | core/tx_pool.go:1277-1335 | The rule, in terms of single nonces: exactly the unbroken run of fit nonces from the lowest one up becomes pending, if that one is not above the virtual nonce; every other fit transaction stays queued, unless the queue is at its limit with lower nonces only; the virtual nonce follows the run |
| AccountRules.PromotionDecided | core/tx_pool.go:1277-1335 | The rule determines the new share: no two shares follow it |
| PoolSteps.PromotionHolds | core/tx_pool.go:1301-1309 | What is promoted was not pending before, and nothing pending is displaced |
| PoolSteps.PromotionExhausts | core/tx_pool.go:1301-1309 | Whatever the account, promotion leaves nothing queued at or below its virtual nonce |
| PoolSteps.PromotionGapless | core/tx_pool.go:1301-1309 | What is ready continues the pending run exactly at the virtual nonce, and nothing stays queued below its end |
| PoolSteps.PromotionAgrees | core/tx_pool.go:1277-1335 | Promotion, pruning and capping keep lists and lookup in agreement |
| HeadReset.DemotionSettles | core/tx_pool.go:1474-1526 | If the payable nonces from the state nonce up to an end are pending and the next pending one is too costly or missing, demotion leaves exactly these and puts nothing below the end into the queue |
| HeadReset.PlainResetSettles | core/tx_pool.go:1119-1145 | An account that was gapless before a reset without abandoned transactions, wherever its state nonce went, is settled after promotion and demotion if and only if no transaction of the new state nonce that it cannot pay for is queued unfiltered; otherwise it is stranded: nothing pending and the virtual nonce ahead |
| HeadReset.StandstillSettles | core/tx_pool.go:1119-1145 | The same when the reset finds blocks missing: blocked is then also an account whose first pending transaction it cannot pay for |
| HeadReset.ResetSettles | core/tx_pool.go:1119-1145 | For any state nonce and any queue, an account with contiguous pending nonces is settled after a reset if and only if the transaction of the state nonce is not queued, or it is payable and the run it begins reaches the pending ones, or something too costly cuts them off |
| HeadReset.FallbackSettles | core/tx_pool.go:1119-1145 | With gas prices, when the state nonce falls back below the pending ones: settled if and only if its transaction did not return, or those that returned reach the pending ones, or the first pending one cannot be paid for |
| HeadReset.StrandedByReset | core/tx_pool.go:1290-1300 | Without gas prices a single queued transaction that has become too costly strands its account |
| HeadReset.SettledIsGapless | core/tx_pool.go:1150-1154 | Letting the virtual nonce follow the last pending transaction makes the account gapless |
| HeadReset.GapAfterFallback | core/tx_pool.go:1507-1520 | Falling back from 6 to 4 with only the transaction of nonce 4 returning leaves the account unsettled |
| TxPools.TxPool.DemoteAccount | core/tx_pool.go:1476-1525 | The account changes by the demotion rule with its state nonce, balance and gas limit, and every other share is untouched; agreement is kept |
| TxPools.TxPool.DemoteUnexecutables | core/tx_pool.go:1474-1526 | Every account changes by the demotion rule; every pending list begins at its state nonce |
| AccountRules.DemotionRule | core/tx_pool.go:1476-1525 | The rule, in terms of single nonces: exactly the payable run from the state nonce stays pending, every other payable transaction not below it goes back to the queue, and only what is too old or cannot be paid for is gone |
| AccountRules.DemotionDecided | core/tx_pool.go:1476-1525 | The rule determines the new share |
| PoolSteps.DemotionKnown | core/tx_pool.go:1476-1525 | Dropping and postponing keep lists and lookup in agreement |
| PoolSteps.DemotionDone | core/tx_pool.go:1487-1520 | Filtering and then postponing a list with a gap in front gives exactly the executable run and the rest |
| TxPools.TxPool.TruncatePending | core/tx_pool.go:1342-1424 | Ends with the total within the limit or every non-local account within its guaranteed slots; no local account is cut, none below its guaranteed slots, all cut accounts end at one length that no uncut non-local account exceeds; the limit is undershot by less than the number of cut accounts; the running counter is the true total |
| TxPools.TxPool.Equalize | core/tx_pool.go:1367-1395 | Lowers the earlier offenders evenly to the length of the new one or until the limit holds |
| TxPools.TxPool.Lower | core/tx_pool.go:1398-1422 | With no offender waiting, lowers all evenly until the limit holds or all are down to their guaranteed slots |
| Fairness.FairRound | core/tx_pool.go:1373-1394 | One cut from each offender keeps the outcome fair and the offenders level |
| TxPools.TxPool.TruncateQueue | core/tx_pool.go:1427-1469 | Over the limit, exactly the overflow is dropped or only local accounts keep a queue; every list is cut from the top only; local accounts and the pending lists are untouched; an account loses transactions only if every non-local account that was active later has lost all of its own |
| TxPools.TxPool.Evict | core/tx_pool.go:376-392 | An evicted non-local account loses its queue and nothing else |
| TxPools.TxPool.constructor | core/tx_pool.go:276-328 | An empty pool satisfies all invariants |
| TxPools.SanitizeDefaults | core/tx_pool.go:180-222 | Settings of zero become the defaults and all others are kept |
| PoolLists.AgreeUpdate | core/tx_pool.go:1626-1640 | Lists and lookup still agree after changing one account if its own part agrees |
| TxLookups.TxLookup.Add | core/tx_pool.go:1724-1736 | Exact new contents and slot count; the lookup stays sound if and only if the transaction is new, or uses no slots and is not on the other side |
| TxLookups.TxLookup.Remove | core/tx_pool.go:1739-1756 | Known transactions and slot count after removing; reports a miss |
| TxLookups.TxLookup.RemoteToLocals | core/tx_pool.go:1760-1773 | Exactly the transactions of the given accounts leave the remote ones, counted, and none is lost |
| SortedMaps.SortedMap.Put | core/tx_list.go:72-78 | The map gains the transaction; the index stays a heap of exactly the stored nonces; a stale cache is dropped |
| SortedMaps.SortedMap.Forward | core/tx_list.go:83-97 | Removes exactly the nonces below the threshold, in order; the sliced cache is the sorted listing of the rest |
| SortedMaps.SortedMap.Filter | core/tx_list.go:104-111 | Removes exactly the matching transactions and restores the index |
| SortedMaps.SortedMap.FilterOnly | core/tx_list.go:124-138 | Removes exactly the matching transactions; the cache goes only if something was removed |
| SortedMaps.SortedMap.Cap | core/tx_list.go:142-163 | Keeps exactly the lowest nonces; dropped ones are listed from the top; the sliced cache is the sorted listing of the rest |
| SortedMaps.SortedMap.Remove | core/tx_list.go:167-184 | Removes one nonce from map, index and cache |
| SortedMaps.SortedMap.Ready | core/tx_list.go:193-208 | Removes and returns the maximal consecutive run from the lowest nonce, if that is not above the start |
| SortedMaps.SortedMap.Listing | core/tx_list.go:215-236 | The sorted listing, cached or not |
| SortedMaps.SortedMap.LastElement | core/tx_list.go:240-243 | The transaction with the highest nonce |
| SortedMaps.RunIsMaximal | core/tx_list.go:193-208 | The run contains every nonce up to its end and the end is not stored |
| SortedMaps.ReadyIsGapless | core/tx_list.go:193-208 | The nonces returned count up from the lowest without a gap |
| Transactions.ListingIsUnique | core/tx_list.go:215-226 | There is one sorted listing of a map, so a cached one equals a fresh one |
| Transactions.ListingCuts | core/tx_list.go:92-95 | Cutting a sorted listing gives the sorted listings of the two parts |
| BinaryHeap.Init | core/tx_list.go:113-120 | Heapify: a heap of the same elements |
| BinaryHeap.Push | core/tx_list.go:75 | Push keeps the heap and adds one element |
| BinaryHeap.Pop | core/tx_list.go:88 | Pop returns a least element and keeps the heap |
| BinaryHeap.Remove | core/tx_list.go:173-179 | Removal at any index keeps the heap |
| BinaryHeap.RootIsLeast | core/tx_list.go:87 | The root of a heap is least |
| TxLists.TxList.Add | core/tx_list.go:278-303 | A stored transaction of the nonce is replaced exactly if the new price is higher and at least the bump in percent above it, rounded down, spelled out in prices; the caps still bound all stored transactions |
| TxLists.TxList.Forward | core/tx_list.go:308-310 | Splits the list at the threshold |
| TxLists.TxList.Filter | core/tx_list.go:321-350 | The cached-cap short cut gives what an unconditional scan gives: removed are the unpayable, a strict list also loses everything above the lowest of them, and the three parts make up the list, spelled out in costs and gas |
| TxLists.TxList.Cap | core/tx_list.go:354-356 | Keeps the lowest nonces |
| TxLists.TxList.Remove | core/tx_list.go:361-372 | Removes one transaction and, from a strict list, everything above it |
| TxLists.TxList.Ready | core/tx_list.go:381-383 | Takes the maximal run from the lowest nonce |
| TxLists.GaplessFilter | core/tx_list.go:337-349 | Filter leaves a contiguous strict list contiguous up to the lowest unpayable nonce, and what it invalidates lies above |
| TxLists.GaplessCap | core/tx_list.go:354-356 | Cap leaves a contiguous list contiguous |
| TxLists.GaplessRemove | core/tx_list.go:361-372 | Strict removal leaves a contiguous list contiguous |
| TxLists.FilterPartitions | core/tx_list.go:321-350 | Removed, invalidated and kept transactions partition the list |
| TxPricedLists.TxPricedList.Put | core/tx_list.go:459-464 | A remote transaction enters the heap, a local one does not |
| TxPricedLists.TxPricedList.Removed | core/tx_list.go:469-477 | If the counter was not short by more than the count, at least three quarters of the heap length is live afterwards and the counter is not too low |
| TxPricedLists.TxPricedList.Reheap | core/tx_list.go:554-563 | The heap holds exactly the live remotes |
| TxPricedLists.TxPricedList.Cap | core/tx_list.go:483-501 | Takes out exactly the live remotes below the threshold; the heap still covers the rest |
| TxPricedLists.TxPricedList.Underpriced | core/tx_list.go:505-524 | Agrees with a plain minimum over the live remotes |
| TxPricedLists.TxPricedList.Discard | core/tx_list.go:530-551 | Takes no transaction while leaving a strictly cheaper live one; on success frees the wanted slots and no more than needed, or, forced, takes all; a failure happens only if all live remotes are too small, and then no live entry is lost |
| TxPricedLists.CoverSlots | core/tx_list.go:532-549 | Entries that cover a set use at least its slots, repeated or not |
| ReorgSchedulers.ReorgScheduler.Loop | core/tx_pool.go:1039-1106 | For any sequence of requests, run ends and shutdown the scheduler state stays consistent, every request is recorded and none is lost, every announced head is recorded in order, and it stops exactly on shutdown. Nobody waits for ever: without a shutdown, once the current run ends, its end is noticed and the next run ends, every request is served and its requester released |
| ReorgSchedulers.ReorgScheduler.Launch | core/tx_pool.go:1051-1062 | Launches exactly if a run is wanted and none is watched; the run takes over everything requested so far; afterwards none is wanted |
| ReorgSchedulers.ReorgScheduler.AnnounceHead | core/tx_pool.go:1065-1073 | A reset request is merged by moving the target head; the requester gets the channel of the next run |
| ReorgSchedulers.ReorgScheduler.RequestPromote | core/tx_pool.go:1075-1083 | Accounts are merged; the requester gets the channel of the next run |
| ReorgSchedulers.ReorgScheduler.Stop | core/tx_pool.go:1097-1103 | Shutdown waits for the current run and releases everybody |
| ReorgSchedulers.ReorgScheduler.ReleasedWhenServed | core/tx_pool.go:1008-1026 | Until shutdown a requester is released only after a run that promoted its accounts or reset to its head or a later one |
| ReorgSchedulers.ReorgScheduler.AtMostOneRun | core/tx_pool.go:1051-1060 | At most one run has not ended |
| ReorgSchedulers.ReorgScheduler.NothingForgotten | core/tx_pool.go:1065-1083 | A request is served or makes the scheduler launch a run |
| ReorgSchedulers.ReorgScheduler.ResetsFollow | core/tx_pool.go:349-356 | Each reset starts from the head the previous one ended at |
| HeaderChains.HeaderChain.Import | core/headerchain.go:149-297 | Over any run of batches the stored total difficulties are the sums over the ancestors, a heaviest head stays heaviest, and batches are refused exactly for an unknown parent; a right canonical index stays right at each batch if and only if the batch is not adopted or is entered completely; with positive difficulties it is enough that every attachable batch brings something new |
| HeaderChains.HeaderChain.WriteHeaders | core/headerchain.go:149-297 | Fails exactly for an unknown parent; stores exactly the batch, of which exactly the ignored first ones were known; the heavier of head and batch becomes the head, at equal weight the lower one, at equal height a coin decides; the index is the path of the head afterwards if and only if the batch does not win or it is new where that matters; the heaviest head is kept; the status is none exactly if nothing was new |
| HeaderChains.HeaderChain.Switch | core/headerchain.go:235-267 | On another branch the index is right afterwards exactly if something was new or the batch lay on the path already |
| HeaderChains.HeaderChain.Pile | core/headerchain.go:268-272 | On top of the head the index is right afterwards exactly if all of the batch was new |
| HeaderChains.HeaderChain.RewriteBelow | core/headerchain.go:244-256 | The backward rewrite ends where the branch joins the index, and below the batch the index is then the path |
| HeaderChains.MarkedPath | core/headerchain.go:257-272 | Marking a whole batch on top of its parent path gives the path of its last header |
| HeaderChains.RemarksUnlessKnown | core/headerchain.go:217-272 | With positive difficulties a winning batch leaves the index right exactly if it ends in a new header or in the head itself |
| HeaderChains.KnownTieBreaksIndex | core/headerchain.go:217-267 | A run of three imports after which the index is wrong: of two siblings of equal difficulty the second is stored, comes again, and wins the coin |
| HeaderChains.HeaderChain.SetHead | core/headerchain.go:559-636 | Below the head: the head becomes its ancestor at the number, every header, difficulty and index entry above is gone on all forks, leftovers above the old head included, and everything at or below is unchanged, whatever the index was; a right index stays right; otherwise nothing changes |
| HeaderChains.HeaderChain.GetAncestor | core/headerchain.go:421-453 | Returns nothing or exactly the ancestor reached by walking parent links; costs one unit per step before the canonical chain is met; succeeds exactly if the budget suffices and the header is stored |
| HeaderChains.DetourIsLeast | core/headerchain.go:436-449 | The steps charged are the fewest that lead to the canonical chain, and no more than asked for |
| BlockChains.BlockChain.WriteKnownBlock | core/blockchain.go:1571-1583 | After adoption the transaction lookup maps exactly the transactions of the new branch to their numbers; the number index is exactly the path of the new head if and only if the block is not stranded; a missing ancestor changes nothing |
| BlockChains.BlockChain.WriteBlock | core/blockchain.go:1731-1760 | The heavier block becomes the head, at equal weight the lower one; at equal height the head stays if it is to be preserved, and otherwise the block wins if it is to be preserved or a coin says so; the same about the indexes as on adoption; an unknown parent changes nothing |
| BlockChains.BlockChain.Import | core/blockchain.go:1731-1760 | After every run of imports the lookup is exactly that of the branch of the head; a right number index stays right at each import if and only if the block is not adopted or not stranded; with unit difficulties, which the consensus engine enforces, it always stays right and the head is highest |
| BlockChains.BlockChain.Reorg | core/blockchain.go:2323-2468 | Succeeds exactly if the branch is rooted in stored blocks; otherwise nothing changes; exact steps from the old to the new indexes |
| BlockChains.BlockChain.FindFork | core/blockchain.go:2378-2422 | Walks both branches to their last common block and collects exactly the blocks above it |
| BlockChains.LookupExact | core/blockchain.go:2439-2456 | Entering the new branch, deleting what only the old one had and entering the head gives exactly the lookup of the new branch |
| BlockChains.IndexExact | core/blockchain.go:2439-2465 | The resulting index is the path of the new head if and only if the block is not stranded |
| BlockChains.StrandedAt | core/blockchain.go:2457-2465 | Stranded means lower than the head with at most one new block above the fork |
| BlockChains.HeavierBlockStrands | core/blockchain.go:1731-1760 | A heavy enough sibling below the head prevails and is stranded |
| BlockChains.UnitPrevails | consensus/hotstuff/backend/engine.go:260-263 | With difficulty 1 everywhere only a block at least as high as the head prevails, and it is not stranded |
| ChainIndexers.ChainIndexer.Run | core/chain_indexer.go:304-382 | In any interleaving of section processing with chain changes, notifications and queries the section heads stay one chain, each descending from the one before by exactly the section size. Each event has its exact effect on the stored and known sections, their heads and the section being processed |
| ChainIndexers.SectionCompletes | core/chain_indexer.go:304-411 | Progress: from a canonical last section, a known section that the canonical chain holds as linked blocks is stored, with its last block as head, once its blocks have been read and committed undisturbed |
| ChainIndexers.ChainIndexer.VerifyLastHead | core/chain_indexer.go:422-429 | Drops sections from the end until the last is canonical, and no canonical last one; if the index is a linked chain then, all sections kept are canonical |
| ChainIndexers.LastSuffices | core/chain_indexer.go:422-429 | If the last section is canonical, all are |
| ChainIndexers.ChainIndexer.OnNewHead | core/chain_indexer.go:243-300 | Exact stored and known sections: a reorganisation limits both to the common part, a new head only raises the known ones |
| ChainIndexers.ChainIndexer.Read | core/chain_indexer.go:397-411 | A block is accepted exactly if the backend accepts it and it is the next canonical block and continues what was read |
| ChainIndexers.ChainIndexer.Finish | core/chain_indexer.go:350-368 | A section is stored exactly if its predecessor head is still there; then it is exactly the next section |
| ChainIndexers.ChainIndexer.StoredIsNext | core/chain_indexer.go:350-353 | The predecessor check implies that no section was dropped meanwhile |
| Feeds.Feed.Send | event/feed.go:128-190 | For every choice of receivers and removals the subscriptions afterwards are those before, inbox included, less the removed ones; delivered is exactly what stays plus what was removed after delivery; the result counts deliveries; every blocking round shrinks the work |
| Feeds.ExactlyOnce | event/feed.go:128-190 | A subscription that stays is served exactly once, a removed one at most once |
| Feeds.Feed.TrySend | event/feed.go:156-165 | The fast path moves served cases from the active to the served part, each once |
| Feeds.Feed.Select | event/feed.go:169-181 | One active case is served or one case is removed; the books stay balanced |
| Feeds.Feed.Remove | event/feed.go:103-124 | Removes one subscription of the channel, from the inbox first |
| Feeds.DeactivateMoves | event/feed.go:228-232 | Exactly one case moves from active to served |
| Feeds.DeleteActive | event/feed.go:172-177 | Deleting an active case leaves the served ones alone although they shift |
| Feeds.DeleteServed | event/feed.go:172-177 | Deleting a served case leaves the active ones alone |
| GasAccounting.Process | core/state_processor.go:86-149 | The transactions are applied one after the other; none of those applied has a reason to be refused, and the error returned is exactly the reason of the first that has: its private states in order, permission, gas price, then the first check of the transition; gas left in the pool plus gas used never exceeds the block limit and equals it if all transactions are public; if every transaction settles its gas, the total of balances is unchanged |
| GasAccounting.ReasonMeans | core/state_processor.go:104-117 | Before the transition exactly a missing permission and a gas price where none is allowed stand in the way, in this order |
| GasAccounting.FirstReasonMeans | core/state_processor.go:240-301 | A transaction is refused on its private states exactly if one of them refuses it, for the reason of the first that does |
| GasAccounting.BlockBalance | core/state_processor.go:86-149 | Gas and money balance over any processed prefix of a block |
| GasAccounting.ApplyOnStates | core/state_processor.go:240-301 | Fails exactly if the private states cannot be resolved or one of them refuses the transaction, with the error of the first that does; adds nothing to the gas used |
| GasAccounting.StateTransition.TransitionDb | core/state_transition.go:250-431 | Fails exactly if a check refuses the message, with exactly the error of the first one that does. A public message: the machine runs on the state in which the whole gas limit has been bought; what it spent, less the refund of at most half of it, is the gas reported and taken from the pool; the sender gets the rest back at its price and the reward account the price of what was used. A private message reports no gas, and its intrinsic gas is settled the same way, to the coinbase if the node lacks the payload of a call; one that ends early loses the bought gas. The pool is never pushed beyond 64 bits |
| GasAccounting.PublicSettlement | core/state_transition.go:358-431 | The settlement of a public message balance by balance, and the bound of one half on the refund |
| GasAccounting.PrivateSettles | core/state_transition.go:278-456 | The same for a private message that settles its gas |
| GasAccounting.RefusedWhen | core/state_transition.go:196-400 | Which refusal is given exactly when, as one table over the message, the state, the pool and the verdicts from outside |
| GasAccounting.IntrinsicGas | core/state_transition.go:124-162 | The cost in numbers: 21000, or 53000 for a creation under Homestead, 4 for a zero byte and 68, or 16 under Istanbul, for another, 2400 for a listed address and 1900 for a listed key. Fails exactly if the data cost exceeds 64 bits; the sum with the access list wraps around |
| GasAccounting.OverflowTest | core/state_transition.go:140-155 | The division test for overflow is exact |
| GasAccounting.RunTwice | core/state_transition.go:278-456 | A node with the payload and one without it end a private call with the same gas pool, the same nonce and no gas used; the balances agree if and only if the reward account is the coinbase or the call cost nothing |
| GasAccounting.Agreement | core/state_transition.go:278-456 | The same for any two settled runs |
| GasAccounting.PrivateSettlement | core/state_transition.go:403-456 | A settled private message moves exactly its cost from the sender to the beneficiary |
| GasAccounting.RunTotal | core/state_transition.go:250-412 | Until it settles, a message misses exactly the price of its gas |
| GasAccounting.PrivateRun | core/state_transition.go:278-412 | Until it settles, a private message has lost exactly its intrinsic gas and touched only its nonce |
| GasAccounting.InnerCostsNothing | core/state_processor.go:446-485 | The private transaction inside a privacy marker changes neither balances nor its gas pool |
| DerivationPaths.RoundTrip | accounts/hd.go:68-136 | Parsing a printed path gives it back, hardened components included; only the empty path does not parse |
| DerivationPaths.RelativePath | accounts/hd.go:61-118 | A relative path means the same, errors included, as the absolute path below the default root |
| DerivationPaths.Stable | accounts/hd.go:68-136 | Printing and re-parsing what was accepted changes nothing |
| DerivationPaths.ParseDerivationPath | accounts/hd.go:68-118 | The loop computes the meaning of the path string, errors included |
| DerivationPaths.String | accounts/hd.go:122-136 | The loop computes the printed form |
| DerivationPaths.ComponentRoundTrip | accounts/hd.go:90-116 | A printed component parses to itself |

## Left out

- HotStuff consensus core, backend and signer: votes, certificates and round changes are not modelled.
- TxPools.TxPool: its lists are values, so aliasing between the pool and a list object is not captured; the list classes are proved separately.
- TxPools.TxPool.Add: the checks on size, signature, privacy marker, permissions and intrinsic gas are one verdict given as an argument; whether gas prices are enabled is a constant of the configuration and does not change with the block number.
- TxPools.TxPool.MakeRoom: when a live transaction has two heap entries, nothing is said about the slots in use afterwards; they depend on how the heap breaks ties.
- TxPools.TxPool.Validate: the checks on type, size, value, signature, privacy marker, permissions and intrinsic gas are one verdict given as an argument.
- TxPools.TxPool.RunReorg: when abandoned transactions return, the gapless condition is stated per account (Adopt, ResetSettles) and not for the pool, because making room for them can cut pending lists in between.
- TxPools.TxPool.TruncateQueue: the times of last activity are an argument; how the clock sets them is not modelled.
- TxPools.TxPool.PromoteExecutables: the late first reset of a pool without virtual nonces is not modelled.
- TxPools.TxPool.AddTxs: the filter for known transactions before the lock is taken and the merging of its errors are not modelled.
- The journal, metrics, logging, heartbeats, event queue and subscriptions of the pool.
- ReorgSchedulers.ReorgScheduler: queued transaction events are not modelled.
- HeaderChains.HeaderChain.WriteHeaders: the abort by interrupt, the caches and the head marker in the database are not modelled; the batch is linked, as its validation ensures.
- HeaderChains.HeaderChain.SetHead: the callback that can force a deeper rewind and the deletion of block bodies are not modelled.
- BlockChains.BlockChain.WriteKnownBlock: assumes that no transaction repeats on a branch; head header and head fast block markers, receipts, logs and events are not modelled.
- SetHeadBeyondRoot, insertChain, InsertReceiptChain, the freezer and state pruning of the block chain.
- ChainIndexers.ChainIndexer: checkpoints, child indexers, throttling, cancellation and reloading from the database are not modelled.
- Feeds.Feed.Send: the type check of values is not modelled; subscriptions that arrive during a send stay in the inbox and are not part of the model of that send.
- GasAccounting.StateTransition.TransitionDb: the virtual machine is a function known only by what it must not do; a private message that ends early settles nothing, so conservation is not claimed for it.
- GasAccounting.Process: receipts, block rewards and contract extension callbacks are not modelled.
- DerivationPaths.ParseDerivationPath: strings are sequences of characters; error messages are reduced to their kind.
- JSON forms and iterators of derivation paths.
