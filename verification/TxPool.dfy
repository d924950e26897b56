/** The transaction pool of core/tx_pool.go: per-account pending and queued lists, the
    lookup of all known transactions, the price heap and the virtual nonces. */
module TxPools {
  import opened Transactions
  import opened SortedMaps
  import opened TxLists
  import opened PoolLists
  import opened Fairness
  import opened PoolSteps
  import opened AccountRules
  import opened HeadReset
  import opened TxLookups
  import opened TxPricedLists
  import opened TxNoncers
  import opened Headers
  import opened HeadWalks

  datatype Config = Config(priceLimit: nat, priceBump: nat, accountSlots: nat, globalSlots: nat,
                           accountQueue: nat, globalQueue: nat, gasPriceEnabled: bool)

  type WorkableConfig = c: Config | c.accountSlots > 0 && c.globalSlots > 0 && c.accountQueue > 0 && c.globalQueue > 0
    witness Config(1, 10, 16, 4096, 64, 1024, true)

  /** Replaces unworkable settings by the defaults. */
  function Sanitize(c: Config): WorkableConfig {
    c.(priceLimit := if c.priceLimit < 1 then 1 else c.priceLimit,
       priceBump := if c.priceBump < 1 then 10 else c.priceBump,
       accountSlots := if c.accountSlots < 1 then 16 else c.accountSlots,
       globalSlots := if c.globalSlots < 1 then 4096 else c.globalSlots,
       accountQueue := if c.accountQueue < 1 then 64 else c.accountQueue,
       globalQueue := if c.globalQueue < 1 then 1024 else c.globalQueue)
  }

  /** The chain state the pool validates against. */
  datatype StateDB = StateDB(nonce: Address -> nat, balance: Address -> nat)

  datatype AddError = AlreadyKnown | Inadmissible | GasLimit | InvalidGasPrice | Underpriced | NonceTooLow
    | InsufficientFunds | Overflow | ReplaceUnderpriced

  /** What `reset` finds: the blocks it needs are missing, or a new head, with the transactions
      of abandoned blocks to be added again. */
  datatype HeadChange = Unreachable | NewHead(state: StateDB, maxGas: nat, reinject: seq<Tx>)

  /** What `reset` asks the block chain for. */
  datatype Chain = Chain(blocks: set<Header>, bodies: Bodies, stateAt: Header -> Option<StateDB>, gasLimit: Header -> nat)

  /** What a change of head means for the pool: nothing if blocks or the state are missing;
      otherwise the new state, and what only the old branch holds is to be added again. */
  method ChangeOfHead(chain: Chain, oldHead: Option<Header>, newHead: Header) returns (h: HeadChange)
    requires newHead in chain.blocks
    ensures h.NewHead? ==> chain.stateAt(newHead) == Some(h.state) && h.maxGas == chain.gasLimit(newHead)
    ensures Skipped(oldHead, newHead) ==> (h.NewHead? <==> chain.stateAt(newHead).Some?) && Plain(Some(h))
    ensures !Skipped(oldHead, newHead) && oldHead.value !in chain.blocks ==>
              (h.NewHead? <==> chain.stateAt(newHead).Some? && Number(newHead) < Number(oldHead.value)) && Plain(Some(h))
    ensures !Skipped(oldHead, newHead) && oldHead.value in chain.blocks ==>
              && (h.NewHead? <==> chain.stateAt(newHead).Some? && exists f: nat :: Meets(chain.blocks, oldHead.value, newHead, f))
              && (h.NewHead? ==> forall f: nat :: Meets(chain.blocks, oldHead.value, newHead, f) ==>
                    h.reinject == Difference(Gathered(chain.bodies, oldHead.value, f), Gathered(chain.bodies, newHead, f)))
  {
    hide Meets, Gathered, Difference;
    var reinject := Abandoned(chain.blocks, chain.bodies, oldHead, newHead);
    if reinject.None? || chain.stateAt(newHead).None? {
      return Unreachable;
    }
    return NewHead(chain.stateAt(newHead).value, chain.gasLimit(newHead), reinject.value);
  }

  /** What a run went through: the known transactions and the accounts' shares once the head was
      adopted, and the lists before the limits were enforced. */
  datatype Trail = Trail(known: set<Tx>, adopted: imap<Address, Account>, pending: AccountLists, queue: AccountLists)

  /** The accounts' shares hold exactly the known transactions. */
  ghost predicate Shares(accounts: imap<Address, Account>, known: set<Tx>) {
    && (forall a: Address :: a in accounts)
    && forall t :: t in known <==> Has(accounts[t.sender].pending, t) || Has(accounts[t.sender].queue, t)
  }

  /** A new head starts the virtual nonces over from its state, and adding abandoned transactions
      again does not move them if there is room. */
  ghost predicate StartsOver(reset: Option<HeadChange>, adopted: imap<Address, Account>, known: nat, limit: nat) {
    reset.Some? && reset.value.NewHead? && Roomy(known, reset.value.reinject, limit) ==>
      forall a: Address :: a in adopted && adopted[a].virtual == reset.value.state.nonce(a)
  }

  lemma StartsOverIs(reset: Option<HeadChange>, adopted: imap<Address, Account>, known: nat, limit: nat)
    ensures StartsOver(reset, adopted, known, limit) <==>
            (reset.Some? && reset.value.NewHead? && Roomy(known, reset.value.reinject, limit) ==>
               forall a: Address :: a in adopted && adopted[a].virtual == reset.value.state.nonce(a))
  {
  }

  /** What enforcing the limits makes of the pending lists and the queues. */
  ghost predicate Enforced(p0: AccountLists, q0: AccountLists, p: AccountLists, q: AccountLists, locals: set<Address>, config: Config,
                           beats: Address -> nat)
  {
    && (exists cut, level :: Fair(p0, p, locals, config.accountSlots, cut, level) && (cut != {} ==> Total(p) + |cut| > config.globalSlots))
    && (Total(p0) <= config.globalSlots ==> p == p0)
    && (Total(p) <= config.globalSlots || forall a :: a !in locals ==> Len(p, a) <= config.accountSlots)
    && (Total(q0) <= config.globalQueue ==> q == q0)
    && (Total(q0) > config.globalQueue ==>
          Total(q) == config.globalQueue || (Total(q) > config.globalQueue && forall a :: a in q ==> a in locals))
    && (forall a :: At(q, a) == Lowest(At(q0, a), Len(q, a))) && (forall a :: a in locals ==> At(q, a) == At(q0, a))
    && LatestFirst(q0, q, locals, beats)
  }

  lemma EnforcedIs(p0: AccountLists, q0: AccountLists, p: AccountLists, q: AccountLists, locals: set<Address>, config: Config,
                   beats: Address -> nat, cut: set<Address>, level: nat)
    requires Fair(p0, p, locals, config.accountSlots, cut, level) && (cut != {} ==> Total(p) + |cut| > config.globalSlots)
    requires Total(p0) <= config.globalSlots ==> cut == {}
    requires Total(p) <= config.globalSlots || forall a :: a !in locals ==> Len(p, a) <= config.accountSlots
    requires Total(q0) <= config.globalQueue ==> q == q0
    requires Total(q0) > config.globalQueue ==>
      Total(q) == config.globalQueue || (Total(q) > config.globalQueue && forall a :: a in q ==> a in locals)
    requires (forall a :: At(q, a) == Lowest(At(q0, a), Len(q, a))) && (forall a :: a in locals ==> At(q, a) == At(q0, a))
    requires LatestFirst(q0, q, locals, beats)
    ensures Enforced(p0, q0, p, q, locals, config, beats)
  {
    hide Fair, LatestFirst, Lowest, Total;
    if cut == {} {
      FairNone(p0, p, locals, config.accountSlots, level);
    }
  }

  /** The reset, if there is one, adds no transactions again. */
  predicate Plain(reset: Option<HeadChange>) {
    reset.None? || reset.value.Unreachable? || reset.value.reinject == []
  }

  /** The reset, if there is one, adopts a new head with gas prices enabled. */
  predicate Steady(reset: Option<HeadChange>, priced: bool) {
    reset.None? || (priced && reset.value.NewHead? && reset.value.reinject == [])
  }

  datatype Operation = AddTxs(txs: seq<Tx>, local: bool) | SetGasPrice(price: nat) | Evict(addr: Address)
    | Reorg(reset: Option<HeadChange>, dirty: set<Address>, beats: Address -> nat)

  function ResetOf(op: Operation): Option<HeadChange> {
    if op.Reorg? then op.reset else None
  }

  // ---- The pool between operations ----

  /** Every account's share of the pool, the pool's lists, and what transactions are judged by. */
  datatype Snapshot = Snapshot(accounts: imap<Address, Account>, pending: AccountLists, queue: AccountLists, known: set<Tx>,
                               remotes: set<Tx>, locals: set<Address>, state: StateDB, maxGas: nat, gasPrice: nat)

  ghost predicate AllApart(accounts: imap<Address, Account>) {
    forall a :: a in accounts ==> accounts[a].pending.Keys !! accounts[a].queue.Keys
  }

  ghost predicate GaplessIn(s: Snapshot) {
    forall a :: a in s.accounts && var x := s.accounts[a]; GaplessAt(x.pending, x.queue, s.state.nonce(a), x.virtual)
  }

  /** The reset finds the account blocked by a transaction it cannot pay for. */
  ghost predicate BlocksAt(s: Snapshot, reset: Option<HeadChange>, priced: bool, a: Address) {
    && reset.Some? && a in s.accounts
    && Blocks(s.accounts[a], StateOf(reset, s.state).nonce(a), StateOf(reset, s.state).balance(a), GasOf(reset, s.maxGas),
              priced, reset.value.NewHead?)
  }

  ghost predicate Blocked(s: Snapshot, reset: Option<HeadChange>, priced: bool) {
    exists a :: BlocksAt(s, reset, priced, a)
  }

  lemma BlockedIs(s: Snapshot, reset: Option<HeadChange>, priced: bool)
    ensures Blocked(s, reset, priced) <==> exists a :: BlocksAt(s, reset, priced, a)
    ensures Steady(reset, priced) ==> Plain(reset) && !Blocked(s, reset, priced)
    ensures reset.None? ==> Plain(reset) && !Blocked(s, reset, priced)
  {
  }

  /** The accounts that are blocked, or those that are not. */
  ghost function Blockers(s: Snapshot, reset: Option<HeadChange>, priced: bool, blocked: bool): iset<Address> {
    iset a: Address | BlocksAt(s, reset, priced, a) == blocked
  }

  lemma BlockersAre(s: Snapshot, reset: Option<HeadChange>, priced: bool)
    ensures forall a: Address :: a in Blockers(s, reset, priced, true) <==> BlocksAt(s, reset, priced, a)
    ensures forall a: Address :: a in Blockers(s, reset, priced, false) <==> !BlocksAt(s, reset, priced, a)
    ensures Blocked(s, reset, priced) <==> exists a: Address :: a in Blockers(s, reset, priced, true)
  {
    hide BlocksAt;
    if Blocked(s, reset, priced) {
      var a: Address :| BlocksAt(s, reset, priced, a);
      assert a in Blockers(s, reset, priced, true);
    }
  }

  // ---- What each operation does ----

  /** `t` passes validation. */
  ghost predicate PassesIn(s: Snapshot, t: Tx, isLocal: bool, admissible: Tx -> bool, priced: bool) {
    && admissible(t) && s.state.nonce(t.sender) <= t.nonce && t.cost <= s.state.balance(t.sender) && t.gas <= s.maxGas
    && if priced then isLocal || s.gasPrice <= t.price else t.price == 0
  }

  ghost function Passing(s: Snapshot, txs: seq<Tx>, local: bool, admissible: Tx -> bool, priced: bool): set<Tx> {
    set t | t in txs && PassesIn(s, t, local || t.sender in s.locals, admissible, priced)
  }

  /** An account's share before the limits are enforced, from its share once the head was adopted. */
  ghost function ArrangedIn(s: Snapshot, a: Address, x: Account, reset: bool, dirty: set<Address>, config: Config): Account {
    var limit := if a in s.locals then None else Some(config.accountQueue);
    var y := Promoted(x, s.state.nonce(a), s.state.balance(a), s.maxGas, config.gasPriceEnabled, limit);
    if reset then Demoted(y, s.state.nonce(a), s.state.balance(a), s.maxGas) else if a in dirty then y else x
  }

  /** A reorganisation takes the pool from `s` to `t`, by way of `trail`. */
  ghost predicate Reorganises(s: Snapshot, reset: Option<HeadChange>, dirty: set<Address>, beats: Address -> nat, t: Snapshot,
                              config: Config, admissible: Tx -> bool, trail: Trail)
  {
    && t.state == StateOf(reset, s.state) && t.maxGas == GasOf(reset, s.maxGas) && t.gasPrice == s.gasPrice && t.locals == s.locals
    && (if reset.Some? && reset.value.NewHead?
        then Batched(s.known, trail.known, reset.value.reinject, config.globalSlots + config.globalQueue,
                     Passing(t, reset.value.reinject, false, admissible, config.gasPriceEnabled))
        else trail.known == s.known)
    && Shares(trail.adopted, trail.known) && StartsOver(reset, trail.adopted, |s.known|, config.globalSlots + config.globalQueue)
    && (Plain(reset) ==>
          forall a :: a in s.accounts && trail.adopted[a] == if reset.Some? then Restarted(a, s.accounts[a], reset.value) else s.accounts[a])
    && (forall a :: var x := ArrangedIn(t, a, trail.adopted[a], reset.Some?, dirty, config);
                    At(trail.pending, a) == x.pending && At(trail.queue, a) == x.queue)
    && Enforced(trail.pending, trail.queue, t.pending, t.queue, t.locals, config, beats)
  }

  lemma ReorganisesBy(s: Snapshot, reset: Option<HeadChange>, dirty: set<Address>, beats: Address -> nat, t: Snapshot,
                      config: Config, admissible: Tx -> bool, trail: Trail)
    requires t.state == StateOf(reset, s.state) && t.maxGas == GasOf(reset, s.maxGas) && t.gasPrice == s.gasPrice && t.locals == s.locals
    requires if reset.Some? && reset.value.NewHead?
      then Batched(s.known, trail.known, reset.value.reinject, config.globalSlots + config.globalQueue,
                   Passing(t, reset.value.reinject, false, admissible, config.gasPriceEnabled))
      else trail.known == s.known
    requires Shares(trail.adopted, trail.known) && forall a: Address :: a in s.accounts
    requires Plain(reset) ==> forall a :: trail.adopted[a] == if reset.Some? then Restarted(a, s.accounts[a], reset.value) else s.accounts[a]
    requires StartsOver(reset, trail.adopted, |s.known|, config.globalSlots + config.globalQueue)
    requires forall a :: var x := ArrangedIn(t, a, trail.adopted[a], reset.Some?, dirty, config);
                         At(trail.pending, a) == x.pending && At(trail.queue, a) == x.queue
    requires Enforced(trail.pending, trail.queue, t.pending, t.queue, t.locals, config, beats)
    ensures Effect(s, Reorg(reset, dirty, beats), t, config, admissible)
  {
    hide Batched, Passing, Shares, StartsOver, ArrangedIn, Enforced, Restarted, At;
    assert Reorganises(s, reset, dirty, beats, t, config, admissible, trail);
  }

  /** What an operation does to the pool. */
  ghost predicate Effect(s: Snapshot, op: Operation, t: Snapshot, config: Config, admissible: Tx -> bool) {
    match op
    case AddTxs(txs, local) =>
      && t.state == s.state && t.maxGas == s.maxGas && t.gasPrice == s.gasPrice && (!local ==> t.locals == s.locals)
      && Batched(s.known, t.known, txs, config.globalSlots + config.globalQueue, Passing(s, txs, local, admissible, config.gasPriceEnabled))
    case SetGasPrice(price) =>
      && t.state == s.state && t.maxGas == s.maxGas && t.locals == s.locals
      && t.gasPrice == (if config.gasPriceEnabled then price else s.gasPrice)
      && t.known == set x | x in s.known && !(config.gasPriceEnabled && x in s.remotes && x.price < price)
    case Evict(addr) =>
      && t == s.(accounts := t.accounts, queue := t.queue, known := t.known, remotes := t.remotes)
      && t.queue == (if addr in s.locals then s.queue else s.queue - {addr})
    case Reorg(reset, dirty, beats) =>
      exists trail :: Reorganises(s, reset, dirty, beats, t, config, admissible, trail)
  }

  /** Each operation has its effect, and each that adds no abandoned transactions keeps a gapless pool
      gapless if and only if no account is blocked. */
  ghost predicate Staged(stages: seq<Snapshot>, ops: seq<Operation>, config: Config, admissible: Tx -> bool) {
    && |stages| == |ops| + 1
    && (forall i :: 0 <= i < |ops| ==> Effect(stages[i], ops[i], stages[i + 1], config, admissible))
    && forall i :: 0 <= i < |ops| && GaplessIn(stages[i]) && Plain(ResetOf(ops[i])) ==>
         (GaplessIn(stages[i + 1]) <==> !Blocked(stages[i], ResetOf(ops[i]), config.gasPriceEnabled))
  }

  /** So a pool that starts gapless is gapless as long as no account is blocked. */
  lemma {:induction false} GaplessWhileUnblocked(stages: seq<Snapshot>, ops: seq<Operation>, config: Config, admissible: Tx -> bool, k: nat)
    requires Staged(stages, ops, config, admissible) && k <= |ops| && GaplessIn(stages[0])
    requires forall i :: 0 <= i < k ==> Plain(ResetOf(ops[i])) && !Blocked(stages[i], ResetOf(ops[i]), config.gasPriceEnabled)
    ensures GaplessIn(stages[k])
  {
    hide GaplessIn, Blocked, Plain, Effect;
    if k > 0 {
      GaplessWhileUnblocked(stages, ops, config, admissible, k - 1);
    }
  }

  /** With gas prices enabled, no account is ever blocked by a new head. */
  lemma GaplessIfSteady(stages: seq<Snapshot>, ops: seq<Operation>, config: Config, admissible: Tx -> bool)
    requires Staged(stages, ops, config, admissible) && GaplessIn(stages[0])
    requires forall op :: op in ops ==> Steady(ResetOf(op), config.gasPriceEnabled)
    ensures GaplessIn(stages[|ops|])
  {
    hide GaplessIn, Blocked, Plain, Steady, Effect;
    forall i | 0 <= i < |ops| ensures Plain(ResetOf(ops[i])) && !Blocked(stages[i], ResetOf(ops[i]), config.gasPriceEnabled) {
      BlockedIs(stages[i], ResetOf(ops[i]), config.gasPriceEnabled);
    }
    GaplessWhileUnblocked(stages, ops, config, admissible, |ops|);
  }

  lemma StagedNext(stages: seq<Snapshot>, ops: seq<Operation>, config: Config, admissible: Tx -> bool, op: Operation, s: Snapshot)
    requires Staged(stages, ops, config, admissible) && Effect(stages[|ops|], op, s, config, admissible)
    requires GaplessIn(stages[|ops|]) && Plain(ResetOf(op)) ==> (GaplessIn(s) <==> !Blocked(stages[|ops|], ResetOf(op), config.gasPriceEnabled))
    ensures Staged(stages + [s], ops + [op], config, admissible)
  {
    hide GaplessIn, Blocked, Plain, Effect;
  }

  lemma StagedNone(s: Snapshot, config: Config, admissible: Tx -> bool)
    ensures Staged([s], [], config, admissible)
  {
  }

  function GasOf(reset: Option<HeadChange>, maxGas: nat): nat {
    if reset.Some? && reset.value.NewHead? then reset.value.maxGas else maxGas
  }

  /** An account's share once the virtual nonces start over from the new head's state. */
  function Restarted(a: Address, x: Account, h: HeadChange): Account {
    if h.NewHead? then x.(virtual := h.state.nonce(a)) else x
  }

  lemma RestartedIs(h: HeadChange)
    ensures forall a, x :: Restarted(a, x, h) == if h.NewHead? then Account(x.pending, x.queue, h.state.nonce(a)) else x
  {
  }

  lemma ResetOfIs(op: Operation)
    ensures ResetOf(op) == if op.Reorg? then op.reset else None
  {
  }

  lemma PlainIs(h: HeadChange)
    ensures Plain(Some(h)) <==> h.Unreachable? || h.reinject == []
  {
  }

  lemma StateOfIs(reset: Option<HeadChange>, state: StateDB, maxGas: nat)
    ensures StateOf(reset, state) == if reset.Some? && reset.value.NewHead? then reset.value.state else state
    ensures GasOf(reset, maxGas) == if reset.Some? && reset.value.NewHead? then reset.value.maxGas else maxGas
  {
  }

  datatype AddResult = Added(replaced: bool) | Rejected(error: AddError)

  /** What `result` says about the known transactions, once room has been made for `tx`: it has taken
      its place, at the cost of the rival there whose price it tops, or nothing has changed. */
  ghost predicate Follows(result: AddResult, known: set<Tx>, after: set<Tx>, tx: Tx, bump: nat) {
    if result.Added? then
      && (forall u :: u in after <==> u == tx || (u in known && !SamePlace(u, tx)))
      && (forall u :: u in known && SamePlace(u, tx) ==> Outprices(tx, u, bump))
      && (result.replaced <==> exists u :: u in known && SamePlace(u, tx))
    else
      && after == known
      && (result.error == ReplaceUnderpriced ==> exists u :: u in known && SamePlace(u, tx) && !Outprices(tx, u, bump))
  }

  lemma FollowsIs(result: AddResult, known: set<Tx>, after: set<Tx>, tx: Tx, bump: nat)
    requires if result.Added? then
        && after == Displaced(known, tx) + {tx} && OutbidsRivals(known, tx, bump)
        && (result.replaced <==> Rivalled(known, tx))
      else
        after == known && (result.error == ReplaceUnderpriced ==> !OutbidsRivals(known, tx, bump))
    ensures Follows(result, known, after, tx, bump)
  {
    hide Outbids, Outprices;
    forall u ensures Outbids(tx, u, bump) <==> Outprices(tx, u, bump) {
      OutbidsMeans(tx, u, bump);
    }
  }

  // ---- Batches that there is room for ----

  /** Some known transaction has the place of `t`. */
  ghost predicate Placed(known: set<Tx>, t: Tx) {
    exists u :: u in known && SamePlace(u, t)
  }

  /** No other transaction, known or in the batch, has the place of `t`. */
  ghost predicate Unrivalled(t: Tx, known: set<Tx>, txs: seq<Tx>) {
    forall u :: (u in known || u in txs) && SamePlace(u, t) ==> u == t
  }

  /** The batch fits in at its turn, even if all of it is new. */
  ghost predicate Roomy(known: nat, txs: seq<Tx>, limit: nat) {
    forall i :: 0 <= i < |txs| ==> known + i + txs[i].slots <= limit
  }

  /** It is enough that there are slots for all of it. */
  lemma RoomyBySlots(known: nat, txs: seq<Tx>, limit: nat)
    requires (forall t :: t in txs ==> t.slots > 0) && known + SeqSlots(txs) <= limit
    ensures Roomy(known, txs, limit)
  {
    forall i | 0 <= i < |txs| ensures known + i + txs[i].slots <= limit {
      SlotsOfPrefix(txs, i);
    }
  }

  lemma {:induction false} SlotsOfPrefix(txs: seq<Tx>, i: nat)
    requires (forall t :: t in txs ==> t.slots > 0) && i < |txs|
    ensures i + txs[i].slots <= SeqSlots(txs)
    decreases |txs|
  {
    var init := txs[..|txs| - 1];
    if i < |init| {
      SlotsOfPrefix(init, i);
    } else if init != [] {
      SlotsOfPrefix(init, |init| - 1);
    }
  }

  /** What one addition that drops nothing means for the places. */
  lemma FollowsPlaces(result: AddResult, known: set<Tx>, after: set<Tx>, tx: Tx, bump: nat)
    requires Follows(result, known, after, tx, bump)
    ensures |after| <= |known| + 1 && forall u :: u in after ==> u in known || u == tx
    ensures forall u :: Placed(known, u) ==> Placed(after, u)
    ensures forall u :: u in known && (SamePlace(u, tx) ==> u == tx) ==> u in after
    ensures result.Added? ==> tx in after && Placed(after, tx)
    ensures result == Rejected(ReplaceUnderpriced) ==> Placed(after, tx) && exists u :: u in known && SamePlace(u, tx)
    ensures tx in known ==> Placed(after, tx)
  {
    SubsetCount(after, known + {tx});
    forall u | Placed(known, u) ensures Placed(after, u) {
      var v :| v in known && SamePlace(v, u);
      assert if result.Added? && SamePlace(v, tx) then tx in after && SamePlace(tx, u) else v in after;
    }
  }

  lemma FollowsCount(result: AddResult, known: set<Tx>, after: set<Tx>, tx: Tx, bump: nat)
    requires Follows(result, known, after, tx, bump)
    ensures |after| <= |known| + 1
  {
    FollowsPlaces(result, known, after, tx, bump);
  }

  lemma RoomAtTurn(known: nat, now: nat, txs: seq<Tx>, i: nat, limit: nat)
    requires i < |txs|
    ensures Roomy(known, txs, limit) && now <= known + i ==> now + txs[i].slots <= limit
  {
  }

  lemma RoomyNone(known: nat, limit: nat)
    ensures Roomy(known, [], limit)
  {
  }

  lemma {:induction false} SubsetCount(s: set<Tx>, r: set<Tx>)
    requires s <= r
    ensures |s| <= |r|
    decreases |s|
  {
    if s != {} {
      var t :| t in s;
      SubsetCount(s - {t}, r - {t});
    }
  }

  /** One addition of a batch; `pass` says whether the transaction passes validation. */
  ghost predicate AddStep(known: set<Tx>, dropped: set<Tx>, result: AddResult, after: set<Tx>, tx: Tx, bump: nat, limit: nat, pass: bool) {
    && Follows(result, known - dropped, after, tx, bump)
    && (tx in known <==> result == Rejected(AlreadyKnown))
    && (|known| + tx.slots <= limit ==>
          dropped == {} && (tx !in known && pass ==> result.Added? || result == Rejected(ReplaceUnderpriced)))
  }

  lemma AddStepIs(known: set<Tx>, dropped: set<Tx>, result: AddResult, after: set<Tx>, tx: Tx, bump: nat, limit: nat, pass: bool)
    requires Follows(result, known - dropped, after, tx, bump) && (tx in known <==> result == Rejected(AlreadyKnown))
    requires |known| + tx.slots <= limit ==>
      dropped == {} && (tx !in known && pass ==> result.Added? || result == Rejected(ReplaceUnderpriced))
    ensures AddStep(known, dropped, result, after, tx, bump, limit, pass)
  {
  }

  /** Nothing but the batch is new. If there is room for the batch, no known transaction loses its
      place except to one of the batch, and each of those passing validation gets its place, or finds
      it taken by a rival. */
  ghost predicate Batched(known: set<Tx>, after: set<Tx>, txs: seq<Tx>, limit: nat, passing: set<Tx>) {
    && (forall t :: t in after ==> t in known || t in txs)
    && (Roomy(|known|, txs, limit) ==>
          && (forall t :: t in known ==> Placed(after, t))
          && (forall t :: t in passing ==> Placed(after, t) && (Unrivalled(t, known, txs) ==> t in after)))
  }

  /** A batch, addition by addition. */
  ghost predicate AddSteps(stages: seq<set<Tx>>, drops: seq<set<Tx>>, results: seq<AddResult>, txs: seq<Tx>, bump: nat, limit: nat,
                           passing: set<Tx>)
  {
    && |results| == |drops| == |txs| == |stages| - 1
    && forall i :: 0 <= i < |txs| ==> AddStep(stages[i], drops[i], results[i], stages[i + 1], txs[i], bump, limit, txs[i] in passing)
  }

  lemma AddStepsAre(stages: seq<set<Tx>>, drops: seq<set<Tx>>, results: seq<AddResult>, txs: seq<Tx>, bump: nat, limit: nat,
                    passing: set<Tx>)
    requires |results| == |drops| == |txs| == |stages| - 1
    requires forall i :: 0 <= i < |txs| ==> AddStep(stages[i], drops[i], results[i], stages[i + 1], txs[i], bump, limit, txs[i] in passing)
    ensures AddSteps(stages, drops, results, txs, bump, limit, passing)
  {
    hide AddStep;
  }

  lemma BatchPlaces(stages: seq<set<Tx>>, drops: seq<set<Tx>>, results: seq<AddResult>, txs: seq<Tx>, bump: nat, limit: nat, passing: set<Tx>)
    requires AddSteps(stages, drops, results, txs, bump, limit, passing) && forall t :: t in passing ==> t in txs
    ensures Batched(stages[0], stages[|txs|], txs, limit, passing)
  {
    hide AddStep, Placed, Roomy, Unrivalled;
    OnlyBatch(stages, drops, results, txs, bump, limit, passing, |txs|);
    if Roomy(|stages[0]|, txs, limit) {
      AllPlaced(stages, drops, results, txs, bump, limit, passing, |txs|);
    }
    assert txs[..|txs|] == txs;
  }

  lemma {:induction false} OnlyBatch(stages: seq<set<Tx>>, drops: seq<set<Tx>>, results: seq<AddResult>, txs: seq<Tx>, bump: nat, limit: nat,
                                     passing: set<Tx>, k: nat)
    requires AddSteps(stages, drops, results, txs, bump, limit, passing) && k <= |txs|
    ensures forall t :: t in stages[k] ==> t in stages[0] || t in txs[..k]
  {
    hide Follows;
    if k > 0 {
      OnlyBatch(stages, drops, results, txs, bump, limit, passing, k - 1);
      assert AddStep(stages[k - 1], drops[k - 1], results[k - 1], stages[k], txs[k - 1], bump, limit, txs[k - 1] in passing);
      FollowsPlaces(results[k - 1], stages[k - 1] - drops[k - 1], stages[k], txs[k - 1], bump);
    }
  }

  lemma {:induction false} AllPlaced(stages: seq<set<Tx>>, drops: seq<set<Tx>>, results: seq<AddResult>, txs: seq<Tx>, bump: nat, limit: nat,
                                     passing: set<Tx>, k: nat)
    requires AddSteps(stages, drops, results, txs, bump, limit, passing) && k <= |txs| && Roomy(|stages[0]|, txs, limit)
    ensures |stages[k]| <= |stages[0]| + k && forall t :: t in stages[0] ==> Placed(stages[k], t)
    ensures forall t :: t in txs[..k] && t in passing ==>
              Placed(stages[k], t) && (Unrivalled(t, stages[0], txs) ==> t in stages[k])
  {
    hide Follows, Placed, Unrivalled;
    if k == 0 {
      PlacedThere(stages[0]);
    } else {
      var j := k - 1;
      AllPlaced(stages, drops, results, txs, bump, limit, passing, j);
      OnlyBatch(stages, drops, results, txs, bump, limit, passing, j);
      assert AddStep(stages[j], drops[j], results[j], stages[k], txs[j], bump, limit, txs[j] in passing);
      assert stages[j] - {} == stages[j];
      FollowsPlaces(results[j], stages[j], stages[k], txs[j], bump);
      assert txs[..k] == txs[..j] + [txs[j]];
      forall t | t in txs[..k] && t in passing && Unrivalled(t, stages[0], txs) ensures t in stages[k] {
        UnrivalledKept(t, stages[0], txs, stages[j], txs[j], j);
      }
    }
  }

  lemma PlacedThere(known: set<Tx>)
    ensures forall t :: t in known ==> Placed(known, t)
  {
    forall t | t in known ensures Placed(known, t) {
      assert SamePlace(t, t);
    }
  }

  lemma UnrivalledKept(t: Tx, known: set<Tx>, txs: seq<Tx>, now: set<Tx>, tx: Tx, j: nat)
    requires Unrivalled(t, known, txs) && j < |txs| && tx == txs[j] && forall u :: u in now ==> u in known || u in txs[..j]
    ensures SamePlace(t, tx) ==> t == tx
    ensures forall u :: u in now && SamePlace(u, t) ==> u == t
  {
    assert forall u :: u in txs[..j] ==> u in txs;
    assert tx in txs;
  }

  /** The accounts of the transactions that took a new place. */
  function Dirty(txs: seq<Tx>, results: seq<AddResult>): set<Address> {
    set i | 0 <= i < |txs| && i < |results| && results[i] == Added(false) :: txs[i].sender
  }

  lemma DirtyNext(txs: seq<Tx>, results: seq<AddResult>, result: AddResult)
    requires |results| < |txs|
    ensures Dirty(txs, results + [result]) ==
            Dirty(txs, results) + if result == Added(false) then {txs[|results|].sender} else {}
  {
    var all := results + [result];
    forall a ensures a in Dirty(txs, all) <==> a in Dirty(txs, results) || (result == Added(false) && a == txs[|results|].sender) {
      if a in Dirty(txs, results) {
        var i :| 0 <= i < |results| && results[i] == Added(false) && txs[i].sender == a;
        assert all[i] == Added(false);
      }
      if result == Added(false) && a == txs[|results|].sender {
        assert all[|results|] == Added(false);
      }
    }
  }

  lemma DirtyNone(txs: seq<Tx>)
    ensures Dirty(txs, []) == {}
  {
  }

  /** The chain state after the operations. */
  function StateAfter(ops: seq<Operation>, state: StateDB): StateDB {
    if ops == [] then state else
      StateAfter(ops[1..], StateOf(ResetOf(ops[0]), state))
  }

  lemma StateAfterStep(ops: seq<Operation>, state: StateDB)
    ensures ops == [] ==> StateAfter(ops, state) == state
    ensures ops != [] ==> StateAfter(ops, state) == StateAfter(ops[1..], StateOf(ResetOf(ops[0]), state))
  {
  }

  function StateOf(reset: Option<HeadChange>, state: StateDB): StateDB {
    if reset.Some? && reset.value.NewHead? then reset.value.state else state
  }

  class TxPool {
    const config: WorkableConfig
    const all: TxLookup
    const priced: TxPricedList
    var state: StateDB
    var maxGas: nat
    var gasPrice: nat
    var localAccounts: set<Address>
    var pendingNonces: TxNoncer
    var pending: AccountLists
    var queue: AccountLists
    /** How often a transaction expected in the lookup was missing from it. */
    var errors: nat

    /** The parts refer to each other, the lookup is sound, and no account of a remote transaction
        is local. */
    ghost predicate Linked()
      reads this`localAccounts, all
    {
      priced.all == all && all.Valid() && forall t :: t in all.remotes ==> t.sender !in localAccounts
    }

    /** Also, the price heap misses no live remote transaction. */
    ghost predicate Wired()
      reads this`localAccounts, all, priced
    {
      Linked() && Tracks(priced.heap, all.remotes)
    }

    lemma KnownIs()
      ensures all.Known() == all.locals + all.remotes
    {
    }

    /** A local account's transactions are not remote, so they are never dropped for their price. */
    lemma RemotesAreForeign()
      requires Wired()
      ensures forall t :: t in all.remotes ==> t.sender !in localAccounts
    {
    }

    lemma WiredIs()
      ensures Wired() <==> Linked() && Tracks(priced.heap, all.remotes)
    {
    }

    /** What holds between operations. */
    ghost predicate Valid()
      reads this, all, priced
    {
      Wired() && priced.Slack() >= 0 && Agree(pending, queue, all.Known())
    }

    ghost predicate Gapless()
      reads this`pending, this`queue, this`state, this`pendingNonces, pendingNonces
    {
      forall a :: GaplessAt(At(pending, a), At(queue, a), state.nonce(a), pendingNonces.Virtual(a))
    }

    /** An account's share of the pool. */
    function Of(a: Address): Account
      reads this`pending, this`queue, this`pendingNonces, pendingNonces
    {
      Account(At(pending, a), At(queue, a), pendingNonces.Virtual(a))
    }

    lemma OfIs()
      ensures forall a :: Of(a) == Account(At(pending, a), At(queue, a), pendingNonces.Virtual(a))
    {
    }

    /** An account's share after promotion, by the current state and limits. */
    function PromotedHere(a: Address, x: Account): Account
      reads this`state, this`maxGas, this`localAccounts
    {
      Promoted(x, state.nonce(a), state.balance(a), maxGas, config.gasPriceEnabled, QueueLimit(a))
    }

    /** An account's share after demotion, by the current state. */
    function DemotedHere(a: Address, x: Account): Account
      reads this`state, this`maxGas
    {
      Demoted(x, state.nonce(a), state.balance(a), maxGas)
    }

    ghost function Snap(): Snapshot
      reads this, pendingNonces, all
    {
      Snapshot(imap a: Address | true :: Of(a), pending, queue, all.Known(), all.remotes, localAccounts, state, maxGas, gasPrice)
    }

    lemma SnapIs()
      ensures Gapless() <==> GaplessIn(Snap())
      ensures Snap().state == state && Snap().maxGas == maxGas && forall a :: a in Snap().accounts && Snap().accounts[a] == Of(a)
    {
    }

    constructor (config: Config, state: StateDB, maxGas: nat, locals: set<Address>)
      ensures Valid() && Gapless() && errors == 0 && pending == map[] && queue == map[] && all.Known() == {}
      ensures this.config == Sanitize(config) && this.state == state && this.maxGas == maxGas && localAccounts == locals
      ensures fresh(all) && fresh(priced) && fresh(pendingNonces)
    {
      var conf := Sanitize(config);
      this.config := conf;
      this.state, this.maxGas, this.localAccounts := state, maxGas, locals;
      gasPrice := conf.priceLimit;
      pending, queue, errors := map[], map[], 0;
      var lookup := new TxLookup();
      all := lookup;
      priced := new TxPricedList(lookup);
      pendingNonces := new TxNoncer(state.nonce);
    }

    /** Removes a transaction from the lookup. */
    method Unlist(tx: Tx)
      requires Linked()
      modifies all, this`errors
      ensures Linked() && (old(Wired()) ==> Wired())
      ensures all.Known() == old(all.Known()) - {tx} && all.remotes == old(all.remotes) - {tx}
      ensures errors == old(errors) + if tx in old(all.Known()) then 0 else 1
      ensures priced.Slack() >= old(priced.Slack()) - 1
    {
      var found := all.Remove(tx);
      if !found {
        errors := errors + 1;
      }
    }

    /** Removes a transaction from the lookup and tells the price list. */
    method Discard(tx: Tx)
      requires Wired()
      modifies all, priced, this`errors
      ensures Wired()
      ensures all.Known() == old(all.Known()) - {tx} && all.remotes == old(all.remotes) - {tx}
      ensures errors == old(errors) + if tx in old(all.Known()) then 0 else 1
      ensures old(priced.Slack()) >= 0 ==> priced.Slack() >= 0
    {
      Unlist(tx);
      priced.Removed(1);
    }

    /** Removes a transaction from the lookup; the price list is told only on request. */
    method Leave(tx: Tx, outOfBound: bool)
      requires if outOfBound then Wired() else Linked()
      modifies all, priced, this`errors
      ensures Linked() && (old(Wired()) ==> Wired())
      ensures all.Known() == old(all.Known()) - {tx} && all.remotes == old(all.remotes) - {tx}
      ensures errors == old(errors) + if tx in old(all.Known()) then 0 else 1
      ensures outOfBound && old(priced.Slack()) >= 0 ==> priced.Slack() >= 0
      ensures !outOfBound ==> unchanged(priced)
    {
      hide *;
      WiredIs();
      if outOfBound {
        Discard(tx);
      } else {
        Unlist(tx);
      }
      WiredIs();
    }

    /** Removes the transactions of `m` from the lookup. */
    method Forget(txs: seq<Tx>, ghost m: TxMap)
      requires Wired() && Enumerates(txs, m)
      modifies all, this`errors
      ensures Wired()
      ensures forall t :: t in all.Known() <==> t in old(all.Known()) && !Has(m, t)
      ensures priced.Slack() >= old(priced.Slack()) - |txs|
      ensures (forall t :: Has(m, t) ==> t in old(all.Known())) ==> errors == old(errors)
    {
      hide *;
      ghost var known := all.Known();
      EnumeratesIs(txs, m);
      WiredIs();
      for i := 0 to |txs|
        invariant Wired() && Linked()
        invariant forall t :: t in all.Known() <==> t in known && t !in txs[..i]
        invariant priced.Slack() >= old(priced.Slack()) - i
        invariant (forall t :: t in txs ==> t in known) ==> errors == old(errors)
      {
        EnumeratedOnce(txs, m, i);
        Unlist(txs[i]);
      }
      assert txs[..|txs|] == txs;
    }

    method EnqueueTx(tx: Tx, local: bool, addAll: bool) returns (ok: bool, replaced: bool)
      requires Linked() && (addAll ==> tx !in all.Known() && (local || tx.sender !in localAccounts))
      requires addAll || tx.nonce in At(queue, tx.sender) ==> Wired()
      modifies this`queue, this`errors, all, priced
      ensures Linked() && (old(Wired()) ==> Wired())
      ensures ok <==> Accepts(At(old(queue), tx.sender), tx, config.priceBump)
      ensures replaced <==> ok && tx.nonce in At(old(queue), tx.sender)
      ensures !ok ==> queue == old(queue) && errors == old(errors) && unchanged(all, priced)
      ensures ok ==> queue == old(queue)[tx.sender := With(At(old(queue), tx.sender), tx)]
      ensures ok && !addAll && !replaced ==>
                unchanged(all, priced) && errors == old(errors) + if tx in all.Known() then 0 else 1
      ensures ok && addAll ==>
                all.Known() == old(all.Known()) - (if replaced then {At(old(queue), tx.sender)[tx.nonce]} else {}) + {tx}
      ensures ok && addAll && (replaced ==> At(old(queue), tx.sender)[tx.nonce] in old(all.Known())) ==> errors == old(errors)
      ensures ok && addAll ==> (tx in all.remotes <==> !local)
      ensures addAll && old(priced.Slack()) >= 0 ==> priced.Slack() >= 0
    {
      hide *;
      WiredIs();
      var list := At(queue, tx.sender);
      if !Accepts(list, tx, config.priceBump) {
        return false, false;
      }
      queue := queue[tx.sender := With(list, tx)];
      replaced := tx.nonce in list;
      if replaced {
        Discard(list[tx.nonce]);
      }
      if tx !in all.Known() && !addAll {
        errors := errors + 1;
      }
      if addAll {
        KnownIs();
        Enlist(tx, local);
      }
      WiredIs();
      ok := true;
    }

    /** Adds a transaction to the lookup and to the price list. */
    method Enlist(tx: Tx, local: bool)
      requires Wired() && tx !in all.Known() && (local || tx.sender !in localAccounts)
      modifies all, priced
      ensures Wired() && all.Known() == old(all.Known()) + {tx}
      ensures all.remotes == if local then old(all.remotes) else old(all.remotes) + {tx}
      ensures priced.Slack() == old(priced.Slack())
    {
      all.Add(tx, local);
      priced.Put(tx, local);
    }

    method PromoteTx(addr: Address, tx: Tx) returns (inserted: bool)
      requires Wired()
      modifies this`pending, this`errors, all, priced, pendingNonces
      ensures Wired()
      ensures inserted <==> Accepts(At(old(pending), addr), tx, config.priceBump)
      ensures pending == if inserted then old(pending)[addr := With(At(old(pending), addr), tx)] else old(pending)
      ensures tx.nonce !in At(old(pending), addr) ==> unchanged(all, priced) && errors == old(errors)
      ensures tx.nonce in At(old(pending), addr) ==>
                all.Known() == old(all.Known()) - {if inserted then At(old(pending), addr)[tx.nonce] else tx}
      ensures forall a :: pendingNonces.Virtual(a) ==
                          if inserted && a == addr then tx.nonce + 1 else old(pendingNonces.Virtual(a))
    {
      hide TxLookup.Valid, Tracks, Outbids;
      var list := At(pending, addr);
      inserted := Accepts(list, tx, config.priceBump);
      if !inserted {
        Discard(tx);
        return;
      }
      pending := pending[addr := With(list, tx)];
      if tx.nonce in list {
        Discard(list[tx.nonce]);
      }
      pendingNonces.Set(addr, tx.nonce + 1);
    }

    /** Moves transactions to the queue of their account without touching the lookup. */
    method Requeue(addr: Address, txs: seq<Tx>, ghost m: TxMap)
      requires Linked() && Enumerates(txs, m) && Owned(m, addr) && m.Keys !! At(queue, addr).Keys
      requires forall t :: Has(m, t) ==> t in all.Known()
      requires txs == [] ==> WellFormed(queue)
      modifies this`queue, this`errors, all, priced
      ensures unchanged(all, priced) && errors == old(errors)
      ensures queue == Put(old(queue), addr, At(old(queue), addr) + m)
    {
      hide *;
      ghost var q := At(queue, addr);
      InsertedNothing(queue, addr, txs);
      for i := 0 to |txs|
        invariant Linked() && unchanged(all, priced) && errors == old(errors)
        invariant queue == Inserted(old(queue), addr, q, txs[..i])
      {
        InsertedStep(old(queue), addr, q, txs, m, i, config.priceBump);
        EnumeratedOwner(txs, m, addr, i);
        var ok, replaced := EnqueueTx(txs[i], false, false);
      }
      assert txs[..|txs|] == txs;
      OwnedIsKeyed(m, addr);
      InsertedJoins(old(queue), addr, q, txs, m);
    }

    /** Drops one transaction; the transactions after it in a pending list go back to the
        queue, and the virtual nonce falls back to the dropped one. */
    method RemoveTx(tx: Tx, outOfBound: bool)
      requires Agree(pending, queue, all.Known()) && if outOfBound then Wired() else Linked()
      modifies this`pending, this`queue, this`errors, all, priced, pendingNonces
      ensures Linked() && (old(Wired()) ==> Wired()) && Agree(pending, queue, all.Known()) && errors == old(errors)
      ensures all.Known() == old(all.Known()) - {tx} && all.remotes == old(all.remotes) - {tx}
      ensures Removal(old(pending), old(queue), pending, queue, tx)
      ensures Holds(old(pending), tx) ==>
                forall a :: pendingNonces.Virtual(a) == LoweredNonce(a, tx, old(pendingNonces.Virtual(a)))
      ensures !Holds(old(pending), tx) ==> unchanged(pendingNonces)
      ensures outOfBound && old(priced.Slack()) >= 0 ==> priced.Slack() >= 0
      ensures !outOfBound ==> unchanged(priced)
      ensures old(Gapless()) ==> Gapless()
    {
      hide *;
      KnownIs();
      WiredIs();
      WhereIs(pending, queue, all.Known(), tx);
      ghost var known := all.Known();
      if tx !in all.locals && tx !in all.remotes {
        assert known - {tx} == known && all.remotes - {tx} == all.remotes;
        RemovalIs(pending, queue, pending, queue, tx);
        return;
      }
      Leave(tx, outOfBound);
      if tx.sender in pending && tx.nonce in pending[tx.sender] {
        Unpend(tx, known);
      } else {
        Unqueue(tx, known);
      }
      RemovalIs(old(pending), old(queue), pending, queue, tx);
    }

    /** The part of `RemoveTx` for a queued transaction. */
    method Unqueue(tx: Tx, ghost known: set<Tx>)
      requires Agree(pending, queue, known) && Holds(queue, tx)
      modifies this`queue
      ensures Agree(pending, queue, known - {tx})
      ensures queue == Put(old(queue), tx.sender, At(old(queue), tx.sender) - {tx.nonce as nat})
      ensures old(Gapless()) ==> Gapless()
    {
      hide Agree;
      QueueRemovalAgrees(pending, queue, known, tx);
      var n: nat := tx.nonce;
      queue := Put(queue, tx.sender, queue[tx.sender] - {n});
      if old(Gapless()) {
        GaplessQueue(tx.sender, At(old(queue), tx.sender) - {n});
      }
    }

    /** The part of `RemoveTx` for a pending transaction: it and all after it leave the
        pending list, and the latter are requeued. */
    method Unpend(tx: Tx, ghost known: set<Tx>)
      requires Linked() && Agree(pending, queue, known) && Holds(pending, tx) && all.Known() == known - {tx}
      modifies this`pending, this`queue, this`errors, all, priced, pendingNonces
      ensures unchanged(all, priced) && errors == old(errors)
      ensures Agree(pending, queue, all.Known())
      ensures pending == Put(old(pending), tx.sender, Removed(true, At(old(pending), tx.sender), tx.nonce))
      ensures queue == Put(old(queue), tx.sender, At(old(queue), tx.sender) + From(At(old(pending), tx.sender), tx.nonce + 1))
      ensures forall a :: pendingNonces.Virtual(a) ==
                          LoweredNonce(a, tx, old(pendingNonces.Virtual(a)))
      ensures old(Gapless()) ==> Gapless()
    {
      hide *;
      RemovalAgrees(pending, queue, known, tx);
      RemovalParts(pending, queue, known, tx);
      ghost var p, q := At(pending, tx.sender), At(queue, tx.sender);
      if Gapless() {
        GaplessHere(tx.sender);
      }
      GaplessRemoval(p, q, tx.sender, tx, state.nonce(tx.sender), pendingNonces.Virtual(tx.sender));
      SplitPending(tx);
      assert all.Known() == known - {tx};
      if old(Gapless()) {
        GaplessElsewhere(tx.sender, Removed(true, p, tx.nonce), q + From(p, tx.nonce + 1));
      }
    }

    method SplitPending(tx: Tx)
      requires Linked() && Owned(At(pending, tx.sender), tx.sender) && tx.nonce in At(pending, tx.sender)
      requires At(pending, tx.sender).Keys !! At(queue, tx.sender).Keys && WellFormed(queue)
      requires forall t :: Has(From(At(pending, tx.sender), tx.nonce + 1), t) ==> t in all.Known()
      modifies this`pending, this`queue, this`errors, all, priced, pendingNonces
      ensures unchanged(all, priced) && errors == old(errors)
      ensures pending == Put(old(pending), tx.sender, Removed(true, At(old(pending), tx.sender), tx.nonce))
      ensures queue == Put(old(queue), tx.sender, At(old(queue), tx.sender) + From(At(old(pending), tx.sender), tx.nonce + 1))
      ensures forall a :: pendingNonces.Virtual(a) ==
                          LoweredNonce(a, tx, old(pendingNonces.Virtual(a)))
    {
      hide TxLookup.Valid, Tracks, Put, Insert, WellFormed;
      var p: TxMap := pending[tx.sender];
      pending := Put(pending, tx.sender, Below(p, tx.nonce));
      var invalids := Enumerate(From(p, tx.nonce + 1));
      hide Enumerates;
      Requeue(tx.sender, invalids, From(p, tx.nonce + 1));
      pendingNonces.SetIfLower(tx.sender, tx.nonce);
    }

    // ---- Promotion ----

    /** Drops what is too old or too costly from an account's queue. */
    method PruneQueue(addr: Address, list: TxMap) returns (current: TxMap, count: nat)
      requires Wired() && Keyed(list) && forall t :: Has(list, t) ==> t in all.Known()
      modifies all, this`errors
      ensures Wired() && errors == old(errors)
      ensures current == Current(list, state.nonce(addr), state.balance(addr), maxGas, config.gasPriceEnabled)
      ensures Within(current, list)
      ensures Trimmed(old(all.Known()), all.Known(), list, current)
      ensures priced.Slack() >= old(priced.Slack()) - count
    {
      hide *;
      CurrentWithin(list, state.nonce(addr), state.balance(addr), maxGas, config.gasPriceEnabled);
      CurrentIs(list, state.nonce(addr), state.balance(addr), maxGas, config.gasPriceEnabled);
      ghost var known := all.Known();
      var aged := Below(list, state.nonce(addr));
      var forwards := Enumerate(aged);
      Forget(forwards, aged);
      current := From(list, state.nonce(addr));
      count := |forwards|;
      TrimmedBy(known, all.Known(), list, aged, current);
      if config.gasPriceEnabled {
        ghost var middle := all.Known();
        var costly := Unpayable(current, state.balance(addr), maxGas);
        var drops := Enumerate(costly);
        Forget(drops, costly);
        ghost var young := current;
        current := Kept(false, current, state.balance(addr), maxGas);
        count := count + |drops|;
        TrimmedBy(middle, all.Known(), young, costly, current);
        TrimmedTwice(known, middle, all.Known(), list, young, current);
      }
    }

    /** Drops what exceeds an account's share of the queue; local accounts are exempt. */
    method CapQueue(addr: Address, list: TxMap) returns (left: TxMap, count: nat)
      requires Wired() && Keyed(list) && forall t :: Has(list, t) ==> t in all.Known()
      modifies all, this`errors
      ensures Wired() && errors == old(errors)
      ensures left == Limited(list, QueueLimit(addr))
      ensures Trimmed(old(all.Known()), all.Known(), list, left)
      ensures priced.Slack() >= old(priced.Slack()) - count
    {
      hide TxLookup.Valid, Tracks, Enumerates, Lowest;
      left, count := list, 0;
      if addr !in localAccounts {
        LowestKeeps(list, config.accountQueue);
        left := Lowest(list, config.accountQueue);
        var caps := Enumerate(list - left.Keys);
        Forget(caps, list - left.Keys);
        count := |caps|;
      }
    }

    function QueueLimit(addr: Address): Option<nat>
      reads this`localAccounts
    {
      if addr in localAccounts then None else Some(config.accountQueue)
    }

    /** Promotes the ready transactions of an account, lowest nonce first. */
    method PromoteReady(addr: Address, ready: TxMap) returns (promoted: seq<Tx>)
      requires Wired() && Keyed(ready) && At(pending, addr).Keys !! ready.Keys && WellFormed(pending)
      modifies this`pending, this`errors, all, priced, pendingNonces
      ensures unchanged(all, priced) && errors == old(errors)
      ensures promoted == SortByNonce(ready)
      ensures pending == Put(old(pending), addr, At(old(pending), addr) + ready)
      ensures forall a :: pendingNonces.Virtual(a) ==
                          if a == addr && ready != map[] then Greatest(ready.Keys) + 1 else old(pendingNonces.Virtual(a))
    {
      hide *;
      ListingEnumerates(ready);
      var txs := SortByNonce(ready);
      promoted := [];
      ghost var p := At(pending, addr);
      ghost var virtual := pendingNonces.Virtual(addr);
      InsertedNothing(pending, addr, txs);
      for i := 0 to |txs|
        invariant Wired() && unchanged(all, priced) && errors == old(errors)
        invariant promoted == txs[..i]
        invariant pending == Inserted(old(pending), addr, p, txs[..i])
        invariant pendingNonces.Virtual(addr) == (if i > 0 then txs[i - 1].nonce + 1 else virtual)
        invariant forall a :: a != addr ==> pendingNonces.Virtual(a) == old(pendingNonces.Virtual(a))
      {
        InsertedStep(old(pending), addr, p, txs, ready, i, config.priceBump);
        var inserted := PromoteTx(addr, txs[i]);
        if inserted {
          promoted := promoted + [txs[i]];
        }
      }
      assert txs[..|txs|] == txs;
      InsertedAll(old(pending), addr, p, txs, ready);
    }

    /** Tells the price list that `count` transactions have left the lookup. */
    method Recount(count: nat)
      requires Wired()
      modifies priced
      ensures Wired() && (old(priced.Slack()) + count >= 0 ==> priced.Slack() >= 0)
    {
      priced.Removed(count);
    }

    /** The body of the loop of `promoteExecutables`. */
    method PromoteAccount(addr: Address) returns (promoted: seq<Tx>)
      requires Wired() && priced.Slack() >= 0 && Agree(pending, queue, all.Known())
      modifies this`pending, this`queue, this`errors, all, priced, pendingNonces
      ensures Wired() && priced.Slack() >= 0 && Agree(pending, queue, all.Known()) && errors == old(errors)
      ensures forall a :: Of(a) == if a == addr then PromotedHere(a, old(Of(a))) else old(Of(a))
      ensures PromotesTo(old(Of(addr)), Of(addr), Terms(state.nonce(addr), state.balance(addr), maxGas, config.gasPriceEnabled),
                         if addr in localAccounts then None else Some(config.accountQueue))
      ensures forall t :: Holds(pending, t) <==> Holds(old(pending), t) || t in promoted
      ensures forall t :: t in promoted ==> !Holds(old(pending), t)
      ensures old(Gapless()) ==> Gapless()
    {
      hide *;
      OfIs();
      ghost var p, q, known := At(pending, addr), At(queue, addr), all.Known();
      if addr !in queue {
        NoneQueued(addr);
        PromotedByRule(addr, Of(addr));
        return [];
      }
      QueueParts(pending, queue, known, addr);
      if Gapless() {
        GaplessHere(addr);
      }
      var current, dropped := PruneQueue(addr, queue[addr]);
      var virtual := pendingNonces.Get(addr);
      var end := ReadyEnd(current, virtual);
      ReadyParts(p, q, current, virtual, known, all.Known());
      ReadyGreatest(current, virtual);
      promoted := PromoteReady(addr, Below(current, end));
      ghost var pruned := all.Known();
      var left, capped := CapQueue(addr, From(current, end));
      Recount(dropped + capped);
      queue := Put(queue, addr, left);
      LimitedWithin(From(current, end), QueueLimit(addr));
      PromotionAgrees(old(pending), old(queue), known, addr, current, end, left, pruned, all.Known());
      SharePromoted(addr, current, end);
      if old(Gapless()) {
        PromotionGapless(p, q, current, virtual, left, state.nonce(addr));
        GaplessElsewhere(addr, p + Below(current, end), left);
      }
    }

    /** What the lists look like from outside once `addr` has been promoted. */
    twostate lemma SharePromoted(new addr: Address, new q: TxMap, new end: nat)
      requires Agree(old(pending), old(queue), old(all.Known()))
      requires state == old(state) && maxGas == old(maxGas) && localAccounts == old(localAccounts)
      requires q == Current(At(old(queue), addr), state.nonce(addr), state.balance(addr), maxGas, config.gasPriceEnabled)
      requires end == ReadyEnd(q, old(pendingNonces.Virtual(addr)))
      requires pending == Put(old(pending), addr, At(old(pending), addr) + Below(q, end))
      requires queue == Put(old(queue), addr, Limited(From(q, end), QueueLimit(addr)))
      requires forall a :: pendingNonces.Virtual(a) ==
                           if a == addr && Below(q, end) != map[] then end else old(pendingNonces.Virtual(a))
      ensures forall a :: Of(a) == if a == addr then PromotedHere(a, old(Of(a))) else old(Of(a))
      ensures PromotesTo(old(Of(addr)), Of(addr), Terms(state.nonce(addr), state.balance(addr), maxGas, config.gasPriceEnabled),
                         if addr in localAccounts then None else Some(config.accountQueue))
      ensures var txs := SortByNonce(Below(q, end));
              && (forall t :: Holds(pending, t) <==> Holds(old(pending), t) || t in txs)
              && (forall t :: t in txs ==> !Holds(old(pending), t))
    {
      hide Current, ReadyEnd, Limited, Below, From, Put, At, Holds, SortByNonce, Agree, Within, QueueLimit, PromotesTo;
      PromotedByRule(addr, old(Of(addr)));
      AtPut(old(pending), addr, At(old(pending), addr) + Below(q, end));
      AtPut(old(queue), addr, Limited(From(q, end), QueueLimit(addr)));
      CurrentWithin(At(old(queue), addr), state.nonce(addr), state.balance(addr), maxGas, config.gasPriceEnabled);
      PromotionHolds(old(pending), old(queue), old(all.Known()), addr, q, end);
    }

    lemma PromotedByRule(a: Address, x: Account)
      ensures PromotesTo(x, PromotedHere(a, x), Terms(state.nonce(a), state.balance(a), maxGas, config.gasPriceEnabled),
                         if a in localAccounts then None else Some(config.accountQueue))
    {
      hide PromotesTo, Promoted;
      PromotionRule(x, Terms(state.nonce(a), state.balance(a), maxGas, config.gasPriceEnabled), QueueLimit(a));
    }

    lemma DemotedByRule(a: Address, x: Account)
      ensures DemotesTo(x, DemotedHere(a, x), Terms(state.nonce(a), state.balance(a), maxGas, config.gasPriceEnabled))
    {
      hide DemotesTo, Demoted;
      DemotionRule(x, Terms(state.nonce(a), state.balance(a), maxGas, config.gasPriceEnabled));
    }

    lemma NoneQueued(a: Address)
      requires a !in queue
      ensures PromotedHere(a, Of(a)) == Of(a)
    {
      PromotedNothing(Of(a), state.nonce(a), state.balance(a), maxGas, config.gasPriceEnabled, QueueLimit(a));
    }

    /** promoteExecutables: moves what has become executable from the queues to the pending
        lists and returns it. */
    method PromoteExecutables(accounts: seq<Address>) returns (promoted: seq<Tx>)
      requires Wired() && priced.Slack() >= 0 && Agree(pending, queue, all.Known())
      modifies this`pending, this`queue, this`errors, all, priced, pendingNonces
      ensures Wired() && priced.Slack() >= 0 && Agree(pending, queue, all.Known()) && errors == old(errors)
      ensures old(Gapless()) ==> Gapless()
      ensures forall t :: t in promoted <==> Holds(pending, t) && !Holds(old(pending), t)
      ensures Distinct(accounts) ==> forall a :: Of(a) == if a in accounts then PromotedHere(a, old(Of(a))) else old(Of(a))
      ensures Distinct(accounts) ==> forall a :: a in accounts ==>
                PromotesTo(old(Of(a)), Of(a), Terms(state.nonce(a), state.balance(a), maxGas, config.gasPriceEnabled),
                           if a in localAccounts then None else Some(config.accountQueue))
    {
      hide *;
      forall a ensures PromotesTo(Of(a), PromotedHere(a, Of(a)), Terms(state.nonce(a), state.balance(a), maxGas, config.gasPriceEnabled),
                                  if a in localAccounts then None else Some(config.accountQueue))
      {
        PromotedByRule(a, Of(a));
      }
      promoted := [];
      for i := 0 to |accounts|
        invariant Wired() && priced.Slack() >= 0 && Agree(pending, queue, all.Known()) && errors == old(errors)
        invariant old(Gapless()) ==> Gapless()
        invariant forall t :: Holds(pending, t) <==> Holds(old(pending), t) || t in promoted
        invariant forall t :: t in promoted ==> !Holds(old(pending), t)
        invariant Distinct(accounts) ==> forall a :: Of(a) == if a in accounts[..i] then PromotedHere(a, old(Of(a))) else old(Of(a))
      {
        DistinctNext(accounts, i);
        var txs := PromoteAccount(accounts[i]);
        promoted := promoted + txs;
      }
      assert accounts[..|accounts|] == accounts;
    }

    // ---- Demotion ----

    /** The body of the loop of `demoteUnexecutables`. */
    method DemoteAccount(addr: Address)
      requires Wired() && priced.Slack() >= 0 && Agree(pending, queue, all.Known()) && addr in pending
      modifies this`pending, this`queue, this`errors, all, priced
      ensures Wired() && priced.Slack() >= 0 && Agree(pending, queue, all.Known()) && errors == old(errors)
      ensures forall a :: Of(a) == if a == addr then DemotedHere(a, old(Of(a))) else old(Of(a))
      ensures DemotesTo(old(Of(addr)), Of(addr), Terms(state.nonce(addr), state.balance(addr), maxGas, config.gasPriceEnabled))
      ensures pending.Keys >= old(pending).Keys - {addr}
    {
      hide *;
      DemotedByRule(addr, Of(addr));
      ghost var known := all.Known();
      var nonce, balance := state.nonce(addr), state.balance(addr);
      var list := pending[addr];
      DemotionParts(pending, queue, known, addr, nonce, balance, maxGas);
      ghost var middle := Shed(list, nonce, balance);
      DemotionKnown(pending, queue, known, middle, all.Known(), addr, nonce, balance, maxGas);
      WiredIs();
      var left := Postpone(addr, list, nonce, balance);
      pending := Put(pending, addr, left);
      ShareDemoted(addr);
    }

    /** The part of `demoteUnexecutables` that drops old and unpayable transactions. */
    method Shed(list: TxMap, nonce: nat, balance: nat) returns (ghost middle: set<Tx>)
      requires Wired() && priced.Slack() >= 0 && Keyed(Below(list, nonce)) && Keyed(Unpayable(From(list, nonce), balance, maxGas))
      requires forall t :: Has(Below(list, nonce), t) ==> t in all.Known()
      requires forall t :: Has(Unpayable(From(list, nonce), balance, maxGas), t) ==> t in all.Known() && !Has(Below(list, nonce), t)
      modifies this`errors, all, priced
      ensures Wired() && priced.Slack() >= 0 && errors == old(errors)
      ensures forall t :: t in middle <==> t in old(all.Known()) && !Has(Below(list, nonce), t)
      ensures forall t :: t in all.Known() <==> t in middle && !Has(Unpayable(From(list, nonce), balance, maxGas), t)
    {
      hide *;
      var olds := Enumerate(Below(list, nonce));
      Forget(olds, Below(list, nonce));
      middle := all.Known();
      var young := From(list, nonce);
      var drops := Enumerate(Unpayable(young, balance, maxGas));
      Forget(drops, Unpayable(young, balance, maxGas));
      Recount(|olds| + |drops|);
    }

    /** What the lists look like from outside once `addr` has been demoted. */
    twostate lemma ShareDemoted(new addr: Address)
      requires addr in old(pending) && state == old(state) && maxGas == old(maxGas)
      requires pendingNonces == old(pendingNonces) && unchanged(pendingNonces)
      requires pending == Put(old(pending), addr, Executable(old(pending)[addr], state.nonce(addr), state.balance(addr), maxGas))
      requires queue == Put(old(queue), addr,
                 At(old(queue), addr) + Postponed(old(pending)[addr], state.nonce(addr), state.balance(addr), maxGas))
      ensures forall a :: Of(a) == if a == addr then DemotedHere(a, old(Of(a))) else old(Of(a))
      ensures pending.Keys >= old(pending).Keys - {addr}
    {
      hide Executable, Postponed, Put, At;
      var nonce, balance := state.nonce(addr), state.balance(addr);
      PutKeeps(old(pending), addr, Executable(old(pending)[addr], nonce, balance, maxGas));
      AtPut(old(pending), addr, Executable(old(pending)[addr], nonce, balance, maxGas));
      AtPut(old(queue), addr, At(old(queue), addr) + Postponed(old(pending)[addr], nonce, balance, maxGas));
      AtPresent(old(pending), addr);
    }

    /** The part of `demoteUnexecutables` that moves transactions back to the queue. */
    method Postpone(addr: Address, list: TxMap, nonce: nat, balance: nat) returns (left: TxMap)
      requires Linked() && Owned(list, addr) && list.Keys !! At(queue, addr).Keys && WellFormed(queue)
      requires forall t :: Has(Invalidated(true, From(list, nonce), balance, maxGas), t) ==> t in all.Known()
      requires forall t :: Has(Kept(true, From(list, nonce), balance, maxGas), t) ==> t in all.Known()
      modifies this`queue, this`errors, all, priced
      ensures unchanged(all, priced) && errors == old(errors)
      ensures left == Executable(list, nonce, balance, maxGas)
      ensures queue == Put(old(queue), addr, At(old(queue), addr) + Postponed(list, nonce, balance, maxGas))
    {
      hide *;
      PostponeParts(queue, addr, list, nonce, balance, maxGas);
      DemotionDone(list, nonce, balance, maxGas);
      PutTwice(queue, addr, Invalidated(true, From(list, nonce), balance, maxGas), Kept(true, From(list, nonce), balance, maxGas));
      var young := From(list, nonce);
      left := Kept(true, young, balance, maxGas);
      var invalids := Enumerate(Invalidated(true, young, balance, maxGas));
      Requeue(addr, invalids, Invalidated(true, young, balance, maxGas));
      if left != map[] && nonce !in left {
        var gapped := Enumerate(left);
        EnumeratesSome(gapped, left);
        Requeue(addr, gapped, left);
        left := map[];
      }
    }

    /** demoteUnexecutables: drops or requeues what is no longer executable. Afterwards every
        pending list begins at the state nonce. */
    method DemoteUnexecutables()
      requires Wired() && priced.Slack() >= 0 && Agree(pending, queue, all.Known())
      modifies this`pending, this`queue, this`errors, all, priced
      ensures Wired() && priced.Slack() >= 0 && Agree(pending, queue, all.Known()) && errors == old(errors)
      ensures forall a :: Of(a) == DemotedHere(a, old(Of(a)))
      ensures forall a :: DemotesTo(old(Of(a)), Of(a), Terms(state.nonce(a), state.balance(a), maxGas, config.gasPriceEnabled))
      ensures forall a :: a in pending ==> StartsAt(pending[a], state.nonce(a))
    {
      hide *;
      forall a ensures DemotesTo(Of(a), DemotedHere(a, Of(a)), Terms(state.nonce(a), state.balance(a), maxGas, config.gasPriceEnabled)) {
        DemotedByRule(a, Of(a));
      }
      var todo := pending.Keys;
      while todo != {}
        invariant Wired() && priced.Slack() >= 0 && Agree(pending, queue, all.Known()) && errors == old(errors)
        invariant todo <= pending.Keys && todo <= old(pending).Keys
        invariant forall a :: Of(a) == if a in old(pending) && a !in todo then DemotedHere(a, old(Of(a))) else old(Of(a))
        decreases todo
      {
        var addr :| addr in todo;
        DemoteAccount(addr);
        todo := todo - {addr};
      }
      NonePendingBefore();
      DemotedStarts();
    }

    twostate lemma NonePendingBefore()
      requires state == old(state) && maxGas == old(maxGas)
      ensures forall a :: a !in old(pending) ==> DemotedHere(a, old(Of(a))) == old(Of(a))
    {
      hide Demoted;
      forall a | a !in old(pending) ensures DemotedHere(a, old(Of(a))) == old(Of(a)) {
        DemotedNothing(old(Of(a)), state.nonce(a), state.balance(a), maxGas);
      }
    }

    twostate lemma DemotedStarts()
      requires Agree(pending, queue, all.Known()) && forall a :: Of(a) == DemotedHere(a, old(Of(a)))
      ensures forall a :: a in pending ==> StartsAt(pending[a], state.nonce(a))
    {
      hide Executable, Postponed, StartsAt, Owned;
      forall a | a in pending ensures StartsAt(pending[a], state.nonce(a)) {
        assert Of(a) == DemotedHere(a, old(Of(a)));
        ExecutableStarts(old(Of(a)).pending, state.nonce(a), state.balance(a), maxGas);
      }
    }

    // ---- Fair truncation of the pending lists ----

    /** Cuts the transaction with the highest nonce from an account's pending list. */
    method CutOne(addr: Address)
      requires Wired() && priced.Slack() >= 0 && Agree(pending, queue, all.Known())
      requires addr in pending && |pending[addr]| > 1
      modifies this`pending, this`errors, all, priced, pendingNonces
      ensures Wired() && priced.Slack() >= 0 && Agree(pending, queue, all.Known()) && errors == old(errors)
      ensures pending == old(pending)[addr := old(pending)[addr] - {Greatest(old(pending)[addr].Keys)}]
      ensures Total(pending) == Total(old(pending)) - 1
      ensures forall b :: b != addr ==> pendingNonces.Virtual(b) == old(pendingNonces.Virtual(b))
      ensures old(Gapless()) ==> Gapless()
    {
      hide *;
      var list := pending[addr];
      CutParts(pending, queue, all.Known(), addr);
      if Gapless() {
        GaplessHere(addr);
      }
      var tx := list[Greatest(list.Keys)];
      WiredIs();
      Unlist(tx);
      pendingNonces.SetIfLower(addr, tx.nonce);
      Recount(1);
      pending := pending[addr := list - {Greatest(list.Keys)}];
      if old(Gapless()) {
        CutGapless(list, At(queue, addr), tx, state.nonce(addr), old(pendingNonces.Virtual(addr)));
        GaplessPending(addr, list - {Greatest(list.Keys)});
      }
    }

    /** One round: cuts one transaction from each of the accounts. */
    method CutEach(accounts: seq<Address>)
      requires Wired() && priced.Slack() >= 0 && Agree(pending, queue, all.Known()) && Distinct(accounts)
      requires forall a :: a in accounts ==> a in pending && |pending[a]| > 1
      modifies this`pending, this`errors, all, priced, pendingNonces
      ensures Wired() && priced.Slack() >= 0 && Agree(pending, queue, all.Known()) && errors == old(errors)
      ensures OneLess(old(pending), pending, accounts)
      ensures Total(pending) == Total(old(pending)) - |accounts|
      ensures forall b :: b !in accounts ==> pendingNonces.Virtual(b) == old(pendingNonces.Virtual(b))
      ensures old(Gapless()) ==> Gapless()
    {
      hide *;
      OneLessNone(pending);
      for i := 0 to |accounts|
        invariant Wired() && priced.Slack() >= 0 && Agree(pending, queue, all.Known()) && errors == old(errors)
        invariant OneLess(old(pending), pending, accounts[..i])
        invariant Total(pending) == Total(old(pending)) - i
        invariant forall b :: b !in accounts ==> pendingNonces.Virtual(b) == old(pendingNonces.Virtual(b))
        invariant old(Gapless()) ==> Gapless()
      {
        OneLessNext(old(pending), pending, accounts, i);
        CutOne(accounts[i]);
      }
      assert accounts[..|accounts|] == accounts;
    }

    /** truncatePending: if there are too many pending transactions, evens out the accounts
        that have the most of them. Returns how many transactions were dropped. */
    method TruncatePending() returns (dropped: nat, ghost cut: set<Address>, ghost level: nat)
      requires Wired() && priced.Slack() >= 0 && Agree(pending, queue, all.Known())
      modifies this`pending, this`errors, all, priced, pendingNonces
      ensures Wired() && priced.Slack() >= 0 && Agree(pending, queue, all.Known()) && errors == old(errors)
      ensures old(Gapless()) ==> Gapless()
      ensures Fair(old(pending), pending, localAccounts, config.accountSlots, cut, level)
      ensures dropped == Total(old(pending)) - Total(pending)
      ensures Total(old(pending)) <= config.globalSlots ==> cut == {}
      ensures cut != {} ==> Total(pending) + |cut| > config.globalSlots
      ensures Total(pending) <= config.globalSlots ||
              forall a :: a !in localAccounts ==> Len(pending, a) <= config.accountSlots
      ensures forall b :: b !in cut ==> pendingNonces.Virtual(b) == old(pendingNonces.Virtual(b))
    {
      hide Fair, Sorted, Distinct, Members, Level, OthersWithin, Total, Len, Wired, Agree, Gapless, CutBack, Spammers, TxPricedList.Slack;
      var total: nat := Count(pending);
      var before := total;
      cut, level := {}, total;
      var spammers := FindSpammers();
      var offenders: seq<Address> := [];
      FairStart(pending, localAccounts, config.accountSlots, spammers);
      if total <= config.globalSlots {
        return 0, cut, level;
      }
      while total > config.globalSlots && spammers != {}
        invariant Wired() && priced.Slack() >= 0 && Agree(pending, queue, all.Known()) && errors == old(errors)
        invariant old(Gapless()) ==> Gapless()
        invariant Truncated(old(pending), offenders, spammers, total, cut, level) && total <= before
        invariant forall b :: b !in cut ==> pendingNonces.Virtual(b) == old(pendingNonces.Virtual(b))
        decreases spammers
      {
        var lists := pending;
        var offender := PopMost(spammers, a => Len(lists, a));
        CutAmongOffenders(old(pending), pending, localAccounts, config.accountSlots, cut, level, offenders);
        NextOffender(old(pending), pending, localAccounts, config.accountSlots, offenders, spammers, offender);
        assert spammers - {offender} + {offender} == spammers;
        spammers := spammers - {offender};
        if offenders != [] {
          total, cut, level := Equalize(offenders, offender, total, old(pending), spammers, cut, level);
        } else {
          FairFirst(old(pending), pending, localAccounts, config.accountSlots, cut, level, offender);
          level := Len(pending, offender);
          assert offenders + [offender] == [offender];
        }
        offenders := offenders + [offender];
      }
      if total > config.globalSlots && offenders != [] {
        total, cut, level := Lower(offenders, total, old(pending), cut, level);
      } else if total > config.globalSlots {
        NobodyAbove(old(pending), pending, localAccounts, config.accountSlots, offenders, level);
      }
      dropped := before - total;
    }

    /** The state between two steps of `truncatePending`: `p0` are the lists it began with. */
    ghost predicate Truncated(p0: AccountLists, offenders: seq<Address>, waiting: set<Address>, total: nat,
                              cut: set<Address>, level: nat)
      reads this`pending, this`localAccounts
    {
      && Fair(p0, pending, localAccounts, config.accountSlots, cut, level) && CutBack(p0, pending)
      && Sorted(p0, pending, localAccounts, config.accountSlots, offenders, waiting)
      && Distinct(offenders) && cut <= Members(offenders) && total == Total(pending)
      && (total > config.globalSlots ==> Level(pending, localAccounts, offenders, level))
      && (offenders != [] ==> level > config.accountSlots)
      && (offenders == [] ==> cut == {})
      && (cut != {} ==> total + |cut| > config.globalSlots)
    }

    method FindSpammers() returns (spammers: set<Address>)
      ensures Spammers(pending, localAccounts, config.accountSlots, spammers)
      ensures Level(pending, localAccounts, [], Total(pending)) && Distinct([]) && CutBack(pending, pending)
    {
      spammers := set a | a in pending && a !in localAccounts && |pending[a]| > config.accountSlots;
    }

    /** Lowers all offenders but the new one to the new one's level, or until the limit holds. */
    method Equalize(group: seq<Address>, offender: Address, pendingCount: nat,
                    ghost p0: AccountLists, ghost waiting: set<Address>, ghost cut0: set<Address>, ghost level0: nat)
      returns (total: nat, ghost cut: set<Address>, ghost level: nat)
      requires Wired() && priced.Slack() >= 0 && Agree(pending, queue, all.Known())
      requires pendingCount > config.globalSlots && group != []
      requires Truncated(p0, group, waiting + {offender}, pendingCount, cut0, level0)
      requires Sorted(p0, pending, localAccounts, config.accountSlots, group + [offender], waiting)
      requires Distinct(group + [offender]) && offender !in localAccounts && offender in pending
      requires OthersWithin(pending, localAccounts, group, Len(pending, offender)) && config.accountSlots < Len(pending, offender)
      modifies this`pending, this`errors, all, priced, pendingNonces
      ensures Wired() && priced.Slack() >= 0 && Agree(pending, queue, all.Known()) && errors == old(errors)
      ensures old(Gapless()) ==> Gapless()
      ensures Truncated(p0, group + [offender], waiting, total, cut, level) && total <= pendingCount
      ensures cut0 <= cut
      ensures forall b :: b !in cut ==> pendingNonces.Virtual(b) == old(pendingNonces.Virtual(b))
    {
      hide Fair, Sorted, Distinct, Members, Level, OthersWithin, Total, Wired, Agree, Gapless, CutBack, TxPricedList.Slack;
      total, cut, level := pendingCount, cut0, level0;
      var threshold := |pending[offender]|;
      EqualizeParts(p0, pending, localAccounts, config.accountSlots, cut, level, group, offender);
      while total > config.globalSlots && Len(pending, group[|group| - 1]) > threshold
        invariant Wired() && priced.Slack() >= 0 && Agree(pending, queue, all.Known()) && errors == old(errors)
        invariant old(Gapless()) ==> Gapless()
        invariant Fair(p0, pending, localAccounts, config.accountSlots, cut, level) && CutBack(p0, pending)
        invariant Sorted(p0, pending, localAccounts, config.accountSlots, group + [offender], waiting)
        invariant Level(pending, localAccounts, group, level) && threshold <= level && cut <= Members(group)
        invariant OthersWithin(pending, localAccounts, group, threshold) && Len(pending, offender) == threshold
        invariant total == Total(pending) && total <= pendingCount && Len(pending, group[|group| - 1]) == level
        invariant cut0 <= cut
        invariant forall b :: b !in cut ==> pendingNonces.Virtual(b) == old(pendingNonces.Virtual(b))
        invariant cut != {} ==> total + |cut| > config.globalSlots
        decreases level
      {
        Round(group, p0, group + [offender], waiting, cut, level, threshold);
        total, cut, level := total - |group|, Members(group), level - 1;
        LevelAt(pending, localAccounts, group, level, group[|group| - 1]);
      }
      if total > config.globalSlots {
        LevelJoin(pending, localAccounts, group, offender, level);
      }
    }

    /** One round of cuts over a group of offenders that stand at the same level. */
    method Round(group: seq<Address>, ghost p0: AccountLists, ghost offenders: seq<Address>, ghost waiting: set<Address>,
                 ghost cut: set<Address>, ghost level: nat, ghost bound: nat)
      requires Wired() && priced.Slack() >= 0 && Agree(pending, queue, all.Known())
      requires Fair(p0, pending, localAccounts, config.accountSlots, cut, level) && cut <= Members(group)
      requires Sorted(p0, pending, localAccounts, config.accountSlots, offenders, waiting) && Members(group) <= Members(offenders)
      requires Level(pending, localAccounts, group, level) && OthersWithin(pending, localAccounts, group, bound)
      requires config.accountSlots <= bound < level
      modifies this`pending, this`errors, all, priced, pendingNonces
      ensures Wired() && priced.Slack() >= 0 && Agree(pending, queue, all.Known()) && errors == old(errors)
      ensures old(Gapless()) ==> Gapless()
      ensures Fair(p0, pending, localAccounts, config.accountSlots, Members(group), level - 1) && CutBack(p0, pending)
      ensures Sorted(p0, pending, localAccounts, config.accountSlots, offenders, waiting)
      ensures Level(pending, localAccounts, group, level - 1) && OthersWithin(pending, localAccounts, group, bound)
      ensures Total(pending) == Total(old(pending)) - |group| && |Members(group)| == |group|
      ensures forall a :: a !in group ==> At(pending, a) == At(old(pending), a)
      ensures forall b :: b !in Members(group) ==> pendingNonces.Virtual(b) == old(pendingNonces.Virtual(b))
    {
      hide *;
      MembersIs(group);
      LevelPresent(pending, localAccounts, group, level);
      OthersBelow(pending, localAccounts, group, bound, level - 1);
      LevelDistinct(pending, localAccounts, group, level);
      CutEach(group);
      FairRound(p0, old(pending), pending, localAccounts, config.accountSlots, group, cut, level);
      SortedRound(p0, old(pending), pending, localAccounts, config.accountSlots, offenders, waiting, group);
      CutAmongOffenders(p0, pending, localAccounts, config.accountSlots, Members(group), level - 1, group);
    }

    /** With nobody waiting, lowers all offenders until the limit holds or all are down to
        their guaranteed slots. */
    method Lower(offenders: seq<Address>, pendingCount: nat, ghost p0: AccountLists, ghost cut0: set<Address>, ghost level0: nat)
      returns (total: nat, ghost cut: set<Address>, ghost level: nat)
      requires Wired() && priced.Slack() >= 0 && Agree(pending, queue, all.Known())
      requires pendingCount > config.globalSlots && offenders != []
      requires Truncated(p0, offenders, {}, pendingCount, cut0, level0)
      modifies this`pending, this`errors, all, priced, pendingNonces
      ensures Wired() && priced.Slack() >= 0 && Agree(pending, queue, all.Known()) && errors == old(errors)
      ensures old(Gapless()) ==> Gapless()
      ensures Fair(p0, pending, localAccounts, config.accountSlots, cut, level) && total == Total(pending) <= pendingCount
      ensures cut != {} ==> total + |cut| > config.globalSlots
      ensures total <= config.globalSlots || forall a :: a !in localAccounts ==> Len(pending, a) <= config.accountSlots
      ensures cut0 <= cut
      ensures forall b :: b !in cut ==> pendingNonces.Virtual(b) == old(pendingNonces.Virtual(b))
    {
      hide Fair, Sorted, Distinct, Members, Level, OthersWithin, Total, Wired, Agree, Gapless, CutBack, TxPricedList.Slack;
      total, cut, level := pendingCount, cut0, level0;
      NobodyAbove(p0, pending, localAccounts, config.accountSlots, offenders, level);
      var last := offenders[|offenders| - 1];
      LevelAt(pending, localAccounts, offenders, level, last);
      while total > config.globalSlots && Len(pending, last) > config.accountSlots
        invariant Wired() && priced.Slack() >= 0 && Agree(pending, queue, all.Known()) && errors == old(errors)
        invariant old(Gapless()) ==> Gapless()
        invariant Fair(p0, pending, localAccounts, config.accountSlots, cut, level) && CutBack(p0, pending)
        invariant Sorted(p0, pending, localAccounts, config.accountSlots, offenders, {})
        invariant Level(pending, localAccounts, offenders, level) && config.accountSlots <= level && cut <= Members(offenders)
        invariant OthersWithin(pending, localAccounts, offenders, config.accountSlots)
        invariant total == Total(pending) && total <= pendingCount && Len(pending, last) == level
        invariant cut0 <= cut
        invariant forall b :: b !in cut ==> pendingNonces.Virtual(b) == old(pendingNonces.Virtual(b))
        invariant cut != {} ==> total + |cut| > config.globalSlots
        decreases level
      {
        Round(offenders, p0, offenders, {}, cut, level, config.accountSlots);
        total, cut, level := total - |offenders|, Members(offenders), level - 1;
        LevelAt(pending, localAccounts, offenders, level, last);
      }
      NobodyAbove(p0, pending, localAccounts, config.accountSlots, offenders, level);
    }

    // ---- Truncation of the queue ----

    /** Removes queued transactions of one account, in the given order. */
    method DropQueued(addr: Address, txs: seq<Tx>)
      requires Wired() && priced.Slack() >= 0 && Agree(pending, queue, all.Known()) && addr in queue
      requires Droppable(queue[addr], txs)
      modifies this`pending, this`queue, this`errors, all, priced, pendingNonces
      ensures Wired() && priced.Slack() >= 0 && Agree(pending, queue, all.Known()) && errors == old(errors)
      ensures pending == old(pending) && queue == Put(old(queue), addr, Drop(old(queue)[addr], txs))
      ensures unchanged(pendingNonces)
      ensures old(Gapless()) ==> Gapless()
    {
      hide *;
      DropParts(pending, queue, all.Known(), addr);
      DropNone(queue, addr, txs);
      for i := 0 to |txs|
        invariant Wired() && priced.Slack() >= 0 && Agree(pending, queue, all.Known()) && errors == old(errors)
        invariant pending == old(pending) && queue == Put(old(queue), addr, Drop(old(queue)[addr], txs[..i]))
        invariant unchanged(pendingNonces)
        invariant old(Gapless()) ==> Gapless()
      {
        DropStep(old(queue), addr, txs, i);
        WhereIs(pending, queue, all.Known(), txs[i]);
        ghost var q := queue;
        RemoveTx(txs[i], true);
        RemovalIs(old(pending), q, pending, queue, txs[i]);
      }
      assert txs[..|txs|] == txs;
    }

    /** Removes all queued transactions of an account. */
    method DropQueue(addr: Address)
      requires Wired() && priced.Slack() >= 0 && Agree(pending, queue, all.Known()) && addr in queue
      modifies this`pending, this`queue, this`errors, all, priced, pendingNonces
      ensures Wired() && priced.Slack() >= 0 && Agree(pending, queue, all.Known()) && errors == old(errors)
      ensures pending == old(pending) && queue == old(queue) - {addr}
      ensures unchanged(pendingNonces)
      ensures old(Gapless()) ==> Gapless()
    {
      hide *;
      DropParts(pending, queue, all.Known(), addr);
      DropListing(queue[addr]);
      DropQueued(addr, SortByNonce(queue[addr]));
    }

    /** Removes the `count` highest queued transactions of an account, the highest first. */
    method DropHighest(addr: Address, count: nat)
      requires Wired() && priced.Slack() >= 0 && Agree(pending, queue, all.Known()) && addr in queue && count < |queue[addr]|
      modifies this`pending, this`queue, this`errors, all, priced, pendingNonces
      ensures Wired() && priced.Slack() >= 0 && Agree(pending, queue, all.Known()) && errors == old(errors)
      ensures pending == old(pending) && queue == Put(old(queue), addr, Lowest(old(queue)[addr], |old(queue)[addr]| - count))
      ensures unchanged(pendingNonces)
      ensures old(Gapless()) ==> Gapless()
    {
      hide *;
      DropParts(pending, queue, all.Known(), addr);
      DropTail(queue[addr], count);
      var txs := SortByNonce(queue[addr]);
      DropQueued(addr, Reversed(txs[|txs| - count..]));
    }

    /** The non-local accounts that have queued transactions, in the order of their last activity. */
    method RemoteQueues(beats: Address -> nat) returns (addresses: seq<Address>)
      ensures Distinct(addresses) && forall a :: a in addresses <==> a in queue && a !in localAccounts
      ensures ByBeat(addresses, beats)
    {
      addresses := [];
      var todo := set a | a in queue && a !in localAccounts;
      while todo != {}
        invariant (forall a :: a in todo ==> a in queue && a !in localAccounts) && Distinct(addresses) && ByBeat(addresses, beats)
        invariant forall a :: a in addresses <==> a in queue && a !in localAccounts && a !in todo
        invariant forall a, b :: a in todo && b in addresses ==> beats(a) <= beats(b)
        decreases todo
      {
        var a := PopMost(todo, beats);
        todo := todo - {a};
        addresses := [a] + addresses;
      }
    }

    /** truncateQueue: drops queued transactions of non-local accounts until the limit holds
        or only local accounts are left. The accounts that were active last lose theirs first. */
    method TruncateQueue(beats: Address -> nat)
      requires Wired() && priced.Slack() >= 0 && Agree(pending, queue, all.Known())
      modifies this`pending, this`queue, this`errors, all, priced, pendingNonces
      ensures Wired() && priced.Slack() >= 0 && Agree(pending, queue, all.Known()) && errors == old(errors)
      ensures unchanged(pendingNonces)
      ensures old(Gapless()) ==> Gapless()
      ensures pending == old(pending)
      ensures Total(old(queue)) <= config.globalQueue ==> queue == old(queue)
      ensures Total(old(queue)) > config.globalQueue ==>
                Total(queue) == config.globalQueue ||
                (Total(queue) > config.globalQueue && forall a :: a in queue ==> a in localAccounts)
      ensures forall a :: At(queue, a) == Lowest(At(old(queue), a), Len(queue, a))
      ensures forall a :: a in localAccounts ==> At(queue, a) == At(old(queue), a)
      ensures LatestFirst(old(queue), queue, localAccounts, beats)
    {
      hide *;
      var queued := Count(queue);
      var addresses := RemoteQueues(beats);
      LatestFirstStart(queue, localAccounts, beats);
      if queued <= config.globalQueue {
        QueueCutStart(queue, localAccounts, addresses, 0);
        QueueCutEnd(queue, queue, localAccounts, addresses, 0);
        return;
      }
      QueueCutStart(queue, localAccounts, addresses, queued - config.globalQueue);
      var left := CutQueues(addresses, queued - config.globalQueue, beats);
      QueueCutEnd(old(queue), queue, localAccounts, [], left);
    }

    /** The loop of `truncateQueue`; `left` is what could not be dropped. */
    method CutQueues(accounts: seq<Address>, overflow: nat, ghost beats: Address -> nat) returns (left: nat)
      requires Wired() && priced.Slack() >= 0 && Agree(pending, queue, all.Known())
      requires QueueCut(queue, queue, localAccounts, accounts, overflow) && Total(queue) == config.globalQueue + overflow
      requires ByBeat(accounts, beats)
      modifies this`pending, this`queue, this`errors, all, priced, pendingNonces
      ensures Wired() && priced.Slack() >= 0 && Agree(pending, queue, all.Known()) && errors == old(errors)
      ensures unchanged(pendingNonces)
      ensures old(Gapless()) ==> Gapless()
      ensures pending == old(pending) && Total(queue) == config.globalQueue + left
      ensures QueueCut(old(queue), queue, localAccounts, [], left) && LatestFirst(old(queue), queue, localAccounts, beats)
    {
      hide *;
      LatestFirstStart(queue, localAccounts, beats);
      var addresses, drop := accounts, overflow;
      while drop > 0 && addresses != []
        invariant Wired() && priced.Slack() >= 0 && Agree(pending, queue, all.Known()) && errors == old(errors)
        invariant old(Gapless()) ==> Gapless()
        invariant pending == old(pending) && unchanged(pendingNonces) && 0 <= drop && Total(queue) == config.globalQueue + drop
        invariant QueueCut(old(queue), queue, localAccounts, addresses, drop)
        invariant ByBeat(addresses, beats) && LatestFirst(old(queue), queue, localAccounts, beats)
        decreases |addresses|
      {
        var addr := addresses[|addresses| - 1];
        ghost var before := queue;
        QueueCutLast(old(queue), queue, localAccounts, addresses, drop);
        QueueTail(pending, queue, all.Known(), addr);
        var kept, rest := CutQueue(addr, drop);
        QueueCutStep(old(queue), before, localAccounts, addresses, drop, kept, rest);
        LatestFirstStep(old(queue), before, localAccounts, addresses, drop, kept, beats);
        drop, addresses := rest, addresses[..|addresses| - 1];
      }
      QueueCutStop(old(queue), queue, localAccounts, addresses, drop);
      left := drop;
    }

    /** Drops up to `drop` of an account's queued transactions, the highest first; `kept` of
        them remain, and `left` more are still to be dropped. */
    method CutQueue(addr: Address, drop: nat) returns (kept: nat, left: nat)
      requires Wired() && priced.Slack() >= 0 && Agree(pending, queue, all.Known()) && addr in queue && drop > 0
      modifies this`pending, this`queue, this`errors, all, priced, pendingNonces
      ensures Wired() && priced.Slack() >= 0 && Agree(pending, queue, all.Known()) && errors == old(errors)
      ensures pending == old(pending) && queue == Put(old(queue), addr, Lowest(old(queue)[addr], kept))
      ensures Total(queue) == Total(old(queue)) - drop + left
      ensures kept < |old(queue)[addr]| && (kept > 0 ==> left == 0) && left <= drop
      ensures unchanged(pendingNonces)
      ensures old(Gapless()) ==> Gapless()
    {
      hide *;
      QueueTail(pending, queue, all.Known(), addr);
      var size := |queue[addr]|;
      if size <= drop {
        TotalPut(queue, addr, map[]);
        DropQueue(addr);
        return 0, drop - size;
      } else {
        LowestSize(queue[addr], size - drop);
        TotalPut(queue, addr, Lowest(queue[addr], size - drop));
        DropHighest(addr, drop);
        return size - drop, 0;
      }
    }

    /** Eviction of an idle account, as the main loop of the pool does it. */
    method Evict(addr: Address)
      requires Wired() && priced.Slack() >= 0 && Agree(pending, queue, all.Known())
      modifies this`pending, this`queue, this`errors, all, priced, pendingNonces
      ensures Wired() && priced.Slack() >= 0 && Agree(pending, queue, all.Known()) && errors == old(errors)
      ensures unchanged(pendingNonces)
      ensures old(Gapless()) ==> Gapless()
      ensures pending == old(pending)
      ensures queue == if addr in localAccounts then old(queue) else old(queue) - {addr}
    {
      hide *;
      if addr in queue && addr !in localAccounts {
        DropQueue(addr);
      }
    }

    // ---- Adding transactions ----

    /** Removes transactions that have been taken out of the price list already. */
    method Expel(drop: seq<Tx>)
      requires Linked() && Agree(pending, queue, all.Known())
      requires Tracks(priced.heap, all.remotes - set t | t in drop) && priced.Slack() >= |drop|
      modifies this`pending, this`queue, this`errors, all, priced, pendingNonces
      ensures Wired() && priced.Slack() >= 0 && Agree(pending, queue, all.Known()) && errors == old(errors)
      ensures all.Known() == old(all.Known()) - set t | t in drop
      ensures old(Gapless()) ==> Gapless()
    {
      hide Linked, Agree, Gapless, Tracks, TxLookup.Known, Put, Removed, Holds, LoweredNonce, TxPricedList.Slack;
      for i := 0 to |drop|
        invariant Linked() && Agree(pending, queue, all.Known()) && errors == old(errors) && unchanged(priced)
        invariant all.Known() == old(all.Known()) - set t | t in drop[..i]
        invariant all.remotes == old(all.remotes) - set t | t in drop[..i]
        invariant old(Gapless()) ==> Gapless()
      {
        RemoveTx(drop[i], false);
        assert drop[..i + 1] == drop[..i] + [drop[i]];
      }
      assert drop[..|drop|] == drop;
      WiredIs();
      SlackKept(old(all.remotes), drop);
    }

    twostate lemma SlackKept(new live: set<Tx>, new drop: seq<Tx>)
      requires unchanged(priced) && Linked() && old(priced.Slack()) >= |drop|
      requires live == old(all.remotes) && all.remotes == live - set t | t in drop
      ensures priced.Slack() >= 0
    {
      MembersAtMost(live, drop);
    }

    method SetGasPrice(price: nat)
      requires Wired() && priced.Slack() >= 0 && Agree(pending, queue, all.Known())
      modifies this`pending, this`queue, this`errors, this`gasPrice, all, priced, pendingNonces
      ensures Wired() && priced.Slack() >= 0 && Agree(pending, queue, all.Known()) && errors == old(errors)
      ensures old(Gapless()) ==> Gapless()
      ensures gasPrice == if config.gasPriceEnabled then price else old(gasPrice)
      ensures all.Known() == set t | t in old(all.Known()) &&
                             !(config.gasPriceEnabled && t in old(all.remotes) && t.price < price)
      ensures forall t :: t in old(all.Known()) && t.sender in localAccounts ==> t in all.Known()
    {
      hide Agree, Gapless, Tracks, TxLookup.Known;
      if !config.gasPriceEnabled {
        return;
      }
      gasPrice := price;
      var drop := priced.Cap(price);
      Expel(drop);
    }

    /** validateTx; `admissible` is the verdict of its checks on size, signature, privacy
        marker, permissions and intrinsic gas. */
    function Validate(tx: Tx, isLocal: bool, admissible: bool): (r: Option<AddError>)
      reads this`maxGas, this`gasPrice, this`state
      ensures r.None? <==>
                && admissible && state.nonce(tx.sender) <= tx.nonce && tx.cost <= state.balance(tx.sender) && tx.gas <= maxGas
                && if config.gasPriceEnabled then isLocal || gasPrice <= tx.price else tx.price == 0
      ensures r.Some? ==> r.value != AlreadyKnown && r.value != ReplaceUnderpriced
    {
      if !admissible then Some(Inadmissible)
      else if maxGas < tx.gas then Some(GasLimit)
      else if !config.gasPriceEnabled && tx.price != 0 then Some(InvalidGasPrice)
      else if config.gasPriceEnabled && !isLocal && tx.price < gasPrice then Some(Underpriced)
      else if tx.nonce < state.nonce(tx.sender) then Some(NonceTooLow)
      else if state.balance(tx.sender) < tx.cost then Some(InsufficientFunds)
      else None
    }

    /** Every refusal names a reason that holds, and no earlier check fails. */
    lemma RefusalsMean(tx: Tx, isLocal: bool, admissible: bool)
      ensures var r := Validate(tx, isLocal, admissible);
              var fits := tx.gas <= maxGas;
              var priced := if config.gasPriceEnabled then isLocal || tx.price >= gasPrice else tx.price == 0;
              && (r == Some(Inadmissible) <==> !admissible)
              && (r == Some(GasLimit) <==> admissible && !fits)
              && (r == Some(InvalidGasPrice) <==> admissible && fits && !priced && !config.gasPriceEnabled)
              && (r == Some(Underpriced) <==> admissible && fits && !priced && config.gasPriceEnabled)
              && (r == Some(NonceTooLow) <==> admissible && fits && priced && tx.nonce < state.nonce(tx.sender))
              && (r == Some(InsufficientFunds) <==>
                    admissible && fits && priced && tx.nonce >= state.nonce(tx.sender) && state.balance(tx.sender) < tx.cost)
    {
    }

    /** Whether the pool has no room left for `tx`. */
    predicate Full(tx: Tx)
      reads all
    {
      |all.locals| + |all.remotes| + tx.slots > config.globalSlots + config.globalQueue
    }

    /** Counting every known transaction once, there is room for the slots of `tx`. */
    ghost predicate RoomFor(tx: Tx)
      reads all
    {
      |all.Known()| + tx.slots <= config.globalSlots + config.globalQueue
    }

    lemma FullMeans(tx: Tx)
      requires Wired()
      ensures Full(tx) <==> !RoomFor(tx)
    {
    }

    lemma NotFull(tx: Tx)
      requires Valid() && |all.Known()| + tx.slots <= config.globalSlots + config.globalQueue
      ensures !Full(tx) && RoomFor(tx)
    {
    }

    /** How many slots must be freed for `tx`. */
    function Missing(tx: Tx): int
      reads all
    {
      all.slots - (config.globalSlots + config.globalQueue) + tx.slots
    }

    /** Whether `tx` would use no more slots than there are. */
    predicate Fits(tx: Tx)
      reads all
    {
      Missing(tx) <= 0
    }

    lemma FitsIs(tx: Tx)
      requires Wired()
      ensures Fits(tx) <==> SumSlots(all.Known()) + tx.slots <= config.globalSlots + config.globalQueue
      ensures Missing(tx) == SumSlots(all.Known()) + tx.slots - (config.globalSlots + config.globalQueue)
    {
    }

    lemma PricedIs()
      requires Linked()
      ensures priced.all == all && (priced.Valid() <==> Tracks(priced.heap, all.remotes) && priced.Slack() >= 0)
    {
    }

    /** The part of `add` that drops the cheapest remote transactions from a full pool. If no live
        transaction has two entries in the price heap, `tx` fits afterwards exactly if it did
        before, or the pool was full and its remote transactions together are large enough. */
    method MakeRoom(tx: Tx, isLocal: bool) returns (error: Option<AddError>, ghost dropped: set<Tx>)
      requires Wired() && priced.Slack() >= 0 && Agree(pending, queue, all.Known())
      modifies this`pending, this`queue, this`errors, all, priced, pendingNonces
      ensures Wired() && priced.Slack() >= 0 && Agree(pending, queue, all.Known()) && errors == old(errors)
      ensures old(Gapless()) ==> Gapless()
      ensures all.Known() == old(all.Known()) - dropped && Cheaper(dropped, old(all.remotes))
      ensures !old(Full(tx)) ==> error.None? && dropped == {} && unchanged(pendingNonces)
      ensures error.Some? ==> dropped == {} && pending == old(pending) && queue == old(queue)
      ensures error == Some(Underpriced) <==> old(Full(tx) && config.gasPriceEnabled && !isLocal && Undercut(tx, all.remotes))
      ensures error.None? && old(Full(tx) && Missing(tx) > 0 && all.remotes != {}) ==> dropped != {}
      ensures error.Some? ==> error == Some(Underpriced) ||
                              (error == Some(Overflow) && !isLocal && SumSlots(old(all.remotes)) < old(Missing(tx)))
      ensures old(Single(priced.heap, all.remotes)) ==>
                && (error == Some(Overflow) <==>
                      error != Some(Underpriced) && old(Full(tx)) && !isLocal && SumSlots(old(all.remotes)) < old(Missing(tx)))
                && (error.None? ==> (Fits(tx) <==> old(Fits(tx)) || (old(Full(tx)) && old(Missing(tx)) <= SumSlots(old(all.remotes)))))
    {
      hide *;
      error, dropped := None, {};
      FitsMissing(tx);
      NothingDropped(all.remotes);
      assert all.Known() - {} == all.Known();
      if !Full(tx) {
        return;
      }
      WiredIs();
      PricedIs();
      if config.gasPriceEnabled && !isLocal {
        var under := priced.Underpriced(tx);
        UndercutIs(tx, all.remotes);
        PricedIs();
        WiredIs();
        SingleKept(old(priced.heap), priced.heap, all.remotes);
        if under {
          return Some(Underpriced), {};
        }
      }
      error, dropped := Displace(tx, isLocal);
    }

    lemma FitsMissing(tx: Tx)
      ensures Fits(tx) <==> Missing(tx) <= 0
    {
    }

    /** Drops the cheapest remote transactions until there is room for `tx`. */
    method Displace(tx: Tx, isLocal: bool) returns (error: Option<AddError>, ghost dropped: set<Tx>)
      requires Wired() && priced.Slack() >= 0 && Agree(pending, queue, all.Known())
      modifies this`pending, this`queue, this`errors, all, priced, pendingNonces
      ensures Wired() && priced.Slack() >= 0 && Agree(pending, queue, all.Known()) && errors == old(errors)
      ensures old(Gapless()) ==> Gapless()
      ensures all.Known() == old(all.Known()) - dropped && Cheaper(dropped, old(all.remotes))
      ensures error.None? && old(Missing(tx) > 0 && all.remotes != {}) ==> dropped != {}
      ensures error.Some? ==>
                && error == Some(Overflow) && !isLocal && SumSlots(old(all.remotes)) < old(Missing(tx))
                && dropped == {} && pending == old(pending) && queue == old(queue)
      ensures old(Single(priced.heap, all.remotes)) ==>
                && (error.Some? <==> !isLocal && SumSlots(old(all.remotes)) < old(Missing(tx)))
                && (error.None? ==> (Fits(tx) <==> old(Missing(tx)) <= SumSlots(old(all.remotes))))
    {
      hide *;
      KnownIs();
      FitsIs(tx);
      WiredIs();
      PricedIs();
      var drop, success := priced.Discard(Missing(tx), isLocal);
      dropped := set t | t in drop;
      DropIsCheaper(drop, all.remotes);
      PricedIs();
      if !isLocal && !success {
        assert all.remotes - (set t | t in drop) == all.remotes;
        WiredIs();
        return Some(Overflow), {};
      }
      RoomMade(all.Known(), all.remotes, drop, old(Missing(tx)), isLocal);
      Expel(drop);
      FitsIs(tx);
      error := None;
    }

    /** Replaces a pending transaction. */
    method ReplacePending(tx: Tx, isLocal: bool) returns (inserted: bool)
      requires Wired() && priced.Slack() >= 0 && Agree(pending, queue, all.Known())
      requires tx !in all.Known() && tx.nonce in At(pending, tx.sender) && state.nonce(tx.sender) <= tx.nonce
      requires isLocal || tx.sender !in localAccounts
      modifies this`pending, this`errors, all, priced
      ensures Wired() && priced.Slack() >= 0 && Agree(pending, queue, all.Known()) && errors == old(errors)
      ensures old(Gapless()) ==> Gapless()
      ensures inserted <==> OutbidsRivals(old(all.Known()), tx, config.priceBump)
      ensures Rivalled(old(all.Known()), tx) && (inserted ==> (tx in all.remotes <==> !isLocal))
      ensures all.Known() == if inserted then Displaced(old(all.Known()), tx) + {tx} else old(all.Known())
    {
      hide *;
      KnownIs();
      var list := At(pending, tx.sender);
      RivalAt(pending, queue, all.Known(), tx, list, config.priceBump);
      PendingReplacement(pending, queue, all.Known(), tx);
      if !Accepts(list, tx, config.priceBump) {
        return false;
      }
      if Gapless() {
        GaplessHere(tx.sender);
        GaplessAddition(list, At(queue, tx.sender), tx, state.nonce(tx.sender), pendingNonces.Virtual(tx.sender));
      }
      pending := pending[tx.sender := With(list, tx)];
      Discard(list[tx.nonce]);
      Enlist(tx, isLocal);
      if old(Gapless()) {
        GaplessPending(tx.sender, With(list, tx));
      }
      inserted := true;
    }

    /** Puts a transaction into the queue of its account. */
    method AddToQueue(tx: Tx, isLocal: bool) returns (inserted: bool, replaced: bool)
      requires Wired() && priced.Slack() >= 0 && Agree(pending, queue, all.Known())
      requires tx !in all.Known() && tx.nonce !in At(pending, tx.sender) && state.nonce(tx.sender) <= tx.nonce
      requires isLocal || tx.sender !in localAccounts
      modifies this`queue, this`errors, all, priced
      ensures Wired() && priced.Slack() >= 0 && Agree(pending, queue, all.Known()) && errors == old(errors)
      ensures old(Gapless()) ==> Gapless()
      ensures inserted <==> OutbidsRivals(old(all.Known()), tx, config.priceBump)
      ensures replaced <==> inserted && Rivalled(old(all.Known()), tx)
      ensures inserted ==> (tx in all.remotes <==> !isLocal)
      ensures all.Known() == if inserted then Displaced(old(all.Known()), tx) + {tx} else old(all.Known())
    {
      hide *;
      WiredIs();
      ghost var list := At(queue, tx.sender);
      RivalAt(pending, queue, all.Known(), tx, list, config.priceBump);
      QueueAddition(pending, queue, all.Known(), tx);
      if Gapless() {
        GaplessHere(tx.sender);
        GaplessAddition(At(pending, tx.sender), list, tx, state.nonce(tx.sender), pendingNonces.Virtual(tx.sender));
      }
      inserted, replaced := EnqueueTx(tx, isLocal, true);
      if old(Gapless()) && inserted {
        GaplessQueue(tx.sender, With(list, tx));
      }
    }

    /** Marks an account as local; its remote transactions become local ones. */
    method MarkLocal(addr: Address)
      requires Wired() && priced.Slack() >= 0
      modifies this`localAccounts, all, priced
      ensures Wired() && priced.Slack() >= 0 && all.Known() == old(all.Known())
      ensures localAccounts == old(localAccounts) + {addr}
      ensures all.remotes == set t | t in old(all.remotes) && t.sender !in localAccounts
    {
      hide SumSlots;
      localAccounts := localAccounts + {addr};
      var migrated := all.RemoteToLocals(localAccounts);
      priced.Removed(migrated);
    }

    /** The part of `add` that stores the transaction. */
    method Admit(tx: Tx, local: bool, isLocal: bool) returns (result: AddResult)
      requires Wired() && priced.Slack() >= 0 && Agree(pending, queue, all.Known())
      requires tx !in all.Known() && state.nonce(tx.sender) <= tx.nonce
      requires isLocal <==> local || tx.sender in localAccounts
      modifies this`pending, this`queue, this`errors, this`localAccounts, all, priced
      ensures Wired() && priced.Slack() >= 0 && Agree(pending, queue, all.Known()) && errors == old(errors)
      ensures old(Gapless()) ==> Gapless()
      ensures result == if OutbidsRivals(old(all.Known()), tx, config.priceBump) then Added(Rivalled(old(all.Known()), tx))
                        else Rejected(ReplaceUnderpriced)
      ensures all.Known() == if result.Added? then Displaced(old(all.Known()), tx) + {tx} else old(all.Known())
      ensures result.Added? ==> (tx in all.remotes <==> !isLocal)
      ensures Follows(result, old(all.Known()), all.Known(), tx, config.priceBump)
      ensures result == Added(false) <==> forall u :: u in old(all.Known()) ==> !(u.sender == tx.sender && u.nonce == tx.nonce)
      ensures forall u :: u in old(all.Known()) && u.sender == tx.sender && u.nonce == tx.nonce ==>
                (result == Added(true) <==> u.price < tx.price && u.price * (100 + config.priceBump) < (tx.price + 1) * 100)
      ensures localAccounts == if local && result.Added? && tx.nonce !in At(old(pending), tx.sender)
                               then old(localAccounts) + {tx.sender} else old(localAccounts)
    {
      hide *;
      ghost var known := all.Known();
      RivalPrices(pending, queue, known, tx, config.priceBump);
      OutpricesIs(tx, config.priceBump);
      if tx.nonce in At(pending, tx.sender) {
        var inserted := ReplacePending(tx, isLocal);
        result := if inserted then Added(true) else Rejected(ReplaceUnderpriced);
        FollowsIs(result, known, all.Known(), tx, config.priceBump);
        return;
      }
      var inserted, replaced := AddToQueue(tx, isLocal);
      result := if inserted then Added(replaced) else Rejected(ReplaceUnderpriced);
      FollowsIs(result, known, all.Known(), tx, config.priceBump);
      if !inserted {
        return;
      }
      if local && tx.sender !in localAccounts {
        MarkLocal(tx.sender);
      }
      assert local ==> localAccounts == old(localAccounts) + {tx.sender};
    }

    /** Adds one transaction. If it is accepted, it takes the place of the known transaction
        with its sender and nonce, if any; besides that only `dropped` leaves the pool. */
    method Add(tx: Tx, local: bool, admissible: bool) returns (result: AddResult, ghost dropped: set<Tx>)
      requires Wired() && priced.Slack() >= 0 && Agree(pending, queue, all.Known())
      modifies this`pending, this`queue, this`errors, this`localAccounts, all, priced, pendingNonces
      ensures Wired() && priced.Slack() >= 0 && Agree(pending, queue, all.Known()) && errors == old(errors)
      ensures old(Gapless()) ==> Gapless()
      ensures Cheaper(dropped, old(all.remotes)) && (dropped != {} ==> old(Full(tx)))
      ensures forall d :: d in dropped ==> d.sender !in old(localAccounts)
      ensures var isLocal := local || tx.sender in old(localAccounts);
              var invalid := old(Validate(tx, isLocal, admissible));
              && (tx in old(all.Known()) <==> result == Rejected(AlreadyKnown))
              && (tx !in old(all.Known()) && invalid.Some? ==> result == Rejected(invalid.value))
              && (tx !in old(all.Known()) && invalid.None? ==>
                    && (result == Rejected(Underpriced) <==> old(Full(tx) && config.gasPriceEnabled && !isLocal && Undercut(tx, all.remotes)))
                    && (result == Rejected(Overflow) ==> !isLocal && old(Full(tx)) && SumSlots(old(all.remotes)) < old(Missing(tx)))
                    && (old(Single(priced.heap, all.remotes)) ==>
                          (result == Rejected(Overflow) <==>
                             result != Rejected(Underpriced) && old(Full(tx)) && !isLocal && SumSlots(old(all.remotes)) < old(Missing(tx))))
                    && (result.Rejected? ==> result.error in {Underpriced, Overflow, ReplaceUnderpriced}))
              && (result.Added? ==> (tx in all.remotes <==> !isLocal))
      ensures Follows(result, old(all.Known()) - dropped, all.Known(), tx, config.priceBump)
      ensures old(RoomFor(tx)) ==>
                && dropped == {} && unchanged(pendingNonces)
                && (tx !in old(all.Known()) && old(Validate(tx, local || tx.sender in localAccounts, admissible)).None? ==>
                      result.Added? || result == Rejected(ReplaceUnderpriced))
      ensures result.Added? && old(!RoomFor(tx) && !Fits(tx) && all.remotes != {}) ==> dropped != {}
      ensures if result.Added? then state.nonce(tx.sender) <= tx.nonce && tx.cost <= state.balance(tx.sender) && tx.gas <= maxGas
              else
                && localAccounts == old(localAccounts)
                && (result.error != ReplaceUnderpriced ==> dropped == {} && pending == old(pending) && queue == old(queue))
      ensures localAccounts == old(localAccounts) || (local && localAccounts == old(localAccounts) + {tx.sender})
      ensures result.Added? && old(Single(priced.heap, all.remotes) && (Fits(tx) || (Full(tx) && Missing(tx) <= SumSlots(all.remotes)))) ==>
                SumSlots(all.Known()) <= config.globalSlots + config.globalQueue
    {
      hide *;
      KnownIs();
      FitsIs(tx);
      FullMeans(tx);
      RemotesAreForeign();
      NothingDropped(all.remotes);
      assert all.Known() - {} == all.Known();
      if tx in all.locals || tx in all.remotes {
        FollowsIs(Rejected(AlreadyKnown), all.Known(), all.Known(), tx, config.priceBump);
        return Rejected(AlreadyKnown), {};
      }
      var isLocal := local || tx.sender in localAccounts;
      var invalid := Validate(tx, isLocal, admissible);
      if invalid.Some? {
        FollowsIs(Rejected(invalid.value), all.Known(), all.Known(), tx, config.priceBump);
        return Rejected(invalid.value), {};
      }
      var error;
      error, dropped := MakeRoom(tx, isLocal);
      CheaperWithin(dropped, old(all.remotes));
      if error.Some? {
        FollowsIs(Rejected(error.value), all.Known(), all.Known(), tx, config.priceBump);
        return Rejected(error.value), dropped;
      }
      ghost var known := all.Known();
      FitsIs(tx);
      DisplacedSlots(known, tx);
      result := Enter(tx, local, isLocal);
    }

    /** What `Add` needs of `Admit`. */
    method Enter(tx: Tx, local: bool, isLocal: bool) returns (result: AddResult)
      requires Wired() && priced.Slack() >= 0 && Agree(pending, queue, all.Known())
      requires tx !in all.Known() && state.nonce(tx.sender) <= tx.nonce
      requires isLocal <==> local || tx.sender in localAccounts
      modifies this`pending, this`queue, this`errors, this`localAccounts, all, priced
      ensures Wired() && priced.Slack() >= 0 && Agree(pending, queue, all.Known()) && errors == old(errors)
      ensures old(Gapless()) ==> Gapless()
      ensures Follows(result, old(all.Known()), all.Known(), tx, config.priceBump)
      ensures result.Added? ==> all.Known() == Displaced(old(all.Known()), tx) + {tx} && (tx in all.remotes <==> !isLocal)
      ensures result.Rejected? ==> result.error == ReplaceUnderpriced && all.Known() == old(all.Known())
      ensures localAccounts == old(localAccounts) || (result.Added? && local && localAccounts == old(localAccounts) + {tx.sender})
    {
      hide *;
      result := Admit(tx, local, isLocal);
    }

    /** `t` passes validation. */
    ghost predicate Passes(t: Tx, isLocal: bool, admissible: Tx -> bool)
      reads this`maxGas, this`gasPrice, this`state
    {
      && admissible(t) && state.nonce(t.sender) <= t.nonce && t.cost <= state.balance(t.sender) && t.gas <= maxGas
      && if config.gasPriceEnabled then isLocal || gasPrice <= t.price else t.price == 0
    }

    lemma PassesIs(t: Tx, isLocal: bool, admissible: Tx -> bool)
      ensures Passes(t, isLocal, admissible) <==> Validate(t, isLocal, admissible(t)).None?
    {
    }

    lemma RoomForIs(tx: Tx)
      ensures RoomFor(tx) <==> |all.Known()| + tx.slots <= config.globalSlots + config.globalQueue
    {
    }

    /** The transactions of the batch that pass validation. */
    ghost function Passers(txs: seq<Tx>, local: bool, admissible: Tx -> bool): set<Tx>
      reads this`maxGas, this`gasPrice, this`state, this`localAccounts
    {
      set t | t in txs && Passes(t, local || t.sender in localAccounts, admissible)
    }

    lemma PassersAre(txs: seq<Tx>, local: bool, admissible: Tx -> bool)
      ensures forall t :: t in Passers(txs, local, admissible) <==> t in txs && Passes(t, local || t.sender in localAccounts, admissible)
    {
    }

    /** One addition of a batch. */
    method AddNext(tx: Tx, local: bool, admissible: Tx -> bool, ghost pass: bool) returns (result: AddResult, ghost dropped: set<Tx>)
      requires Wired() && priced.Slack() >= 0 && Agree(pending, queue, all.Known())
      requires pass ==> Passes(tx, local || tx.sender in localAccounts, admissible)
      modifies this`pending, this`queue, this`errors, this`localAccounts, all, priced, pendingNonces
      ensures Wired() && priced.Slack() >= 0 && Agree(pending, queue, all.Known()) && errors == old(errors)
      ensures old(Gapless()) ==> Gapless()
      ensures AddStep(old(all.Known()), dropped, result, all.Known(), tx, config.priceBump, config.globalSlots + config.globalQueue, pass)
      ensures |old(all.Known())| + tx.slots <= config.globalSlots + config.globalQueue ==>
                unchanged(pendingNonces) && |all.Known()| <= |old(all.Known())| + 1
      ensures !local ==> localAccounts == old(localAccounts)
    {
      hide *;
      ghost var known := all.Known();
      PassesIs(tx, local || tx.sender in localAccounts, admissible);
      RoomForIs(tx);
      result, dropped := Add(tx, local, admissible(tx));
      AddStepIs(known, dropped, result, all.Known(), tx, config.priceBump, config.globalSlots + config.globalQueue, pass);
      assert dropped == {} ==> known - dropped == known;
      FollowsCount(result, known - dropped, all.Known(), tx, config.priceBump);
    }

    /** addTxsLocked: adds transactions one by one. `dirty` are the accounts with a new entry;
        `stages` are the known transactions before, between and after the additions, and
        `drops` what left at each addition to make room. */
    method AddTxs(txs: seq<Tx>, local: bool, admissible: Tx -> bool)
      returns (results: seq<AddResult>, dirty: set<Address>, ghost stages: seq<set<Tx>>, ghost drops: seq<set<Tx>>)
      requires Wired() && priced.Slack() >= 0 && Agree(pending, queue, all.Known())
      modifies this`pending, this`queue, this`errors, this`localAccounts, all, priced, pendingNonces
      ensures Wired() && priced.Slack() >= 0 && Agree(pending, queue, all.Known()) && errors == old(errors)
      ensures old(Gapless()) ==> Gapless()
      ensures |stages| == |txs| + 1 && stages[0] == old(all.Known()) && stages[|txs|] == all.Known() && dirty == Dirty(txs, results)
      ensures AddSteps(stages, drops, results, txs, config.priceBump, config.globalSlots + config.globalQueue,
                       old(Passers(txs, local, admissible)))
      ensures txs == [] ==> pending == old(pending) && queue == old(queue)
      ensures Roomy(|old(all.Known())|, txs, config.globalSlots + config.globalQueue) ==> unchanged(pendingNonces)
      ensures !local ==> localAccounts == old(localAccounts)
      ensures Batched(old(all.Known()), all.Known(), txs, config.globalSlots + config.globalQueue, old(Passers(txs, local, admissible)))
    {
      hide *;
      ghost var roomy := Roomy(|all.Known()|, txs, config.globalSlots + config.globalQueue);
      results, dirty, stages, drops := [], {}, [all.Known()], [];
      DirtyNone(txs);
      ghost var passing := Passers(txs, local, admissible);
      PassersAre(txs, local, admissible);
      for i := 0 to |txs|
        invariant Wired() && priced.Slack() >= 0 && Agree(pending, queue, all.Known()) && errors == old(errors)
        invariant old(Gapless()) ==> Gapless()
        invariant |results| == |drops| == i == |stages| - 1 && dirty == Dirty(txs, results)
        invariant stages[0] == old(all.Known()) && stages[i] == all.Known()
        invariant forall j :: 0 <= j < i ==>
                    AddStep(stages[j], drops[j], results[j], stages[j + 1], txs[j], config.priceBump, config.globalSlots + config.globalQueue,
                            txs[j] in passing)
        invariant i == 0 ==> pending == old(pending) && queue == old(queue)
        invariant roomy ==> |all.Known()| <= |old(all.Known())| + i && unchanged(pendingNonces)
        invariant !local ==> localAccounts == old(localAccounts)
      {
        var result;
        ghost var dropped;
        RoomAtTurn(|old(all.Known())|, |all.Known()|, txs, i, config.globalSlots + config.globalQueue);
        result, dropped := AddNext(txs[i], local, admissible, txs[i] in passing);
        DirtyNext(txs, results, result);
        results, drops, stages := results + [result], drops + [dropped], stages + [all.Known()];
        if result == Added(false) {
          dirty := dirty + {txs[i].sender};
        }
      }
      AddStepsAre(stages, drops, results, txs, config.priceBump, config.globalSlots + config.globalQueue, passing);
      BatchPlaces(stages, drops, results, txs, config.priceBump, config.globalSlots + config.globalQueue, passing);
    }

    // ---- Head resets ----

    /** reset: adopts the state of the new head and adds abandoned transactions again. */
    method Reset(h: HeadChange, admissible: Tx -> bool)
      requires Wired() && priced.Slack() >= 0 && Agree(pending, queue, all.Known())
      modifies this, all, priced, pendingNonces
      ensures Wired() && priced.Slack() >= 0 && Agree(pending, queue, all.Known()) && errors == old(errors)
      ensures pendingNonces == old(pendingNonces) || fresh(pendingNonces)
      ensures state == (if h.NewHead? then h.state else old(state)) && maxGas == (if h.NewHead? then h.maxGas else old(maxGas))
      ensures localAccounts == old(localAccounts) && gasPrice == old(gasPrice)
      ensures h.Unreachable? || h.reinject == [] ==> forall a :: Of(a) == Restarted(a, old(Of(a)), h)
      ensures h.NewHead? && Roomy(|old(all.Known())|, h.reinject, config.globalSlots + config.globalQueue) ==>
                forall a :: pendingNonces.Virtual(a) == h.state.nonce(a)
      ensures h.Unreachable? ==> all.Known() == old(all.Known())
      ensures h.NewHead? ==>
                Batched(old(all.Known()), all.Known(), h.reinject, config.globalSlots + config.globalQueue, Passers(h.reinject, false, admissible))
    {
      hide *;
      RestartedIs(h);
      OfIs();
      if h.Unreachable? {
        return;
      }
      state, maxGas := h.state, h.maxGas;
      pendingNonces := new TxNoncer(h.state.nonce);
      RoomyNone(|all.Known()|, config.globalSlots + config.globalQueue);
      var results, dirty;
      ghost var stages, drops;
      results, dirty, stages, drops := AddTxs(h.reinject, false, admissible);
      OfIs();
    }

    /** An account's share before the limits are enforced, from its share once the head was adopted. */
    function Arranged(a: Address, x: Account, reset: bool, dirty: set<Address>): Account
      reads this`state, this`maxGas, this`localAccounts
    {
      if reset then DemotedHere(a, PromotedHere(a, x)) else if a in dirty then PromotedHere(a, x) else x
    }

    lemma ArrangedIs(a: Address, x: Account, reset: bool, dirty: set<Address>)
      ensures Arranged(a, x, reset, dirty) ==
              if reset then DemotedHere(a, PromotedHere(a, x)) else if a in dirty then PromotedHere(a, x) else x
    {
    }

    /** runReorg: resets if requested, promotes, demotes after a reset, enforces the limits and
        lets the virtual nonces follow the pending lists. */
    method RunReorg(reset: Option<HeadChange>, dirty: set<Address>, beats: Address -> nat, admissible: Tx -> bool)
      returns (promoted: seq<Tx>, ghost trail: Trail)
      requires Wired() && priced.Slack() >= 0 && Agree(pending, queue, all.Known())
      modifies this, all, priced, pendingNonces
      ensures Wired() && priced.Slack() >= 0 && Agree(pending, queue, all.Known()) && errors == old(errors)
      ensures pendingNonces == old(pendingNonces) || fresh(pendingNonces)
      ensures old(Gapless()) && Plain(reset) ==> (Gapless() <==> !Blocked(old(Snap()), reset, config.gasPriceEnabled))
      ensures old(Gapless()) && reset.None? ==> forall a :: a in dirty ==> Exhausted(Of(a))
      ensures reset.None? ==> forall t :: Holds(pending, t) ==> Holds(old(pending), t) || t in promoted
      ensures reset.None? ==> forall t :: t in promoted ==> t.sender in dirty && !Holds(old(pending), t)
      ensures Total(pending) <= config.globalSlots || forall a :: a !in localAccounts ==> Len(pending, a) <= config.accountSlots
      ensures Total(queue) <= config.globalQueue || forall a :: a in queue ==> a in localAccounts
      ensures forall a :: a in pending ==> pendingNonces.Virtual(a) == Greatest(pending[a].Keys) + 1
      ensures state == StateOf(reset, old(state)) && maxGas == GasOf(reset, old(maxGas)) && localAccounts == old(localAccounts)
      ensures gasPrice == old(gasPrice)
      ensures Adopted(reset, old(all.Known()), trail.known, admissible) && Shares(trail.adopted, trail.known)
      ensures Plain(reset) ==> forall a :: trail.adopted[a] == if reset.Some? then Restarted(a, old(Of(a)), reset.value) else old(Of(a))
      ensures StartsOver(reset, trail.adopted, |old(all.Known())|, config.globalSlots + config.globalQueue)
      ensures forall a :: var x := Arranged(a, trail.adopted[a], reset.Some?, dirty); At(trail.pending, a) == x.pending && At(trail.queue, a) == x.queue
      ensures Enforced(trail.pending, trail.queue, pending, queue, localAccounts, config, beats)
      ensures reset.Some? ==> forall t :: t in promoted <==>
                Has(PromotedHere(t.sender, trail.adopted[t.sender]).pending, t) && !Has(trail.adopted[t.sender].pending, t)
    {
      hide *;
      ghost var plain := Gapless() && Plain(reset);
      ghost var bad := if plain then Blockers(Snap(), reset, config.gasPriceEnabled, true) else iset{};
      ghost var good := if plain then Blockers(Snap(), reset, config.gasPriceEnabled, false) else iset{};
      BlockersAre(Snap(), reset, config.gasPriceEnabled);
      ghost var spent := if Gapless() && reset.None? then dirty else {};
      ghost var known, adopted;
      promoted, known, adopted := Rearrange(reset, dirty, admissible);
      OfIs();
      trail := Trail(known, adopted, pending, queue);
      Enforce(beats, good, bad, spent);
      if plain {
        GaplessUnless(good, bad);
      }
    }

    /** What adopting the head makes of the known transactions. */
    ghost predicate Adopted(reset: Option<HeadChange>, known: set<Tx>, after: set<Tx>, admissible: Tx -> bool)
      reads this`maxGas, this`gasPrice, this`state, this`localAccounts
    {
      if reset.Some? && reset.value.NewHead?
      then Batched(known, after, reset.value.reinject, config.globalSlots + config.globalQueue, Passers(reset.value.reinject, false, admissible))
      else after == known
    }

    lemma AdoptedIs(reset: Option<HeadChange>, known: set<Tx>, after: set<Tx>, admissible: Tx -> bool)
      ensures Adopted(reset, known, after, admissible) <==>
              if reset.Some? && reset.value.NewHead?
              then Batched(known, after, reset.value.reinject, config.globalSlots + config.globalQueue, Passers(reset.value.reinject, false, admissible))
              else after == known
    {
    }

    lemma GaplessUnless(good: iset<Address>, bad: iset<Address>)
      requires forall a: Address :: a !in bad ==> a in good
      requires forall a :: a in good ==> GaplessAt(At(pending, a), At(queue, a), state.nonce(a), pendingNonces.Virtual(a))
      requires forall a :: a in bad ==> Stranded(Of(a), state.nonce(a))
      ensures Gapless() <==> forall a: Address :: a !in bad
    {
      forall a | a in bad ensures !GaplessAt(At(pending, a), At(queue, a), state.nonce(a), pendingNonces.Virtual(a)) {
        assert Stranded(Of(a), state.nonce(a));
        assert state.nonce(a) !in At(pending, a);
      }
    }

    /** The part of `runReorg` that enforces the limits. */
    method Enforce(beats: Address -> nat, ghost good: iset<Address>, ghost bad: iset<Address>, ghost spent: set<Address>)
      requires Wired() && priced.Slack() >= 0 && Agree(pending, queue, all.Known())
      requires forall a :: a in good ==> Settled(Of(a), state.nonce(a))
      requires forall a :: a in bad ==> Stranded(Of(a), state.nonce(a))
      requires (spent != {} ==> Gapless()) && forall a :: a in spent ==> Exhausted(Of(a))
      modifies this`pending, this`queue, this`errors, all, priced, pendingNonces
      ensures Wired() && priced.Slack() >= 0 && Agree(pending, queue, all.Known()) && errors == old(errors)
      ensures Total(pending) <= config.globalSlots || forall a :: a !in localAccounts ==> Len(pending, a) <= config.accountSlots
      ensures Total(queue) <= config.globalQueue || forall a :: a in queue ==> a in localAccounts
      ensures forall a :: a in pending ==> pendingNonces.Virtual(a) == Greatest(pending[a].Keys) + 1
      ensures forall a :: a in good ==> GaplessAt(At(pending, a), At(queue, a), state.nonce(a), pendingNonces.Virtual(a))
      ensures forall a :: a in bad ==> Stranded(Of(a), state.nonce(a))
      ensures forall a :: a in spent ==> Exhausted(Of(a))
      ensures forall t :: Holds(pending, t) ==> Holds(old(pending), t)
      ensures Enforced(old(pending), old(queue), pending, queue, localAccounts, config, beats)
    {
      hide *;
      label rearranged:
      var dropped, cut, level := TruncatePending();
      FairHolds(old(pending), pending, localAccounts, config.accountSlots, cut, level);
      KeptAfterCut@rearranged(good, bad, cut, level);
      if spent != {} {
        SpentAfterCut@rearranged(cut, level, spent);
      }
      label cut_back:
      TruncateQueue(beats);
      KeptAfterDrop@cut_back(good, bad);
      EnforcedIs(old(pending), old(queue), pending, queue, localAccounts, config, beats, cut, level);
      ghost var fine := good;
      if spent != {} {
        GaplessIsSettled();
        fine := iset a: Address | Settled(Of(a), state.nonce(a));
        assert forall a: Address :: a in fine;
      }
      label dropped_back:
      FollowPending();
      KeptAfterFollowing@dropped_back(fine, bad);
      if spent != {} {
        GaplessUnless(fine, iset{});
        SpentAfterDrop@cut_back(spent);
      }
    }

    /** The part of `runReorg` before the limits are enforced. */
    method Rearrange(reset: Option<HeadChange>, dirty: set<Address>, admissible: Tx -> bool)
      returns (promoted: seq<Tx>, ghost known: set<Tx>, ghost adopted: imap<Address, Account>)
      requires Wired() && priced.Slack() >= 0 && Agree(pending, queue, all.Known())
      modifies this, all, priced, pendingNonces
      ensures Wired() && priced.Slack() >= 0 && Agree(pending, queue, all.Known()) && errors == old(errors)
      ensures pendingNonces == old(pendingNonces) || fresh(pendingNonces)
      ensures state == StateOf(reset, old(state)) && maxGas == GasOf(reset, old(maxGas)) && localAccounts == old(localAccounts)
      ensures gasPrice == old(gasPrice)
      ensures old(Gapless()) && Plain(reset) ==>
                forall a :: if BlocksAt(old(Snap()), reset, config.gasPriceEnabled, a) then Stranded(Of(a), state.nonce(a))
                            else Settled(Of(a), state.nonce(a))
      ensures old(Gapless()) && reset.None? ==> Gapless()
      ensures reset.None? ==> forall a :: a in dirty ==> Exhausted(Of(a))
      ensures reset.None? ==> forall t :: t in promoted <==> Holds(pending, t) && !Holds(old(pending), t)
      ensures reset.None? ==> forall t :: t in promoted ==> t.sender in dirty
      ensures Adopted(reset, old(all.Known()), known, admissible) && Shares(adopted, known) && forall a: Address :: a in adopted
      ensures Plain(reset) ==> forall a :: adopted[a] == if reset.Some? then Restarted(a, old(Of(a)), reset.value) else old(Of(a))
      ensures StartsOver(reset, adopted, |old(all.Known())|, config.globalSlots + config.globalQueue)
      ensures forall a :: Of(a) == Arranged(a, adopted[a], reset.Some?, dirty)
      ensures reset.Some? ==> forall t :: t in promoted <==>
                Has(PromotedHere(t.sender, adopted[t.sender]).pending, t) && !Has(adopted[t.sender].pending, t)
    {
      hide *;
      StateOfIs(reset, state, maxGas);
      BlockedIs(Snap(), reset, config.gasPriceEnabled);
      if reset.Some? {
        promoted, known, adopted := Adopt(reset.value, admissible);
        forall a ensures Of(a) == Arranged(a, adopted[a], true, dirty) {
          assert Of(a) == DemotedHere(a, PromotedHere(a, adopted[a]));
          ArrangedIs(a, adopted[a], true, dirty);
        }
        return;
      }
      known, adopted := all.Known(), Snap().accounts;
      SnapIs();
      SnapShares();
      var accounts := Flatten(dirty);
      promoted := PromoteExecutables(accounts);
      forall a ensures Of(a) == Arranged(a, adopted[a], false, dirty) {
        ArrangedIs(a, adopted[a], false, dirty);
      }
      AdoptedIs(reset, known, known, admissible);
      StartsOverIs(reset, adopted, |known|, config.globalSlots + config.globalQueue);
      PromotedIsSpent(dirty);
      if Gapless() {
        GaplessIsSettled();
      }
    }

    /** The part of `runReorg` that a reset adds. `known` are the known transactions and `adopted` the
        accounts' shares once abandoned transactions have been added again. */
    method Adopt(h: HeadChange, admissible: Tx -> bool)
      returns (promoted: seq<Tx>, ghost known: set<Tx>, ghost adopted: imap<Address, Account>)
      requires Wired() && priced.Slack() >= 0 && Agree(pending, queue, all.Known())
      modifies this, all, priced, pendingNonces
      ensures Wired() && priced.Slack() >= 0 && Agree(pending, queue, all.Known()) && errors == old(errors)
      ensures pendingNonces == old(pendingNonces) || fresh(pendingNonces)
      ensures state == StateOf(Some(h), old(state)) && maxGas == GasOf(Some(h), old(maxGas)) && localAccounts == old(localAccounts)
      ensures gasPrice == old(gasPrice)
      ensures Adopted(Some(h), old(all.Known()), known, admissible) && Shares(adopted, known) && forall a: Address :: a in adopted
      ensures forall a :: Of(a) == DemotedHere(a, PromotedHere(a, adopted[a]))
      ensures forall t :: t in promoted <==> Has(PromotedHere(t.sender, adopted[t.sender]).pending, t) && !Has(adopted[t.sender].pending, t)
      ensures Plain(Some(h)) ==> forall a :: adopted[a] == Restarted(a, old(Of(a)), h)
      ensures StartsOver(Some(h), adopted, |old(all.Known())|, config.globalSlots + config.globalQueue)
      ensures forall a, lo, hi :: lo <= hi && Spans(adopted[a].pending, lo, hi) && adopted[a].virtual == state.nonce(a) ==>
                (Settled(Of(a), state.nonce(a)) <==>
                 !Breaks(adopted[a], lo, hi, state.nonce(a), state.balance(a), maxGas, config.gasPriceEnabled))
      ensures old(Gapless()) && Plain(Some(h)) ==>
                forall a :: if BlocksAt(old(Snap()), Some(h), config.gasPriceEnabled, a) then Stranded(Of(a), state.nonce(a))
                            else Settled(Of(a), state.nonce(a))
    {
      hide *;
      StateOfIs(Some(h), state, maxGas);
      PlainIs(h);
      Reset(h, admissible);
      known, adopted := all.Known(), Snap().accounts;
      SnapIs();
      OfIs();
      StartsOverIs(Some(h), adopted, |old(all.Known())|, config.globalSlots + config.globalQueue);
      SnapApart();
      SnapShares();
      AdoptedIs(Some(h), old(all.Known()), known, admissible);
      promoted := Readjust();
      SettledUnlessBroken(adopted);
      if old(Gapless()) && Plain(Some(h)) {
        SettledByReset(h);
      }
    }

    lemma SnapShares()
      requires Agree(pending, queue, all.Known())
      ensures Shares(Snap().accounts, all.Known())
    {
      hide WellFormed, Apart;
    }

    lemma OfHolds()
      ensures forall t :: Holds(pending, t) <==> Has(Of(t.sender).pending, t)
    {
    }

    /** Promotes every queued account and demotes every pending one. */
    method Readjust() returns (promoted: seq<Tx>)
      requires Wired() && priced.Slack() >= 0 && Agree(pending, queue, all.Known())
      modifies this`pending, this`queue, this`errors, all, priced, pendingNonces
      ensures Wired() && priced.Slack() >= 0 && Agree(pending, queue, all.Known()) && errors == old(errors)
      ensures forall a :: Of(a) == DemotedHere(a, PromotedHere(a, old(Of(a))))
      ensures forall t :: t in promoted <==>
                Has(PromotedHere(t.sender, old(Of(t.sender))).pending, t) && !Has(old(Of(t.sender)).pending, t)
    {
      hide *;
      OfHolds();
      var accounts := Flatten(queue.Keys);
      NoneQueuedElsewhere(accounts);
      promoted := PromoteExecutables(accounts);
      OfHolds();
      DemoteUnexecutables();
    }

    lemma SnapApart()
      requires Agree(pending, queue, all.Known())
      ensures AllApart(Snap().accounts)
    {
    }

    lemma SettledUnlessBroken(adopted: imap<Address, Account>)
      requires AllApart(adopted) && forall a :: a in adopted && Of(a) == DemotedHere(a, PromotedHere(a, adopted[a]))
      ensures forall a, lo, hi :: lo <= hi && Spans(adopted[a].pending, lo, hi) && adopted[a].virtual == state.nonce(a) ==>
                (Settled(Of(a), state.nonce(a)) <==>
                 !Breaks(adopted[a], lo, hi, state.nonce(a), state.balance(a), maxGas, config.gasPriceEnabled))
    {
      hide Promoted, Demoted, Breaks, Settled, Spans, Of;
      forall a, lo: nat, hi: nat | lo <= hi && Spans(adopted[a].pending, lo, hi) && adopted[a].virtual == state.nonce(a)
        ensures Settled(Of(a), state.nonce(a)) <==>
                !Breaks(adopted[a], lo, hi, state.nonce(a), state.balance(a), maxGas, config.gasPriceEnabled)
      {
        ResetSettles(adopted[a], lo, hi, state.nonce(a), state.balance(a), maxGas, config.gasPriceEnabled, QueueLimit(a));
      }
    }

    /** A queue gives promotion nothing to do if it is empty. */
    lemma NoneQueuedElsewhere(accounts: seq<Address>)
      requires forall a :: a in accounts <==> a in queue.Keys
      ensures forall a :: a !in accounts ==> PromotedHere(a, Of(a)) == Of(a)
    {
      hide Promoted;
      forall a | a !in accounts ensures PromotedHere(a, Of(a)) == Of(a) {
        NoneQueued(a);
      }
    }

    twostate lemma SettledByReset(new h: HeadChange)
      requires old(Gapless()) && Plain(Some(h)) && state == StateOf(Some(h), old(state)) && maxGas == GasOf(Some(h), old(maxGas))
      requires forall a :: Of(a) == DemotedHere(a, PromotedHere(a, Restarted(a, old(Of(a)), h)))
      ensures forall a :: if BlocksAt(old(Snap()), Some(h), config.gasPriceEnabled, a) then Stranded(Of(a), state.nonce(a))
                          else Settled(Of(a), state.nonce(a))
    {
      hide Promoted, Demoted, GaplessAt, Settled, Stranded, Blocks;
      forall a ensures if BlocksAt(old(Snap()), Some(h), config.gasPriceEnabled, a) then Stranded(Of(a), state.nonce(a))
                       else Settled(Of(a), state.nonce(a))
      {
        assert old(GaplessAt(At(pending, a), At(queue, a), state.nonce(a), pendingNonces.Virtual(a)));
        assert Of(a) == DemotedHere(a, PromotedHere(a, Restarted(a, old(Of(a)), h)));
        if h.NewHead? {
          PlainResetSettles(old(Of(a)), old(state.nonce(a)), state.nonce(a), state.balance(a), maxGas, config.gasPriceEnabled, QueueLimit(a));
        } else {
          StandstillSettles(old(Of(a)), state.nonce(a), state.balance(a), maxGas, config.gasPriceEnabled, QueueLimit(a));
        }
      }
    }

    twostate lemma PromotedIsSpent(new dirty: set<Address>)
      requires forall a :: Of(a) == if a in dirty then PromotedHere(a, old(Of(a))) else old(Of(a))
      ensures forall a :: a in dirty ==> Exhausted(Of(a))
      ensures forall t :: Holds(pending, t) && !Holds(old(pending), t) ==> t.sender in dirty
    {
      hide Promoted, Exhausted, At;
      forall t | Holds(pending, t) && !Holds(old(pending), t) ensures t.sender in dirty {
        assert t.sender !in dirty ==> Of(t.sender) == old(Of(t.sender));
      }
      forall a | a in dirty ensures Exhausted(Of(a)) {
        PromotionExhausts(old(Of(a)), state.nonce(a), state.balance(a), maxGas, config.gasPriceEnabled, QueueLimit(a));
      }
    }

    /** accountSet.flatten: the accounts in some order. */
    method Flatten(accounts: set<Address>) returns (list: seq<Address>)
      ensures Distinct(list) && forall a :: a in list <==> a in accounts
    {
      list := [];
      var todo := accounts;
      while todo != {}
        invariant todo <= accounts && Distinct(list)
        invariant forall a :: a in list <==> a in accounts && a !in todo
        decreases todo
      {
        var a :| a in todo;
        todo := todo - {a};
        list := list + [a];
      }
    }

    /** Sets every virtual nonce to the one after the account's last pending transaction. */
    method FollowPending()
      requires Agree(pending, queue, all.Known())
      modifies pendingNonces
      ensures forall a :: pendingNonces.Virtual(a) ==
                          if a in pending then Greatest(pending[a].Keys) + 1 else old(pendingNonces.Virtual(a))
    {
      hide *;
      NoneEmpty(pending, queue, all.Known());
      var todo := pending.Keys;
      while todo != {}
        invariant todo <= pending.Keys
        invariant forall a :: a !in pending || a in todo ==> pendingNonces.Virtual(a) == old(pendingNonces.Virtual(a))
        invariant forall a :: a in pending && a !in todo ==> pendingNonces.Virtual(a) == Greatest(pending[a].Keys) + 1
        decreases todo
      {
        var a :| a in todo;
        todo := todo - {a};
        pendingNonces.Set(a, Greatest(pending[a].Keys) + 1);
      }
    }

    twostate lemma KeptAfterFollowing(new good: iset<Address>, new bad: iset<Address>)
      requires forall a :: a in good ==> old(Settled(Of(a), state.nonce(a)))
      requires forall a :: a in bad ==> old(Stranded(Of(a), state.nonce(a)))
      requires pending == old(pending) && queue == old(queue) && state == old(state) && Agree(pending, queue, all.Known())
      requires forall a :: pendingNonces.Virtual(a) ==
                           if a in pending then Greatest(pending[a].Keys) + 1 else old(pendingNonces.Virtual(a))
      ensures forall a :: a in good ==> GaplessAt(At(pending, a), At(queue, a), state.nonce(a), pendingNonces.Virtual(a))
      ensures forall a :: a in bad ==> Stranded(Of(a), state.nonce(a))
    {
      hide Greatest, GaplessAt, Spans, Owned;
      forall a | a in good ensures GaplessAt(At(pending, a), At(queue, a), state.nonce(a), pendingNonces.Virtual(a)) {
        assert old(Settled(Of(a), state.nonce(a)));
        SettledIsGapless(At(pending, a), At(queue, a), state.nonce(a), pendingNonces.Virtual(a));
      }
      forall a | a in bad ensures Stranded(Of(a), state.nonce(a)) {
        assert old(Stranded(Of(a), state.nonce(a)));
      }
    }

    lemma GaplessIsSettled()
      requires Gapless()
      ensures forall a :: Settled(Of(a), state.nonce(a))
    {
      forall a ensures Settled(Of(a), state.nonce(a)) {
        assert GaplessAt(At(pending, a), At(queue, a), state.nonce(a), pendingNonces.Virtual(a));
        SpanSize(At(pending, a), state.nonce(a), pendingNonces.Virtual(a));
      }
    }

    twostate lemma KeptAfterCut(new good: iset<Address>, new bad: iset<Address>, new cut: set<Address>, new level: nat)
      requires forall a :: a in good ==> old(Settled(Of(a), state.nonce(a)))
      requires forall a :: a in bad ==> old(Stranded(Of(a), state.nonce(a)))
      requires queue == old(queue) && state == old(state) && Agree(pending, queue, all.Known())
      requires Fair(old(pending), pending, localAccounts, config.accountSlots, cut, level)
      requires forall a :: a !in cut ==> pendingNonces.Virtual(a) == old(pendingNonces.Virtual(a))
      ensures forall a :: a in good ==> Settled(Of(a), state.nonce(a))
      ensures forall a :: a in bad ==> Stranded(Of(a), state.nonce(a))
    {
      hide SettledAt, Lowest, Owned;
      forall a | a in good ensures Settled(Of(a), state.nonce(a)) {
        assert old(Settled(Of(a), state.nonce(a)));
        LowestKeeps(At(old(pending), a), Len(pending, a));
        EmptyIsSettled(At(old(pending), a), At(queue, a), state.nonce(a), old(pendingNonces.Virtual(a)));
        CutSettles(At(old(pending), a), At(queue, a), state.nonce(a), old(pendingNonces.Virtual(a)),
                   Len(pending, a), pendingNonces.Virtual(a));
      }
      forall a | a in bad ensures Stranded(Of(a), state.nonce(a)) {
        assert old(Stranded(Of(a), state.nonce(a)));
        LowestKeeps(At(old(pending), a), Len(pending, a));
        assert |At(old(pending), a)| == 0;
      }
    }

    twostate lemma KeptAfterDrop(new good: iset<Address>, new bad: iset<Address>)
      requires forall a :: a in good ==> old(Settled(Of(a), state.nonce(a)))
      requires forall a :: a in bad ==> old(Stranded(Of(a), state.nonce(a)))
      requires pending == old(pending) && state == old(state)
      requires forall a :: At(queue, a) == Lowest(At(old(queue), a), Len(queue, a))
      requires pendingNonces == old(pendingNonces) && unchanged(pendingNonces)
      ensures forall a :: a in good ==> Settled(Of(a), state.nonce(a))
      ensures forall a :: a in bad ==> Stranded(Of(a), state.nonce(a))
    {
      hide Lowest, Spans;
      forall a | a in good ensures Settled(Of(a), state.nonce(a)) {
        assert old(Settled(Of(a), state.nonce(a)));
        LowestKeeps(At(old(queue), a), Len(queue, a));
      }
      forall a | a in bad ensures Stranded(Of(a), state.nonce(a)) {
        assert old(Stranded(Of(a), state.nonce(a)));
      }
    }

    /** Cutting pending lists back only lowers virtual nonces. */
    twostate lemma SpentAfterCut(new cut: set<Address>, new level: nat, new spent: set<Address>)
      requires old(Gapless()) && Gapless() && queue == old(queue) && state == old(state)
      requires Fair(old(pending), pending, localAccounts, config.accountSlots, cut, level)
      requires forall a :: a in spent ==> old(Exhausted(Of(a)))
      ensures forall a :: a in spent ==> Exhausted(Of(a))
    {
      hide Lowest;
      forall a | a in spent ensures Exhausted(Of(a)) {
        assert old(Exhausted(Of(a)));
        LowestKeeps(At(old(pending), a), Len(pending, a));
        assert old(GaplessAt(At(pending, a), At(queue, a), state.nonce(a), pendingNonces.Virtual(a)));
        assert GaplessAt(At(pending, a), At(queue, a), state.nonce(a), pendingNonces.Virtual(a));
        SpanSize(At(old(pending), a), state.nonce(a), old(pendingNonces.Virtual(a)));
        SpanSize(At(pending, a), state.nonce(a), pendingNonces.Virtual(a));
      }
    }

    /** Shorter queues stay exhausted, and the virtual nonces were following already. */
    twostate lemma SpentAfterDrop(new spent: set<Address>)
      requires old(Gapless()) && Gapless() && pending == old(pending) && state == old(state)
      requires forall a :: At(queue, a) == Lowest(At(old(queue), a), Len(queue, a))
      requires forall a :: a in spent ==> old(Exhausted(Of(a)))
      ensures forall a :: a in spent ==> Exhausted(Of(a))
    {
      hide Lowest;
      forall a | a in spent ensures Exhausted(Of(a)) {
        assert old(Exhausted(Of(a)));
        LowestKeeps(At(old(queue), a), Len(queue, a));
        assert old(GaplessAt(At(pending, a), At(queue, a), state.nonce(a), pendingNonces.Virtual(a)));
        assert GaplessAt(At(pending, a), At(queue, a), state.nonce(a), pendingNonces.Virtual(a));
        SpanSize(At(pending, a), state.nonce(a), old(pendingNonces.Virtual(a)));
        SpanSize(At(pending, a), state.nonce(a), pendingNonces.Virtual(a));
      }
    }

    // ---- Whole runs ----

    /** Any sequence of operations keeps the indexes in agreement. `stages` is the pool before,
        between and after the operations. */
    method Run(ops: seq<Operation>, admissible: Tx -> bool) returns (ghost stages: seq<Snapshot>)
      requires Valid()
      modifies this, all, priced, pendingNonces
      ensures Valid() && errors == old(errors) && state == StateAfter(ops, old(state))
      ensures Staged(stages, ops, config, admissible) && stages[0] == old(Snap()) && stages[|ops|] == Snap()
      ensures old(Gapless()) && (forall op :: op in ops ==> Steady(ResetOf(op), config.gasPriceEnabled)) ==> Gapless()
    {
      hide *;
      ValidIs();
      SnapIs();
      stages := [Snap()];
      StagedNone(Snap(), config, admissible);
      assert ops[..0] == [];
      for i := 0 to |ops|
        invariant Wired() && priced.Slack() >= 0 && Agree(pending, queue, all.Known()) && errors == old(errors)
        invariant pendingNonces == old(pendingNonces) || fresh(pendingNonces)
        invariant |stages| == i + 1 && stages[0] == old(Snap()) && stages[i] == Snap()
        invariant Staged(stages, ops[..i], config, admissible)
        invariant StateAfter(ops[i..], state) == StateAfter(ops, old(state))
      {
        assert ops[i..][0] == ops[i];
        StateAfterStep(ops[i..], state);
        SnapIs();
        ResetOfIs(ops[i]);
        BlockedIs(Snap(), ResetOf(ops[i]), config.gasPriceEnabled);
        Perform(ops[i], admissible);
        SnapIs();
        StagedNext(stages, ops[..i], config, admissible, ops[i], Snap());
        stages := stages + [Snap()];
        assert ops[..i + 1] == ops[..i] + [ops[i]];
        assert ops[i + 1..] == ops[i..][1..];
      }
      assert ops[..|ops|] == ops;
      StateAfterStep(ops[|ops|..], state);
      ValidIs();
      SnapIs();
      if GaplessIn(stages[0]) && forall op :: op in ops ==> Steady(ResetOf(op), config.gasPriceEnabled) {
        GaplessIfSteady(stages, ops, config, admissible);
      }
    }

    method Perform(op: Operation, admissible: Tx -> bool)
      requires Wired() && priced.Slack() >= 0 && Agree(pending, queue, all.Known())
      modifies this, all, priced, pendingNonces
      ensures Wired() && priced.Slack() >= 0 && Agree(pending, queue, all.Known()) && errors == old(errors)
      ensures pendingNonces == old(pendingNonces) || fresh(pendingNonces)
      ensures state == StateOf(ResetOf(op), old(state))
      ensures old(Gapless()) && Plain(ResetOf(op)) ==>
                (Gapless() <==> !Blocked(old(Snap()), ResetOf(op), config.gasPriceEnabled))
      ensures Effect(old(Snap()), op, Snap(), config, admissible)
    {
      hide *;
      ResetOfIs(op);
      StateOfIs(ResetOf(op), state, maxGas);
      BlockedIs(Snap(), ResetOf(op), config.gasPriceEnabled);
      match op {
        case AddTxs(txs, local) =>
          var results, dirty;
          ghost var stages, drops;
          results, dirty, stages, drops := AddTxs(txs, local, admissible);
          AdditionEffect(txs, local, admissible);
        case SetGasPrice(price) =>
          SetGasPrice(price);
          PriceEffect(price, admissible);
        case Evict(addr) =>
          Evict(addr);
          EvictionEffect(addr, admissible);
        case Reorg(reset, dirty, beats) =>
          var promoted;
          ghost var trail;
          promoted, trail := RunReorg(reset, dirty, beats, admissible);
          ReorgEffect(reset, dirty, beats, admissible, trail);
      }
    }

    twostate lemma AdditionEffect(new txs: seq<Tx>, new local: bool, new admissible: Tx -> bool)
      requires state == old(state) && maxGas == old(maxGas) && gasPrice == old(gasPrice) && (!local ==> localAccounts == old(localAccounts))
      requires Batched(old(all.Known()), all.Known(), txs, config.globalSlots + config.globalQueue, old(Passers(txs, local, admissible)))
      ensures Effect(old(Snap()), Operation.AddTxs(txs, local), Snap(), config, admissible)
    {
      hide Batched;
      assert Passing(old(Snap()), txs, local, admissible, config.gasPriceEnabled) == old(Passers(txs, local, admissible));
    }

    twostate lemma PriceEffect(new price: nat, new admissible: Tx -> bool)
      requires state == old(state) && maxGas == old(maxGas) && localAccounts == old(localAccounts)
      requires gasPrice == if config.gasPriceEnabled then price else old(gasPrice)
      requires all.Known() == set t | t in old(all.Known()) && !(config.gasPriceEnabled && t in old(all.remotes) && t.price < price)
      ensures Effect(old(Snap()), Operation.SetGasPrice(price), Snap(), config, admissible)
    {
    }

    twostate lemma EvictionEffect(new addr: Address, new admissible: Tx -> bool)
      requires state == old(state) && maxGas == old(maxGas) && localAccounts == old(localAccounts) && gasPrice == old(gasPrice)
      requires pending == old(pending) && queue == if addr in localAccounts then old(queue) else old(queue) - {addr}
      ensures Effect(old(Snap()), Operation.Evict(addr), Snap(), config, admissible)
    {
    }

    twostate lemma ReorgEffect(new reset: Option<HeadChange>, new dirty: set<Address>, new beats: Address -> nat,
                               new admissible: Tx -> bool, new trail: Trail)
      requires state == StateOf(reset, old(state)) && maxGas == GasOf(reset, old(maxGas)) && localAccounts == old(localAccounts)
      requires gasPrice == old(gasPrice)
      requires Adopted(reset, old(all.Known()), trail.known, admissible) && Shares(trail.adopted, trail.known)
      requires Plain(reset) ==> forall a :: trail.adopted[a] == if reset.Some? then Restarted(a, old(Of(a)), reset.value) else old(Of(a))
      requires StartsOver(reset, trail.adopted, |old(all.Known())|, config.globalSlots + config.globalQueue)
      requires forall a :: var x := Arranged(a, trail.adopted[a], reset.Some?, dirty); At(trail.pending, a) == x.pending && At(trail.queue, a) == x.queue
      requires Enforced(trail.pending, trail.queue, pending, queue, localAccounts, config, beats)
      ensures Effect(old(Snap()), Reorg(reset, dirty, beats), Snap(), config, admissible)
    {
      hide Batched, Enforced, StartsOver, Promoted, Demoted, Restarted, Snap, Of, Has, Effect, Arranged, ArrangedIn, Passing, Passers, At;
      SnapBefore();
      SnapFields();
      if reset.Some? && reset.value.NewHead? {
        PassingIs(reset.value.reinject, admissible);
      }
      var s, t := old(Snap()), Snap();
      forall a ensures var x := ArrangedIn(t, a, trail.adopted[a], reset.Some?, dirty, config);
                       At(trail.pending, a) == x.pending && At(trail.queue, a) == x.queue
      {
        ArrangedSame(a, trail.adopted[a], reset.Some?, dirty);
      }
      ReorganisesBy(s, reset, dirty, beats, t, config, admissible, trail);
    }

    twostate lemma SnapBefore()
      ensures var s := old(Snap());
              && s.known == old(all.Known()) && s.locals == old(localAccounts)
              && s.state == old(state) && s.maxGas == old(maxGas) && s.gasPrice == old(gasPrice)
              && forall a :: a in s.accounts && s.accounts[a] == old(Of(a))
    {
    }

    lemma SnapFields()
      ensures var s := Snap();
              && s.pending == pending && s.queue == queue && s.known == all.Known() && s.locals == localAccounts
              && s.state == state && s.maxGas == maxGas && s.gasPrice == gasPrice
              && forall a :: a in s.accounts && s.accounts[a] == Of(a)
    {
    }

    lemma PassingIs(txs: seq<Tx>, admissible: Tx -> bool)
      ensures Passing(Snap(), txs, false, admissible, config.gasPriceEnabled) == Passers(txs, false, admissible)
    {
    }

    lemma ArrangedSame(a: Address, x: Account, reset: bool, dirty: set<Address>)
      ensures ArrangedIn(Snap(), a, x, reset, dirty, config) == Arranged(a, x, reset, dirty)
    {
      hide Promoted, Demoted;
    }

    lemma ValidIs()
      ensures Valid() <==> Wired() && priced.Slack() >= 0 && Agree(pending, queue, all.Known())
    {
    }

    lemma GaplessHere(a: Address)
      requires Gapless()
      ensures GaplessAt(At(pending, a), At(queue, a), state.nonce(a), pendingNonces.Virtual(a))
    {
    }

    /** If only account `a` has changed and it is gapless, gapless accounts stay gapless. */
    twostate lemma GaplessElsewhere(new a: Address, new l: TxMap, new r: TxMap)
      requires old(Gapless()) && state == old(state)
      requires pending == Put(old(pending), a, l) && queue == Put(old(queue), a, r)
      requires forall b :: b != a ==> pendingNonces.Virtual(b) == old(pendingNonces.Virtual(b))
      requires GaplessAt(l, r, state.nonce(a), pendingNonces.Virtual(a))
      ensures Gapless()
    {
      hide GaplessAt, Put;
      AtPut(old(pending), a, l);
      AtPut(old(queue), a, r);
      forall b ensures GaplessAt(At(pending, b), At(queue, b), state.nonce(b), pendingNonces.Virtual(b)) {
        if b != a {
          assert old(GaplessAt(At(pending, b), At(queue, b), state.nonce(b), pendingNonces.Virtual(b)));
        }
      }
    }

    twostate lemma GaplessPending(new a: Address, new l: TxMap)
      requires old(Gapless()) && state == old(state)
      requires pending == Put(old(pending), a, l) && queue == old(queue)
      requires forall b :: b != a ==> pendingNonces.Virtual(b) == old(pendingNonces.Virtual(b))
      requires GaplessAt(l, At(queue, a), state.nonce(a), pendingNonces.Virtual(a))
      ensures Gapless()
    {
      hide GaplessAt, Put;
      AtPut(old(pending), a, l);
      forall b ensures GaplessAt(At(pending, b), At(queue, b), state.nonce(b), pendingNonces.Virtual(b)) {
        if b != a {
          assert old(GaplessAt(At(pending, b), At(queue, b), state.nonce(b), pendingNonces.Virtual(b)));
        }
      }
    }

    twostate lemma GaplessQueue(new a: Address, new r: TxMap)
      requires old(Gapless()) && state == old(state)
      requires pending == old(pending) && queue == Put(old(queue), a, r)
      requires forall b :: pendingNonces.Virtual(b) == old(pendingNonces.Virtual(b))
      requires GaplessAt(At(pending, a), r, state.nonce(a), pendingNonces.Virtual(a))
      ensures Gapless()
    {
      hide GaplessAt, Put;
      AtPut(old(queue), a, r);
      forall b ensures GaplessAt(At(pending, b), At(queue, b), state.nonce(b), pendingNonces.Virtual(b)) {
        if b != a {
          assert old(GaplessAt(At(pending, b), At(queue, b), state.nonce(b), pendingNonces.Virtual(b)));
        }
      }
    }
  }

  lemma FollowsAlone(result: AddResult, known: set<Tx>, after: set<Tx>, tx: Tx, bump: nat)
    requires Follows(result, known, after, tx, bump) && forall t :: t in known ==> t.sender != tx.sender
    ensures result.Added? ==> after == known + {tx}
    ensures result.Rejected? ==> result.error != ReplaceUnderpriced
  {
  }

  /** A valid remote transaction without a rival is accepted unless the pool is full. */
  method Accept(pool: TxPool, tx: Tx)
    requires pool.Valid() && tx !in pool.all.Known() && tx.sender !in pool.localAccounts
    requires pool.Validate(tx, false, true).None? && pool.RoomFor(tx)
    requires forall t :: t in pool.all.Known() ==> t.sender != tx.sender
    modifies pool, pool.all, pool.priced, pool.pendingNonces
    ensures pool.Valid() && pool.all.Known() == old(pool.all.Known()) + {tx} && pool.localAccounts == old(pool.localAccounts)
    ensures pool.state == old(pool.state) && pool.maxGas == old(pool.maxGas) && pool.pendingNonces == old(pool.pendingNonces)
  {
    hide *;
    pool.ValidIs();
    var result;
    ghost var dropped;
    result, dropped := pool.Add(tx, false, true);
    assert old(pool.all.Known()) - {} == old(pool.all.Known());
    FollowsAlone(result, old(pool.all.Known()), pool.all.Known(), tx, pool.config.priceBump);
    pool.ValidIs();
  }

  /** The pool counts transactions to see whether it is full, but slots to make room: two remote
      transactions of four slots each are accepted by a pool of five slots. */
  method TooManySlots(t: Tx, u: Tx) returns (pool: TxPool)
    requires t.sender != u.sender && t.slots == u.slots == 4 && t.price == u.price == 0
    ensures pool.Valid() && pool.all.Known() == {t, u}
    ensures SumSlots(pool.all.Known()) == 8 && pool.config.globalSlots + pool.config.globalQueue == 5
  {
    hide *;
    var config := Config(1, 10, 16, 4, 64, 1, false);
    SanitizeKeeps(config);
    pool := new TxPool(config, StateDB(a => 0, a => t.cost + u.cost), t.gas + u.gas, {});
    Payable(t, t.cost + u.cost, t.gas + u.gas);
    Payable(u, t.cost + u.cost, t.gas + u.gas);
    pool.NotFull(t);
    Accept(pool, t);
    pool.NotFull(u);
    Accept(pool, u);
    assert pool.all.Known() == {t, u};
    TwoSlots(t, u);
  }

  lemma SanitizeKeeps(c: Config)
    requires c.priceLimit > 0 && c.priceBump > 0 && c.accountSlots > 0 && c.globalSlots > 0 && c.accountQueue > 0 && c.globalQueue > 0
    ensures Sanitize(c) == c
  {
  }

  /** Settings of zero become the defaults, whatever the others are. */
  lemma SanitizeDefaults(c: Config)
    ensures Sanitize(Config(0, 0, 0, 0, 0, 0, c.gasPriceEnabled)) == Config(1, 10, 16, 4096, 64, 1024, c.gasPriceEnabled)
    ensures c.priceLimit > 0 ==> Sanitize(c).priceLimit == c.priceLimit
    ensures c.priceBump > 0 ==> Sanitize(c).priceBump == c.priceBump
    ensures c.accountSlots > 0 ==> Sanitize(c).accountSlots == c.accountSlots
    ensures c.globalSlots > 0 ==> Sanitize(c).globalSlots == c.globalSlots
    ensures c.accountQueue > 0 ==> Sanitize(c).accountQueue == c.accountQueue
    ensures c.globalQueue > 0 ==> Sanitize(c).globalQueue == c.globalQueue
    ensures Sanitize(Sanitize(c)) == Sanitize(c) && Sanitize(c).gasPriceEnabled == c.gasPriceEnabled
  {
  }

  lemma Payable(t: Tx, balance: nat, maxGas: nat)
    ensures t.cost <= balance && t.gas <= maxGas ==> !TooCostly(t, balance, maxGas)
  {
  }

  lemma TwoSlots(t: Tx, u: Tx)
    requires t != u
    ensures SumSlots({t, u}) == t.slots + u.slots
  {
    SumSlotsAdd({}, t);
    SumSlotsAdd({t}, u);
    assert {} + {t} == {t} && {t} + {u} == {t, u};
  }
}
