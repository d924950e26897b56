/** Gas and value accounting of core/gaspool.go, core/state_transition.go and
    core/state_processor.go, with private transactions. The virtual machine is a function that
    the accounting knows only by what it must not do. */
module GasAccounting {
  import opened Transactions
  import opened Ledgers

  const TX_GAS: nat := 21000
  const TX_GAS_CONTRACT_CREATION: nat := 53000
  const DATA_ZERO_GAS: nat := 4
  const DATA_NON_ZERO_GAS_FRONTIER: nat := 68
  const DATA_NON_ZERO_GAS_ISTANBUL: nat := 16
  const ACCESS_LIST_ADDRESS_GAS: nat := 2400
  const ACCESS_LIST_KEY_GAS: nat := 1900

  type Uint64 = n: nat | n <= MAX_UINT64

  type Byte = n: nat | n < 256

  function Wrap(n: nat): Uint64 {
    n % (MAX_UINT64 + 1)
  }

  datatype AccessList = NoList | AccessList(addresses: nat, keys: nat)

  datatype Message = Message(from: Address, to: Option<Address>, gas: Uint64, gasPrice: nat, value: nat, nonce: nat,
                             checkNonce: bool, data: seq<Byte>, accessList: AccessList, isPrivate: bool, isInner: bool)

  /** The public state: balances, nonces and the refund counter of the running transaction. */
  datatype World = World(balances: Balances, nonces: map<Address, nat>, refund: nat)

  function NonceOf(w: World, a: Address): nat {
    if a in w.nonces then w.nonces[a] else 0
  }

  function Bumped(w: World, a: Address): World {
    w.(nonces := w.nonces[a := NonceOf(w, a) + 1])
  }

  datatype VmError = NoVmError | InsufficientBalance | NotAuthorized | OtherFailure

  datatype Ran = Ran(world: World, leftover: nat, error: VmError)

  type Evm = (World, Message, nat) -> Ran

  /** The machine returns no more gas than it got, moves money without making or losing any, and
      a private message does not change public balances, nor, as a call, public nonces. */
  ghost predicate Sound(evm: Evm) {
    forall w, m, g :: var r := evm(w, m, g);
      && r.leftover <= g && Total(r.world.balances) == Total(w.balances)
      && (m.isPrivate ==> r.world.balances == w.balances && (m.to.Some? ==> r.world.nonces == w.nonces))
  }

  /** What the privacy manager says about a private payload. */
  datatype Receive = ReceiveFails | Received(empty: bool)

  datatype Verdict = Passes | Refuses | Invalid

  datatype Env = Env(isQuorum: bool, homestead: bool, istanbul: bool, coinbase: Address, reward: Option<Address>,
                     receive: Receive, prepare: Verdict, verify: Verdict)

  datatype TxError = NonceTooHigh | NonceTooLow | InsufficientFunds | GasLimitReached | PrivacyError | GasUintOverflow
    | IntrinsicGasTooLow | InsufficientFundsForTransfer | VmRefused | NoRewardAccount | InvalidGasPrice | NotPermitted | PayloadMissing

  /** `refunded` says whether the unused gas was returned; some early exits of private
      transactions skip that. */
  datatype Result = Failed(error: TxError) | Applied(usedGas: nat, refunded: bool)

  // ---- Intrinsic gas ----

  function NonZeros(data: seq<Byte>): nat {
    if data == [] then 0 else NonZeros(data[..|data| - 1]) + if data[|data| - 1] != 0 then 1 else 0
  }

  lemma {:induction false} NonZerosAtMost(data: seq<Byte>)
    ensures NonZeros(data) <= |data|
    decreases |data|
  {
    if data != [] {
      NonZerosAtMost(data[..|data| - 1]);
    }
  }

  /** The positions of the bytes that are not zero. */
  ghost function NonZeroBytes(data: seq<Byte>): set<nat> {
    set i: nat | i < |data| && data[i] != 0
  }

  lemma {:induction false} NonZerosCount(data: seq<Byte>)
    ensures NonZeros(data) == |NonZeroBytes(data)|
    decreases |data|
  {
    if data != [] {
      var n := |data| - 1;
      var init := data[..n];
      NonZerosCount(init);
      assert NonZeroBytes(data) == NonZeroBytes(init) + if data[n] != 0 then {n} else {};
    } else {
      assert NonZeroBytes(data) == {};
    }
  }

  /** What the data and the access list cost: every byte that is not zero and every zero byte has its
      price, and so have the addresses and keys of the list. */
  ghost function Tariff(data: seq<Byte>, creation: bool, homestead: bool, istanbul: bool): int {
    var nonZeros := |NonZeroBytes(data)|;
    (if creation && homestead then 53000 else 21000) + nonZeros * (if istanbul then 16 else 68) + (|data| - nonZeros) * 4
  }

  ghost function ListTariff(list: AccessList): int {
    if list.NoList? then 0 else list.addresses * 2400 + list.keys * 1900
  }

  lemma TariffIs(data: seq<Byte>, list: AccessList, creation: bool, homestead: bool, istanbul: bool)
    ensures DataGas(data, creation, homestead, istanbul) == Tariff(data, creation, homestead, istanbul)
    ensures ListGas(list) == ListTariff(list)
  {
    NonZerosCount(data);
  }

  function BaseGas(creation: bool, homestead: bool): nat {
    if creation && homestead then TX_GAS_CONTRACT_CREATION else TX_GAS
  }

  function NonZeroGas(istanbul: bool): nat {
    if istanbul then DATA_NON_ZERO_GAS_ISTANBUL else DATA_NON_ZERO_GAS_FRONTIER
  }

  /** What the data costs, in unbounded arithmetic. */
  function DataGas(data: seq<Byte>, creation: bool, homestead: bool, istanbul: bool): nat {
    NonZerosAtMost(data);
    BaseGas(creation, homestead) + NonZeros(data) * NonZeroGas(istanbul) + (|data| - NonZeros(data)) * DATA_ZERO_GAS
  }

  function ListGas(list: AccessList): nat {
    if list.NoList? then 0 else list.addresses * ACCESS_LIST_ADDRESS_GAS + list.keys * ACCESS_LIST_KEY_GAS
  }

  /** The source's test for overflow, which itself cannot overflow, is exact. */
  lemma OverflowTest(gas: nat, n: nat, cost: nat)
    requires gas <= MAX_UINT64 && cost > 0
    ensures (MAX_UINT64 - gas) / cost < n <==> gas + n * cost > MAX_UINT64
  {
    var room := MAX_UINT64 - gas;
    var q, r := room / cost, room % cost;
    assert room == q * cost + r;
    if q < n {
      MulMonotone(q + 1, n, cost);
      assert (q + 1) * cost == q * cost + cost;
    } else {
      MulMonotone(n, q, cost);
    }
  }

  lemma MulMonotone(a: nat, b: nat, c: nat)
    requires a <= b
    ensures a * c <= b * c
  {
    assert b * c == a * c + (b - a) * c;
  }

  method CountNonZeros(data: seq<Byte>) returns (nz: nat)
    ensures nz == NonZeros(data) <= |data|
  {
    nz := 0;
    for i := 0 to |data|
      invariant nz == NonZeros(data[..i])
    {
      assert data[..i + 1][..i] == data[..i];
      if data[i] != 0 {
        nz := nz + 1;
      }
    }
    assert data[..|data|] == data;
    NonZerosAtMost(data);
  }

  /** Fails exactly if the data alone costs more than 64 bits can hold; the access list is added
      without a check. */
  method IntrinsicGas(data: seq<Byte>, list: AccessList, creation: bool, homestead: bool, istanbul: bool) returns (r: Option<Uint64>)
    ensures r.None? <==> DataGas(data, creation, homestead, istanbul) > MAX_UINT64
    ensures r.Some? ==> r.value == Wrap(DataGas(data, creation, homestead, istanbul) + ListGas(list))
    ensures r.None? <==> Tariff(data, creation, homestead, istanbul) > 0xFFFF_FFFF_FFFF_FFFF
    ensures r.Some? ==> r.value == (Tariff(data, creation, homestead, istanbul) + ListTariff(list)) % 0x1_0000_0000_0000_0000
  {
    TariffIs(data, list, creation, homestead, istanbul);
    WrapIs(DataGas(data, creation, homestead, istanbul) + ListGas(list));
    hide NonZeros, Wrap, Tariff, ListTariff;
    var gas: nat := BaseGas(creation, homestead);
    var nz := CountNonZeros(data);
    if |data| > 0 {
      var cost := NonZeroGas(istanbul);
      OverflowTest(gas, nz, cost);
      if (MAX_UINT64 - gas) / cost < nz {
        return None;
      }
      gas := gas + nz * cost;
      var z := |data| - nz;
      OverflowTest(gas, z, DATA_ZERO_GAS);
      if (MAX_UINT64 - gas) / DATA_ZERO_GAS < z {
        return None;
      }
      gas := gas + z * DATA_ZERO_GAS;
    }
    r := Some(AddList(gas, list));
  }

  /** The access list's cost is added with wrap-around. */
  function AddList(gas: Uint64, list: AccessList): (r: Uint64)
    ensures r == Wrap(gas + ListGas(list))
    ensures gas + ListGas(list) <= MAX_UINT64 ==> r == gas + ListGas(list)
  {
    WrapSmall(gas + ListGas(list));
    if list.NoList? then gas else
      var addresses, keys := list.addresses * ACCESS_LIST_ADDRESS_GAS, list.keys * ACCESS_LIST_KEY_GAS;
      WrapAdds(gas, addresses, keys);
      Wrap(Wrap(gas + Wrap(addresses)) + Wrap(keys))
  }

  lemma WrapIs(n: nat)
    ensures Wrap(n) == n % 0x1_0000_0000_0000_0000
  {
  }

  lemma WrapSmall(n: nat)
    ensures n <= MAX_UINT64 ==> Wrap(n) == n
  {
  }

  lemma WrapAdds(a: nat, b: nat, c: nat)
    ensures Wrap(Wrap(a + Wrap(b)) + Wrap(c)) == Wrap(a + b + c)
  {
    WrapAdd(a, b);
    WrapAdd(c, a + b);
    WrapAdd(Wrap(a + b), c);
    hide Wrap;
  }

  lemma WrapAdd(a: nat, b: nat)
    ensures Wrap(a + Wrap(b)) == Wrap(a + b)
  {
  }

  // ---- One transaction ----

  class GasPool {
    var gas: Uint64

    constructor (gas: Uint64)
      ensures this.gas == gas
    {
      this.gas := gas;
    }

    /** The source panics instead of exceeding 64 bits; every caller is shown not to. */
    method AddGas(amount: nat)
      requires gas + amount <= MAX_UINT64
      modifies this
      ensures gas == old(gas) + amount
    {
      gas := gas + amount;
    }

    method SubGas(amount: nat) returns (ok: bool)
      modifies this
      ensures ok <==> amount <= old(gas)
      ensures gas == if ok then old(gas) - amount else old(gas)
    {
      if gas < amount {
        return false;
      }
      gas := gas - amount;
      return true;
    }
  }

  function IntrinsicCost(msg: Message, env: Env): nat {
    Wrap(DataGas(msg.data, msg.to.None?, env.homestead, env.istanbul) + ListGas(msg.accessList))
  }

  predicate Private(msg: Message, env: Env) {
    env.isQuorum && msg.isPrivate
  }

  function Price(msg: Message, gas: nat): nat {
    gas * msg.gasPrice
  }

  /** The part of the used gas that is forgiven. */
  function Forgiven(msg: Message, used: nat, counter: nat): (r: nat)
    ensures r <= used
  {
    if msg.isInner then used else if used / 2 > counter then counter else used / 2
  }

  /** The gas returned to the sender and to the pool, when `left` was not spent. */
  function Returned(w: World, msg: Message, left: nat): (r: nat)
    requires left <= msg.gas
    ensures left <= r <= msg.gas
  {
    left + Forgiven(msg, msg.gas - left, w.refund)
  }

  /** The state after the unused gas is returned and the used gas is paid to the beneficiary. */
  function Closed(w: World, msg: Message, left: nat, beneficiary: Address): World
    requires left <= msg.gas
  {
    var back := Returned(w, msg, left);
    w.(balances := Credit(Credit(w.balances, msg.from, Price(msg, back)), beneficiary, Price(msg, msg.gas - back)))
  }

  /** Closing returns to the accounts exactly what the gas was bought for. */
  lemma ClosedTotal(w: World, msg: Message, left: nat, beneficiary: Address)
    requires left <= msg.gas
    ensures Total(Closed(w, msg, left, beneficiary).balances) == Total(w.balances) + Price(msg, msg.gas)
  {
    var back := Returned(w, msg, left);
    TotalMoves(w.balances, msg.from, Price(msg, back));
    TotalMoves(Credit(w.balances, msg.from, Price(msg, back)), beneficiary, Price(msg, msg.gas - back));
    PriceAdds(msg, back);
  }

  lemma PriceAdds(msg: Message, part: nat)
    requires part <= msg.gas
    ensures Price(msg, part) + Price(msg, msg.gas - part) == Price(msg, msg.gas)
  {
    assert part * msg.gasPrice + (msg.gas - part) * msg.gasPrice == (part + (msg.gas - part)) * msg.gasPrice;
  }

  // ---- What a message does ----

  predicate Affordable(w: World, msg: Message) {
    Price(msg, msg.gas) <= Balance(w.balances, msg.from)
  }

  /** The state after the gas has been bought. */
  function Bought(w: World, msg: Message): World
    requires Affordable(w, msg)
  {
    w.(balances := Debit(w.balances, msg.from, Price(msg, msg.gas)))
  }

  /** The state handed to the machine: for a call the sender's nonce has been bumped. */
  function Started(w: World, msg: Message): World
    requires Affordable(w, msg)
  {
    if msg.to.Some? then Bumped(Bought(w, msg), msg.from) else Bought(w, msg)
  }

  /** A private call without payload does not reach the machine. */
  predicate EmptyCall(msg: Message, env: Env) {
    Private(msg, env) && msg.to.Some? && env.receive == Received(true)
  }

  /** A private message can end before its gas is settled. */
  predicate Skips(msg: Message, env: Env) {
    Private(msg, env) && (env.receive.ReceiveFails? || env.prepare.Refuses? || (env.verify.Refuses? && !EmptyCall(msg, env)))
  }

  /** What is left when the gas is settled. A private message keeps the gas it brought. */
  function RunOf(w: World, msg: Message, env: Env, evm: Evm): Ran
    requires Affordable(w, msg) && IntrinsicCost(msg, env) <= msg.gas
  {
    var gas := msg.gas - IntrinsicCost(msg, env);
    if EmptyCall(msg, env) then Ran(Started(w, msg), gas, NoVmError) else
      var r := evm(Started(w, msg), msg, gas);
      if Private(msg, env) then r.(leftover := gas) else r
  }

  function Beneficiary(msg: Message, env: Env): Address {
    if EmptyCall(msg, env) || env.reward.None? then env.coinbase else env.reward.value
  }

  /** Why a message is refused before any gas is bought. */
  function Barrier(w: World, pool: nat, msg: Message): (r: Option<TxError>)
    ensures r.None? ==> Affordable(w, msg) && msg.gas <= pool
  {
    if msg.checkNonce && NonceOf(w, msg.from) < msg.nonce then Some(NonceTooHigh)
    else if msg.checkNonce && NonceOf(w, msg.from) > msg.nonce then Some(NonceTooLow)
    else if !Affordable(w, msg) then Some(InsufficientFunds)
    else if pool < msg.gas then Some(GasLimitReached)
    else None
  }

  /** Why the intrinsic gas or the value cannot be paid. */
  function Shortage(w: World, msg: Message, env: Env): (r: Option<TxError>)
    ensures r.None? ==> IntrinsicCost(msg, env) <= msg.gas
  {
    if DataGas(msg.data, msg.to.None?, env.homestead, env.istanbul) > MAX_UINT64 then Some(GasUintOverflow)
    else if msg.gas < IntrinsicCost(msg, env) then Some(IntrinsicGasTooLow)
    else if msg.value > 0 && Balance(w.balances, msg.from) < msg.value then Some(InsufficientFundsForTransfer)
    else None
  }

  /** Why a run is not accepted. */
  function Rejection(msg: Message, env: Env, error: VmError): Option<TxError> {
    if error.InsufficientBalance? || error.NotAuthorized? then Some(VmRefused)
    else if Private(msg, env) && env.verify.Invalid? then Some(PrivacyError)
    else if Private(msg, env) && env.verify.Refuses? then None
    else if env.reward.None? then Some(NoRewardAccount)
    else None
  }

  /** The error of a message, if it has one. */
  function Refusal(w: World, pool: nat, msg: Message, env: Env, evm: Evm): Option<TxError> {
    if Barrier(w, pool, msg).Some? then Barrier(w, pool, msg)
    else if Private(msg, env) && env.receive.ReceiveFails? then None
    else if Private(msg, env) && !env.prepare.Passes? then (if env.prepare.Invalid? then Some(PrivacyError) else None)
    else if Shortage(Bought(w, msg), msg, env).Some? then Shortage(Bought(w, msg), msg, env)
    else if EmptyCall(msg, env) then None
    else Rejection(msg, env, RunOf(w, msg, env, evm).error)
  }

  /** What an applied message leaves behind. The pool loses at least the gas reported as used, and
      exactly that for a public message. A private message reports none. */
  ghost predicate Accounted(w0: World, w: World, pool0: nat, pool: nat, msg: Message, env: Env, evm: Evm, result: Result)
    requires result.Applied?
  {
    && msg.gas <= pool0 && Affordable(w0, msg)
    && result.refunded == !Skips(msg, env)
    && pool + result.usedGas <= pool0
    && (Private(msg, env) ==> result.usedGas == 0)
    && (!Private(msg, env) ==> pool + result.usedGas == pool0)
    && (!result.refunded ==> pool == pool0 - msg.gas)
    && (result.refunded ==> Settled(w0, w, pool0, pool, msg, env, evm))
  }

  /** The gas was settled: the unused part was returned, the used part paid to the beneficiary, and
      no money was made or lost. */
  ghost predicate Settled(w0: World, w: World, pool0: nat, pool: nat, msg: Message, env: Env, evm: Evm)
    requires msg.gas <= pool0 && Affordable(w0, msg)
  {
    && IntrinsicCost(msg, env) <= msg.gas && (EmptyCall(msg, env) || env.reward.Some?)
    && var r := RunOf(w0, msg, env, evm);
       && r.leftover <= msg.gas && w == Closed(r.world, msg, r.leftover, Beneficiary(msg, env))
       && pool == pool0 - msg.gas + Returned(r.world, msg, r.leftover)
       && Total(w.balances) == Total(w0.balances)
  }

  lemma AccountedEarly(w0: World, w: World, pool0: nat, msg: Message, env: Env, evm: Evm)
    requires msg.gas <= pool0 && Affordable(w0, msg) && Skips(msg, env)
    ensures Accounted(w0, w, pool0, pool0 - msg.gas, msg, env, evm, Applied(0, false))
  {
  }

  lemma AccountedAtEnd(w0: World, pool0: nat, msg: Message, env: Env, evm: Evm)
    requires Sound(evm) && msg.gas <= pool0 && Affordable(w0, msg) && IntrinsicCost(msg, env) <= msg.gas
    requires !Skips(msg, env) && (EmptyCall(msg, env) || env.reward.Some?)
    ensures var r := RunOf(w0, msg, env, evm);
      && r.leftover <= msg.gas
      && var back := Returned(r.world, msg, r.leftover);
         Accounted(w0, Closed(r.world, msg, r.leftover, Beneficiary(msg, env)), pool0, pool0 - msg.gas + back, msg, env, evm,
                   Applied(if Private(msg, env) then 0 else msg.gas - back, true))
  {
    hide Total, Closed, IntrinsicCost, Forgiven, Price, Debit, Balance, Skips;
    RunTotal(w0, msg, env, evm);
    var r := RunOf(w0, msg, env, evm);
    ClosedTotal(r.world, msg, r.leftover, Beneficiary(msg, env));
  }

  /** Up to closing, a message only misses what its gas was bought for. */
  lemma RunTotal(w: World, msg: Message, env: Env, evm: Evm)
    requires Sound(evm) && Affordable(w, msg) && IntrinsicCost(msg, env) <= msg.gas
    ensures var r := RunOf(w, msg, env, evm);
      r.leftover <= msg.gas && Total(r.world.balances) == Total(w.balances) - Price(msg, msg.gas)
  {
    hide Total, IntrinsicCost, Price;
    TotalMoves(w.balances, msg.from, Price(msg, msg.gas));
    var r := evm(Started(w, msg), msg, msg.gas - IntrinsicCost(msg, env));
  }

  // ---- Outcomes, account by account ----

  /** Of the gas spent, at most half and at most the counter is forgiven, and no less than one of them
      allows; all of it for the private transaction inside a privacy marker. */
  ghost predicate UsesUp(spent: nat, used: nat, counter: nat, inner: bool) {
    && used <= spent && (inner ==> used == 0)
    && (!inner ==>
          && spent - used <= counter && 2 * (spent - used) <= spent
          && (spent - used == counter || 2 * (spent - used) + 1 >= spent))
  }

  /** Gas for the whole limit has been bought; a call has bumped the sender's nonce. */
  ghost predicate Begins(w0: World, w: World, msg: Message) {
    && msg.gas * msg.gasPrice <= Balance(w0.balances, msg.from) && w.refund == w0.refund
    && (forall a :: Balance(w.balances, a) == Balance(w0.balances, a) - if a == msg.from then msg.gas * msg.gasPrice else 0)
    && (forall a :: NonceOf(w, a) == NonceOf(w0, a) + if a == msg.from && msg.to.Some? then 1 else 0)
  }

  /** The sender gets back what was not used, at the price it was bought for, and `beneficiary` gets
      the price of what was. */
  ghost predicate PaysOut(w0: World, w: World, msg: Message, used: nat, beneficiary: Address) {
    && used <= msg.gas && w.nonces == w0.nonces && w.refund == w0.refund
    && forall a :: Balance(w.balances, a) ==
                   Balance(w0.balances, a)
                   + (if a == msg.from then (msg.gas - used) * msg.gasPrice else 0)
                   + (if a == beneficiary then used * msg.gasPrice else 0)
  }

  /** A public message: the machine runs with what is left after the intrinsic gas; what it used, less
      what is forgiven, is reported, leaves the pool and is paid to the reward account. */
  ghost predicate PublicOutcome(w0: World, w: World, pool0: nat, pool: nat, msg: Message, env: Env, evm: Evm, used: nat) {
    && Affordable(w0, msg) && Begins(w0, Started(w0, msg), msg)
    && IntrinsicCost(msg, env) <= msg.gas && env.reward.Some?
    && var r := evm(Started(w0, msg), msg, msg.gas - IntrinsicCost(msg, env));
       && r.leftover <= msg.gas && UsesUp(msg.gas - r.leftover, used, r.world.refund, msg.isInner)
       && PaysOut(r.world, w, msg, used, env.reward.value) && pool == pool0 - used
  }

  /** A private message that settles its gas: only the intrinsic gas counts. It is paid to the coinbase
      if this node has no payload for a call, and to the reward account otherwise. */
  ghost predicate PrivateOutcome(w0: World, w: World, pool0: nat, pool: nat, msg: Message, env: Env, evm: Evm) {
    && Affordable(w0, msg) && Begins(w0, Started(w0, msg), msg) && IntrinsicCost(msg, env) <= msg.gas && pool <= pool0
    && var empty := msg.to.Some? && env.receive == Received(true);
       && (empty || env.reward.Some?)
       && var after := if empty then Started(w0, msg) else evm(Started(w0, msg), msg, msg.gas - IntrinsicCost(msg, env)).world;
          && UsesUp(IntrinsicCost(msg, env), pool0 - pool, after.refund, msg.isInner)
          && PaysOut(after, w, msg, pool0 - pool, if empty then env.coinbase else env.reward.value)
  }

  /** A private message that ends early: the bought gas is gone. The nonce is bumped if there is no
      payload to be had or it is a call. If the machine has run, the state is what that left. */
  ghost predicate EarlyOutcome(w0: World, w: World, pool0: nat, pool: nat, msg: Message, env: Env, evm: Evm) {
    && msg.isPrivate && env.isQuorum && Affordable(w0, msg) && pool == pool0 - msg.gas
    && (env.receive.ReceiveFails? || env.prepare.Refuses? ==>
          && (forall a :: Balance(w.balances, a) == Balance(w0.balances, a) - if a == msg.from then msg.gas * msg.gasPrice else 0)
          && (forall a :: NonceOf(w, a) == NonceOf(w0, a) + if a == msg.from && (env.receive.ReceiveFails? || msg.to.Some?) then 1 else 0))
    && (!(env.receive.ReceiveFails? || env.prepare.Refuses?) ==>
          env.verify.Refuses? && IntrinsicCost(msg, env) <= msg.gas
          && w == evm(Started(w0, msg), msg, msg.gas - IntrinsicCost(msg, env)).world)
  }

  /** Exactly when a message is refused, and for which reason. */
  lemma RefusedWhen(w: World, pool: nat, msg: Message, env: Env, evm: Evm)
    ensures var error := Refusal(w, pool, msg, env, evm);
      var secret := env.isQuorum && msg.isPrivate;
      var price := msg.gas * msg.gasPrice;
      var inTurn := msg.checkNonce ==> NonceOf(w, msg.from) == msg.nonce;
      var bought := inTurn && Affordable(w, msg) && msg.gas <= pool;
      var begun := bought && (secret ==> env.receive.Received? && env.prepare.Passes?);
      var metered := begun && DataGas(msg.data, msg.to.None?, env.homestead, env.istanbul) <= MAX_UINT64;
      var paid := metered && IntrinsicCost(msg, env) <= msg.gas;
      var funded := paid && msg.value <= Balance(w.balances, msg.from) - price;
      var run := (paid && (msg.value > 0 ==> funded)) && !(secret && msg.to.Some? && env.receive == Received(true));
      var ran := run && evm(Started(w, msg), msg, msg.gas - IntrinsicCost(msg, env)).error !in {InsufficientBalance, NotAuthorized};
      && (error == Some(NonceTooHigh) <==> msg.checkNonce && NonceOf(w, msg.from) < msg.nonce)
      && (error == Some(NonceTooLow) <==> msg.checkNonce && NonceOf(w, msg.from) > msg.nonce)
      && (Affordable(w, msg) <==> price <= Balance(w.balances, msg.from))
      && (error == Some(InsufficientFunds) <==> inTurn && !Affordable(w, msg))
      && (error == Some(GasLimitReached) <==> inTurn && Affordable(w, msg) && pool < msg.gas)
      && (error == Some(GasUintOverflow) <==> begun && !metered)
      && (error == Some(IntrinsicGasTooLow) <==> metered && !paid)
      && (error == Some(InsufficientFundsForTransfer) <==> paid && msg.value > 0 && !funded)
      && (error == Some(VmRefused) <==> run && !ran)
      && (error == Some(PrivacyError) <==>
            || (bought && secret && env.receive.Received? && env.prepare.Invalid?)
            || (ran && secret && env.verify.Invalid?))
      && (error == Some(NoRewardAccount) <==> ran && (secret ==> env.verify.Passes?) && env.reward.None?)
      && (error.Some? ==> error.value !in {InvalidGasPrice, NotPermitted, PayloadMissing})
  {
    hide DataGas, IntrinsicCost, NonceOf;
    BoughtBalance(w, msg);
  }

  lemma BoughtBalance(w: World, msg: Message)
    ensures Price(msg, msg.gas) == msg.gas * msg.gasPrice
    ensures Affordable(w, msg) ==> Balance(Bought(w, msg).balances, msg.from) == Balance(w.balances, msg.from) - msg.gas * msg.gasPrice
  {
  }

  lemma StartBegins(w: World, msg: Message)
    requires Affordable(w, msg)
    ensures Begins(w, Started(w, msg), msg)
  {
  }

  lemma ReturnedUses(w: World, msg: Message, left: nat)
    requires left <= msg.gas
    ensures UsesUp(msg.gas - left, msg.gas - Returned(w, msg, left), w.refund, msg.isInner)
  {
  }

  lemma ClosedPaysOut(w: World, msg: Message, left: nat, beneficiary: Address)
    requires left <= msg.gas
    ensures PaysOut(w, Closed(w, msg, left, beneficiary), msg, msg.gas - Returned(w, msg, left), beneficiary)
  {
    hide Returned;
  }

  /** A settled public message ends as it should. */
  lemma PublicSettlement(w0: World, w: World, pool0: nat, pool: nat, msg: Message, env: Env, evm: Evm)
    requires !Private(msg, env) && msg.gas <= pool0 && Affordable(w0, msg) && Settled(w0, w, pool0, pool, msg, env, evm)
    ensures PublicOutcome(w0, w, pool0, pool, msg, env, evm, pool0 - pool)
  {
    hide IntrinsicCost, Total, Returned, Closed, UsesUp, PaysOut, Begins, Affordable, Started;
    StartBegins(w0, msg);
    var r := RunOf(w0, msg, env, evm);
    ReturnedUses(r.world, msg, r.leftover);
    ClosedPaysOut(r.world, msg, r.leftover, Beneficiary(msg, env));
  }

  lemma PrivateSettles(w0: World, w: World, pool0: nat, pool: nat, msg: Message, env: Env, evm: Evm)
    requires Private(msg, env) && msg.gas <= pool0 && Affordable(w0, msg) && Settled(w0, w, pool0, pool, msg, env, evm)
    ensures PrivateOutcome(w0, w, pool0, pool, msg, env, evm)
  {
    hide IntrinsicCost, Total, Returned, Closed, UsesUp, PaysOut, Begins, Affordable, Started;
    StartBegins(w0, msg);
    var r := RunOf(w0, msg, env, evm);
    ReturnedUses(r.world, msg, r.leftover);
    ClosedPaysOut(r.world, msg, r.leftover, Beneficiary(msg, env));
  }

  class StateTransition {
    const gp: GasPool
    const msg: Message
    const env: Env
    const evm: Evm
    var state: World
    var gas: nat
    var initialGas: nat

    constructor (gp: GasPool, msg: Message, env: Env, evm: Evm, state: World)
      ensures this.gp == gp && this.msg == msg && this.env == env && this.evm == evm
      ensures this.state == state && gas == 0 && initialGas == 0
    {
      this.gp, this.msg, this.env, this.evm, this.state := gp, msg, env, evm, state;
      gas, initialGas := 0, 0;
    }

    method BuyGas() returns (error: Option<TxError>)
      requires gas == 0
      modifies this, gp
      ensures error == old(if !Affordable(state, msg) then Some(InsufficientFunds) else if gp.gas < msg.gas then Some(GasLimitReached) else None)
      ensures error.Some? ==> unchanged(this) && gp.gas == old(gp.gas)
      ensures error.None? ==>
                gp.gas == old(gp.gas) - msg.gas && gas == msg.gas && initialGas == msg.gas && state == old(Bought(state, msg))
    {
      if Balance(state.balances, msg.from) < Price(msg, msg.gas) {
        return Some(InsufficientFunds);
      }
      var ok := gp.SubGas(msg.gas);
      if !ok {
        return Some(GasLimitReached);
      }
      gas := gas + msg.gas;
      initialGas := msg.gas;
      state := state.(balances := Debit(state.balances, msg.from, Price(msg, msg.gas)));
      return None;
    }

    method PreCheck() returns (error: Option<TxError>)
      requires gas == 0
      modifies this, gp
      ensures error == old(Barrier(state, gp.gas, msg))
      ensures error.Some? ==> unchanged(this) && gp.gas == old(gp.gas)
      ensures error.None? ==>
                gp.gas == old(gp.gas) - msg.gas && gas == msg.gas && initialGas == msg.gas && state == old(Bought(state, msg))
    {
      if msg.checkNonce {
        if NonceOf(state, msg.from) < msg.nonce {
          return Some(NonceTooHigh);
        } else if NonceOf(state, msg.from) > msg.nonce {
          return Some(NonceTooLow);
        }
      }
      error := BuyGas();
    }

    /** refundGas */
    method RefundGas()
      requires gas <= initialGas == msg.gas && gp.gas + msg.gas <= MAX_UINT64
      modifies this, gp
      ensures initialGas == old(initialGas) && gas == Returned(old(state), msg, old(gas))
      ensures state == old(state).(balances := Credit(old(state).balances, msg.from, Price(msg, gas)))
      ensures gp.gas == old(gp.gas) + gas
    {
      if msg.isInner {
        gas := gas + (initialGas - gas);
      } else {
        var refund := (initialGas - gas) / 2;
        if refund > state.refund {
          refund := state.refund;
        }
        gas := gas + refund;
      }
      state := state.(balances := Credit(state.balances, msg.from, Price(msg, gas)));
      gp.AddGas(gas);
    }

    /** Returns unused gas and pays for the used gas. */
    method Close(beneficiary: Address)
      requires gas <= initialGas == msg.gas && gp.gas + msg.gas <= MAX_UINT64
      modifies this, gp
      ensures initialGas == old(initialGas) && gas == Returned(old(state), msg, old(gas))
      ensures state == Closed(old(state), msg, old(gas), beneficiary)
      ensures gp.gas == old(gp.gas) + gas
    {
      RefundGas();
      state := state.(balances := Credit(state.balances, beneficiary, Price(msg, initialGas - gas)));
    }

    /** The private part of `TransitionDb`; some outcomes end the transaction. */
    method ReceivePayload() returns (exit: Option<Result>)
      requires Private(msg, env)
      modifies this`state
      ensures exit == if env.receive.ReceiveFails? || env.prepare.Refuses? then Some(Applied(0, false))
                      else if env.prepare.Invalid? then Some(Failed(PrivacyError)) else None
      ensures state == if env.receive.ReceiveFails? || msg.to.Some? then Bumped(old(state), msg.from) else old(state)
    {
      if env.receive.ReceiveFails? || msg.to.Some? {
        state := Bumped(state, msg.from);
      }
      if env.receive.ReceiveFails? {
        return Some(Applied(0, false));
      }
      match env.prepare {
        case Invalid => return Some(Failed(PrivacyError));
        case Refuses => return Some(Applied(0, false));
        case Passes => return None;
      }
    }

    /** Pays the intrinsic gas and checks that the value can be transferred. */
    method PayIntrinsic() returns (error: Option<TxError>)
      requires gas == msg.gas
      modifies this`gas
      ensures error == Shortage(state, msg, env) && gas <= old(gas)
      ensures error.None? ==> gas == old(gas) - IntrinsicCost(msg, env)
    {
      hide Wrap, DataGas;
      var cost := IntrinsicGas(msg.data, msg.accessList, msg.to.None?, env.homestead, env.istanbul);
      if cost.None? {
        return Some(GasUintOverflow);
      }
      if gas < cost.value {
        return Some(IntrinsicGasTooLow);
      }
      gas := gas - cost.value;
      if msg.value > 0 && Balance(state.balances, msg.from) < msg.value {
        return Some(InsufficientFundsForTransfer);
      }
      return None;
    }

    /** Runs the message on the machine. */
    method Execute() returns (exit: Option<Result>)
      modifies this`state, this`gas
      ensures var r := evm(old(state), msg, old(gas));
              && state == r.world
              && exit == (if Rejection(msg, env, r.error).Some? then Some(Failed(Rejection(msg, env, r.error).value))
                          else if Private(msg, env) && env.verify.Refuses? then Some(Applied(0, false)) else None)
              && (exit.None? ==> gas == if Private(msg, env) then old(gas) else r.leftover)
    {
      var ran := evm(state, msg, gas);
      state := ran.world;
      if ran.error.InsufficientBalance? || ran.error.NotAuthorized? {
        return Some(Failed(VmRefused));
      }
      if Private(msg, env) && env.verify.Invalid? {
        return Some(Failed(PrivacyError));
      }
      if Private(msg, env) && env.verify.Refuses? {
        return Some(Applied(0, false));
      }
      if !Private(msg, env) {
        gas := ran.leftover;
      }
      return if env.reward.None? then Some(Failed(NoRewardAccount)) else None;
    }

    /** The end of `TransitionDb`: settles the gas of a message that began in `w0` with the pool at `pool0`. */
    method Settle(ghost w0: World, ghost pool0: nat) returns (result: Result)
      requires Sound(evm) && msg.gas <= pool0 <= MAX_UINT64 && Affordable(w0, msg) && IntrinsicCost(msg, env) <= msg.gas
      requires !Skips(msg, env) && (EmptyCall(msg, env) || env.reward.Some?)
      requires state == RunOf(w0, msg, env, evm).world && gas == RunOf(w0, msg, env, evm).leftover
      requires initialGas == msg.gas && gp.gas == pool0 - msg.gas
      modifies this, gp
      ensures result.Applied? && result.refunded && gp.gas <= pool0 && Accounted(w0, state, pool0, gp.gas, msg, env, evm, result)
      ensures !(env.isQuorum && msg.isPrivate) ==> PublicOutcome(w0, state, pool0, gp.gas, msg, env, evm, result.usedGas)
      ensures env.isQuorum && msg.isPrivate ==> result.usedGas == 0 && PrivateOutcome(w0, state, pool0, gp.gas, msg, env, evm)
    {
      hide PublicOutcome, PrivateOutcome, Settled, Forgiven, Wrap, DataGas, RunOf, Sound, Price, Total, Closed, Returned, IntrinsicCost, Skips;
      AccountedAtEnd(w0, pool0, msg, env, evm);
      Close(Beneficiary(msg, env));
      result := Applied(if Private(msg, env) then 0 else initialGas - gas, true);
      Concluded(w0, state, pool0, gp.gas, msg, env, evm, result);
    }

    /** TransitionDb: buys gas, runs the message, returns unused gas and pays the rest out. */
    method TransitionDb() returns (result: Result)
      requires Sound(evm) && gas == 0 && initialGas == 0
      modifies this, gp
      ensures gp.gas <= old(gp.gas)
      ensures result.Failed? <==> old(Refusal(state, gp.gas, msg, env, evm)).Some?
      ensures result.Failed? ==> result.error == old(Refusal(state, gp.gas, msg, env, evm)).value
      ensures result.Applied? ==> Accounted(old(state), state, old(gp.gas), gp.gas, msg, env, evm, result)
      ensures result.Applied? && !(env.isQuorum && msg.isPrivate) ==>
                PublicOutcome(old(state), state, old(gp.gas), gp.gas, msg, env, evm, result.usedGas)
      ensures result.Applied? && env.isQuorum && msg.isPrivate && result.refunded ==>
                result.usedGas == 0 && PrivateOutcome(old(state), state, old(gp.gas), gp.gas, msg, env, evm)
      ensures result.Applied? && !result.refunded ==>
                result.usedGas == 0 && EarlyOutcome(old(state), state, old(gp.gas), gp.gas, msg, env, evm)
    {
      hide PublicOutcome, PrivateOutcome, EarlyOutcome, Settled, Forgiven, Wrap, DataGas;
      hide Sound, Price, Balance, Debit, Total, Closed, Returned, IntrinsicCost, Accounted, Barrier, Shortage, Rejection;
      var error := PreCheck();
      if error.Some? {
        return Failed(error.value);
      }
      var exit: Option<Result> := None;
      if Private(msg, env) {
        exit := ReceivePayload();
      }
      if exit.Some? {
        if exit.value.Applied? {
          AccountedEarly(old(state), state, old(gp.gas), msg, env, evm);
          EndsUnread(old(state), state, old(gp.gas), msg, env, evm);
        }
        return exit.value;
      }
      SameShortage(state, old(Bought(state, msg)), msg, env);
      error := PayIntrinsic();
      if error.Some? {
        return Failed(error.value);
      }
      if msg.to.Some? && !Private(msg, env) {
        state := Bumped(state, msg.from);
      }
      if !EmptyCall(msg, env) {
        exit := Execute();
        if exit.Some? {
          if exit.value.Applied? {
            AccountedEarly(old(state), state, old(gp.gas), msg, env, evm);
            EndsUnverified(old(state), state, old(gp.gas), msg, env, evm);
          }
          return exit.value;
        }
        Rewarded(msg, env, RunOf(old(state), msg, env, evm).error);
      }
      result := Settle(old(state), old(gp.gas));
    }
  }

  lemma EndsUnread(w0: World, w: World, pool0: nat, msg: Message, env: Env, evm: Evm)
    requires Private(msg, env) && msg.gas <= pool0 && Affordable(w0, msg) && (env.receive.ReceiveFails? || env.prepare.Refuses?)
    requires w == if env.receive.ReceiveFails? || msg.to.Some? then Bumped(Bought(w0, msg), msg.from) else Bought(w0, msg)
    ensures EarlyOutcome(w0, w, pool0, pool0 - msg.gas, msg, env, evm)
  {
    hide IntrinsicCost;
  }

  lemma EndsUnverified(w0: World, w: World, pool0: nat, msg: Message, env: Env, evm: Evm)
    requires Private(msg, env) && msg.gas <= pool0 && Affordable(w0, msg) && env.receive.Received? && env.prepare.Passes? && env.verify.Refuses?
    requires IntrinsicCost(msg, env) <= msg.gas && w == evm(Started(w0, msg), msg, msg.gas - IntrinsicCost(msg, env)).world
    ensures EarlyOutcome(w0, w, pool0, pool0 - msg.gas, msg, env, evm)
  {
    hide IntrinsicCost;
  }

  lemma Concluded(w0: World, w: World, pool0: nat, pool: nat, msg: Message, env: Env, evm: Evm, result: Result)
    requires result.Applied? && result.refunded && Accounted(w0, w, pool0, pool, msg, env, evm, result)
    ensures !(env.isQuorum && msg.isPrivate) ==> PublicOutcome(w0, w, pool0, pool, msg, env, evm, result.usedGas)
    ensures env.isQuorum && msg.isPrivate ==> result.usedGas == 0 && PrivateOutcome(w0, w, pool0, pool, msg, env, evm)
  {
    hide Settled, PublicOutcome, PrivateOutcome, Affordable, Skips;
    if Private(msg, env) {
      PrivateSettles(w0, w, pool0, pool, msg, env, evm);
    } else {
      PublicSettlement(w0, w, pool0, pool, msg, env, evm);
    }
  }

  lemma SameShortage(w: World, x: World, msg: Message, env: Env)
    requires w.balances == x.balances
    ensures Shortage(w, msg, env) == Shortage(x, msg, env)
  {
    hide IntrinsicCost;
  }

  lemma Rewarded(msg: Message, env: Env, error: VmError)
    requires Rejection(msg, env, error).None? && !(Private(msg, env) && env.verify.Refuses?)
    ensures env.reward.Some?
  {
  }

  // ---- Private transactions ----

  /** What a private message costs its sender: the intrinsic gas less what is forgiven. */
  function PrivateCost(msg: Message, env: Env, counter: nat): nat {
    var used := IntrinsicCost(msg, env);
    Price(msg, used - Forgiven(msg, used, counter))
  }

  ghost predicate SameBalances(b: Balances, c: Balances) {
    forall a :: Balance(b, a) == Balance(c, a)
  }

  /** Without the machine's help: what a private message has left, and what it did to the public
      state before its gas is settled. */
  lemma PrivateRun(w: World, msg: Message, env: Env, evm: Evm)
    requires Sound(evm) && Private(msg, env) && Affordable(w, msg) && IntrinsicCost(msg, env) <= msg.gas
    ensures var r := RunOf(w, msg, env, evm);
      && r.leftover == msg.gas - IntrinsicCost(msg, env) && r.world.balances == Bought(w, msg).balances
      && (msg.to.Some? ==> r.world.nonces == Bumped(w, msg.from).nonces)
  {
    hide IntrinsicCost, Price, Total;
    var r := evm(Started(w, msg), msg, msg.gas - IntrinsicCost(msg, env));
  }

  /** A settled private message moves its cost from the sender to the beneficiary, and does nothing
      else to the balances. */
  lemma PrivateSettlement(w0: World, w: World, pool0: nat, pool: nat, msg: Message, env: Env, evm: Evm)
    requires Sound(evm) && Private(msg, env) && msg.gas <= pool0 && Affordable(w0, msg)
    requires Settled(w0, w, pool0, pool, msg, env, evm)
    ensures var counter := RunOf(w0, msg, env, evm).world.refund;
      var cost := PrivateCost(msg, env, counter);
      && cost <= Balance(w0.balances, msg.from)
      && SameBalances(w.balances, Credit(Debit(w0.balances, msg.from, cost), Beneficiary(msg, env), cost))
      && pool == pool0 - (IntrinsicCost(msg, env) - Forgiven(msg, IntrinsicCost(msg, env), counter))
      && (msg.to.Some? ==> w.nonces == Bumped(w0, msg.from).nonces)
  {
    hide IntrinsicCost, Forgiven, Total, Sound, RunOf, Beneficiary;
    PrivateRun(w0, msg, env, evm);
    var r := RunOf(w0, msg, env, evm);
    PriceAdds(msg, Returned(r.world, msg, r.leftover));
  }

  /** The private transaction inside a privacy marker gets all its gas back: neither the balances
      nor its gas pool change. */
  lemma InnerCostsNothing(w0: World, w: World, pool0: nat, pool: nat, msg: Message, env: Env, evm: Evm)
    requires Sound(evm) && Private(msg, env) && msg.isInner && msg.gas <= pool0 && Affordable(w0, msg)
    requires Settled(w0, w, pool0, pool, msg, env, evm)
    ensures SameBalances(w.balances, w0.balances) && pool == pool0
  {
    hide IntrinsicCost, Total, Sound, RunOf;
    PrivateSettlement(w0, w, pool0, pool, msg, env, evm);
    assert PrivateCost(msg, env, RunOf(w0, msg, env, evm).world.refund) == 0;
  }

  /** A private call on a node that has the payload and on one that does not: if both settle their
      gas, with equal refund counters, they end with the same gas pool, the same nonce and no gas
      reported. The balances agree exactly if the reward account is the coinbase or the call cost
      nothing. */
  method RunTwice(w: World, limit: Uint64, msg: Message, env: Env, prepare: Verdict, verify: Verdict, evm: Evm)
    returns (party: StateTransition, other: StateTransition, result: Result, otherResult: Result)
    requires Sound(evm) && Private(msg, env) && msg.to.Some? && env.receive == Received(false)
    ensures fresh(party) && fresh(other) && fresh(party.gp) && fresh(other.gp)
    ensures result.Applied? && otherResult.Applied? && result.refunded && otherResult.refunded ==>
              && Affordable(w, msg) && IntrinsicCost(msg, env) <= msg.gas && env.reward.Some?
              && var counter := RunOf(w, msg, env, evm).world.refund;
                 counter == w.refund ==>
                   && party.gp.gas == other.gp.gas && result.usedGas == otherResult.usedGas == 0
                   && NonceOf(party.state, msg.from) == NonceOf(other.state, msg.from) == NonceOf(w, msg.from) + 1
                   && (SameBalances(party.state.balances, other.state.balances) <==>
                       env.reward.value == env.coinbase || PrivateCost(msg, env, counter) == 0)
  {
    hide Sound, Price, Total, IntrinsicCost, RunOf, PrivateCost, SameBalances, Affordable, NonceOf, Settled;
    var gp := new GasPool(limit);
    party := new StateTransition(gp, msg, env, evm, w);
    result := party.TransitionDb();
    var otherGp := new GasPool(limit);
    var otherEnv := env.(receive := Received(true), prepare := prepare, verify := verify);
    other := new StateTransition(otherGp, msg, otherEnv, evm, w);
    otherResult := other.TransitionDb();
    if result.Applied? && otherResult.Applied? && result.refunded && otherResult.refunded {
      Agreement(w, limit, msg, env, otherEnv, evm, party.state, other.state, gp.gas, otherGp.gas);
    }
  }

  lemma Agreement(w: World, limit: nat, msg: Message, env: Env, otherEnv: Env, evm: Evm, x: World, y: World, pool: nat, otherPool: nat)
    requires Sound(evm) && Private(msg, env) && msg.to.Some? && env.receive == Received(false)
    requires otherEnv == env.(receive := Received(true), prepare := otherEnv.prepare, verify := otherEnv.verify)
    requires msg.gas <= limit && Affordable(w, msg)
    requires Settled(w, x, limit, pool, msg, env, evm) && Settled(w, y, limit, otherPool, msg, otherEnv, evm)
    ensures IntrinsicCost(msg, env) <= msg.gas && env.reward.Some?
    ensures var counter := RunOf(w, msg, env, evm).world.refund;
      counter == w.refund ==>
        && pool == otherPool && NonceOf(x, msg.from) == NonceOf(y, msg.from) == NonceOf(w, msg.from) + 1
        && (SameBalances(x.balances, y.balances) <==> env.reward.value == env.coinbase || PrivateCost(msg, env, counter) == 0)
  {
    hide Forgiven, Total, PrivateCost, Closed, Returned, Wrap, DataGas, Debit, Sound, Price, Affordable;
    PrivateSettlement(w, x, limit, pool, msg, env, evm);
    PrivateSettlement(w, y, limit, otherPool, msg, otherEnv, evm);
    var counter := RunOf(w, msg, env, evm).world.refund;
    SameCost(msg, env, otherEnv, counter);
    CreditsDiffer(Debit(w.balances, msg.from, PrivateCost(msg, env, counter)), env.reward.value, env.coinbase, PrivateCost(msg, env, counter));
  }

  lemma SameCost(msg: Message, env: Env, otherEnv: Env, counter: nat)
    requires otherEnv.homestead == env.homestead && otherEnv.istanbul == env.istanbul
    ensures PrivateCost(msg, env, counter) == PrivateCost(msg, otherEnv, counter)
  {
  }

  /** Crediting different accounts makes a difference unless nothing is credited. */
  lemma CreditsDiffer(b: Balances, x: Address, y: Address, amount: nat)
    ensures SameBalances(Credit(b, x, amount), Credit(b, y, amount)) <==> x == y || amount == 0
  {
    assert Balance(Credit(b, x, amount), x) == Balance(b, x) + amount;
    assert x != y ==> Balance(Credit(b, y, amount), x) == Balance(b, x);
  }

  // ---- Whole blocks ----

  /** How a private transaction is run on a node's private states besides the default one: there
      is only the default one, those it concerns cannot be found out, or each of several has its
      environment. */
  datatype PrivateStates = Default | Unresolved | Several(envs: seq<Env>)

  /** A transaction of a block. */
  datatype Step = Step(msg: Message, env: Env, permitted: bool, gasPriceEnabled: bool, states: PrivateStates)

  /** What is checked before a message is built from the transaction. */
  function Barred(step: Step, env: Env): Option<TxError> {
    if !step.permitted then Some(NotPermitted)
    else if env.isQuorum && !step.gasPriceEnabled && step.msg.gasPrice > 0 then Some(InvalidGasPrice)
    else None
  }

  /** Why a transaction cannot be applied in the environment, if it cannot. */
  function ReasonIn(step: Step, env: Env, pool: nat, w: World, evm: Evm): Option<TxError> {
    if Barred(step, env).Some? then Barred(step, env) else Refusal(w, pool, step.msg, env, evm)
  }

  /** The same for the first environment in which it cannot be applied. */
  function FirstReason(step: Step, envs: seq<Env>, pool: nat, w: World, evm: Evm): Option<TxError> {
    if envs == [] then None
    else if ReasonIn(step, envs[0], pool, w, evm).Some? then ReasonIn(step, envs[0], pool, w, evm)
    else FirstReason(step, envs[1..], pool, w, evm)
  }

  function StatesReason(step: Step, pool: nat, w: World, evm: Evm): Option<TxError> {
    match step.states
    case Default => None
    case Unresolved => Some(PayloadMissing)
    case Several(envs) => FirstReason(step, envs, pool, w, evm)
  }

  /** Why a transaction makes its block invalid, if it does: the private states come first. */
  function Reason(step: Step, pool: nat, w: World, evm: Evm): Option<TxError> {
    var start := w.(refund := 0);
    if step.msg.isPrivate && StatesReason(step, pool, start, evm).Some? then StatesReason(step, pool, start, evm)
    else ReasonIn(step, step.env, pool, start, evm)
  }

  lemma ReasonIs(step: Step, pool: nat, w: World, evm: Evm)
    ensures var start := w.(refund := 0);
      Reason(step, pool, w, evm) ==
        if step.msg.isPrivate && StatesReason(step, pool, start, evm).Some? then StatesReason(step, pool, start, evm)
        else if Barred(step, step.env).Some? then Barred(step, step.env) else Refusal(start, pool, step.msg, step.env, evm)
  {
  }

  /** What stands in the way before the transition is reached: besides the private states, exactly
      a missing permission and a gas price where none is allowed, in this order. */
  lemma ReasonMeans(step: Step, pool: nat, w: World, evm: Evm)
    requires !step.msg.isPrivate || step.states.Default?
    ensures var reason := Reason(step, pool, w, evm);
      var priced := step.env.isQuorum && !step.gasPriceEnabled && step.msg.gasPrice > 0;
      && (reason == Some(NotPermitted) <==> !step.permitted)
      && (reason == Some(InvalidGasPrice) <==> step.permitted && priced)
      && (step.permitted && !priced ==> reason == Refusal(w.(refund := 0), pool, step.msg, step.env, evm))
  {
  }

  /** A private state refuses a transaction only if every one before it would take it. */
  lemma {:induction false} FirstReasonMeans(step: Step, envs: seq<Env>, pool: nat, w: World, evm: Evm)
    ensures FirstReason(step, envs, pool, w, evm).None? <==> forall e :: e in envs ==> ReasonIn(step, e, pool, w, evm).None?
    ensures FirstReason(step, envs, pool, w, evm).Some? ==>
      exists i :: 0 <= i < |envs| && ReasonIn(step, envs[i], pool, w, evm) == FirstReason(step, envs, pool, w, evm)
                  && forall j :: 0 <= j < i ==> ReasonIn(step, envs[j], pool, w, evm).None?
    decreases |envs|
  {
    hide ReasonIn;
    if envs != [] {
      FirstReasonMeans(step, envs[1..], pool, w, evm);
      assert envs == [envs[0]] + envs[1..];
      if ReasonIn(step, envs[0], pool, w, evm).None? && FirstReason(step, envs, pool, w, evm).Some? {
        var i :| 0 <= i < |envs[1..]| && ReasonIn(step, envs[1..][i], pool, w, evm) == FirstReason(step, envs[1..], pool, w, evm)
          && forall j :: 0 <= j < i ==> ReasonIn(step, envs[1..][j], pool, w, evm).None?;
        assert forall j :: 0 <= j < i + 1 ==> envs[j] == if j == 0 then envs[0] else envs[1..][j - 1];
        assert envs[i + 1] == envs[1..][i];
      }
    }
  }

  lemma FirstReasonStep(step: Step, envs: seq<Env>, pool: nat, w: World, evm: Evm)
    ensures FirstReason(step, envs, pool, w, evm) ==
      if envs == [] then None
      else if Barred(step, envs[0]).Some? then Barred(step, envs[0])
      else if Refusal(w, pool, step.msg, envs[0], evm).Some? then Refusal(w, pool, step.msg, envs[0], evm)
      else FirstReason(step, envs[1..], pool, w, evm)
  {
  }

  /** ApplyTransactionOnMPS: runs a private transaction on every private state, each time with a
      clone of the gas pool and a copy of the public state; nothing is added to the gas used. */
  method ApplyOnStates(step: Step, available: Uint64, world: World, evm: Evm) returns (error: Option<TxError>, used: nat)
    requires Sound(evm) && step.msg.isPrivate && (step.states.Several? ==> forall e :: e in step.states.envs ==> e.isQuorum)
    ensures used == 0 && error == StatesReason(step, available, world, evm)
  {
    hide Sound, Settled, Price, Refusal, Affordable, FirstReason, Accounted, Barred;
    used := 0;
    if !step.states.Several? {
      return if step.states.Unresolved? then Some(PayloadMissing) else None, used;
    }
    var envs := step.states.envs;
    assert envs[0..] == envs;
    for i := 0 to |envs|
      invariant used == 0 && FirstReason(step, envs[i..], available, world, evm) == FirstReason(step, envs, available, world, evm)
    {
      FirstReasonStep(step, envs[i..], available, world, evm);
      assert envs[i..][1..] == envs[i + 1..] && envs[i] in envs;
      if Barred(step, envs[i]).Some? {
        return Barred(step, envs[i]), used;
      }
      var gp := new GasPool(available);
      var st := new StateTransition(gp, step.msg, envs[i], evm, world);
      var result := st.TransitionDb();
      if result.Failed? {
        return Some(result.error), used;
      }
      PrivateUsesNone(world, st.state, available, gp.gas, step.msg, envs[i], evm, result);
      used := used + result.usedGas;
    }
    FirstReasonStep(step, envs[|envs|..], available, world, evm);
    return None, used;
  }

  lemma PrivateUsesNone(w0: World, w: World, pool0: nat, pool: nat, msg: Message, env: Env, evm: Evm, result: Result)
    requires result.Applied? && Accounted(w0, w, pool0, pool, msg, env, evm, result) && msg.isPrivate && env.isQuorum
    ensures result.usedGas == 0
  {
  }

  function UsedIn(results: seq<Result>): nat
    requires forall r :: r in results ==> r.Applied?
  {
    if results == [] then 0 else UsedIn(results[..|results| - 1]) + results[|results| - 1].usedGas
  }

  /** What holds between the transactions of a block: each took the state and the pool from one
      value to the next. */
  ghost predicate Processed(steps: seq<Step>, results: seq<Result>, worlds: seq<World>, pools: seq<nat>, evm: Evm) {
    && |worlds| == |pools| == |results| + 1 <= |steps| + 1
    && forall i :: 0 <= i < |results| ==>
         && results[i].Applied?
         && Accounted(worlds[i].(refund := 0), worlds[i + 1], pools[i], pools[i + 1], steps[i].msg, steps[i].env, evm, results[i])
  }

  /** Over a block the gas left and the gas used stay within what was there at first, and make it up
      exactly if all transactions were public; money is conserved if all of them settled their gas. */
  lemma {:induction false} BlockBalance(steps: seq<Step>, results: seq<Result>, worlds: seq<World>, pools: seq<nat>, evm: Evm)
    requires Processed(steps, results, worlds, pools, evm)
    ensures pools[|results|] + UsedIn(results) <= pools[0]
    ensures (forall i :: 0 <= i < |results| ==> !Private(steps[i].msg, steps[i].env)) ==> pools[|results|] + UsedIn(results) == pools[0]
    ensures (forall i :: 0 <= i < |results| ==> !Skips(steps[i].msg, steps[i].env)) ==>
              Total(worlds[|results|].balances) == Total(worlds[0].balances)
    decreases |results|
  {
    hide Total, Private, Skips, Settled, Affordable;
    if results != [] {
      var n := |results| - 1;
      var init := results[..n];
      assert Processed(steps, init, worlds[..n + 1], pools[..n + 1], evm);
      BlockBalance(steps, init, worlds[..n + 1], pools[..n + 1], evm);
      StepTotal(worlds[n].(refund := 0), worlds[n + 1], pools[n], pools[n + 1], steps[n].msg, steps[n].env, evm, results[n]);
    }
  }

  lemma StepTotal(w0: World, w: World, pool0: nat, pool: nat, msg: Message, env: Env, evm: Evm, result: Result)
    requires result.Applied? && Accounted(w0, w, pool0, pool, msg, env, evm, result)
    ensures !Skips(msg, env) ==> Total(w.balances) == Total(w0.balances)
  {
    hide Skips, Total, RunOf, IntrinsicCost, Affordable, EmptyCall;
  }

  /** Process: runs the transactions of a block one after the other and stops at the first error. */
  method Process(limit: Uint64, steps: seq<Step>, world: World, evm: Evm)
    returns (error: Option<TxError>, results: seq<Result>, used: nat, gp: GasPool, final: World, ghost worlds: seq<World>, ghost pools: seq<nat>)
    requires Sound(evm) && forall s :: s in steps && s.states.Several? ==> forall e :: e in s.states.envs ==> e.isQuorum
    ensures fresh(gp) && Processed(steps, results, worlds, pools, evm) && worlds[0] == world && pools[0] == limit
    ensures used == UsedIn(results) && final == worlds[|results|] && (error.None? <==> |results| == |steps|)
    ensures error.None? ==> gp.gas == pools[|steps|] && gp.gas + used <= limit
    ensures error.None? && (forall s :: s in steps ==> !Private(s.msg, s.env)) ==> gp.gas + used == limit
    ensures error.None? && (forall s :: s in steps ==> !Skips(s.msg, s.env)) ==> Total(final.balances) == Total(world.balances)
    ensures forall i :: 0 <= i < |results| ==> Reason(steps[i], pools[i], worlds[i], evm).None?
    ensures error.Some? ==> error == Reason(steps[|results|], pools[|results|], final, evm)
  {
    hide Sound, Price, Total, Private, Skips, Refusal, Accounted, Affordable, UsedIn, Reason, StatesReason, Barred;
    gp := new GasPool(limit);
    used, results, final, worlds, pools := 0, [], world, [world], [limit];
    UsedNext([], Applied(0, true));
    for i := 0 to |steps|
      invariant fresh(gp) && |results| == i && Processed(steps, results, worlds, pools, evm)
      invariant worlds[0] == world && pools[0] == limit && used == UsedIn(results) && gp.gas == pools[i] && final == worlds[i]
      invariant forall j :: 0 <= j < i ==> Reason(steps[j], pools[j], worlds[j], evm).None?
    {
      var step := steps[i];
      assert step in steps;
      ReasonIs(step, gp.gas, final, evm);
      if step.msg.isPrivate {
        var extra;
        error, extra := ApplyOnStates(step, gp.gas, final.(refund := 0), evm);
        if error.Some? {
          return;
        }
        used := used + extra;
      }
      error := Barred(step, step.env);
      if error.Some? {
        return;
      }
      var st := new StateTransition(gp, step.msg, step.env, evm, final.(refund := 0));
      var result := st.TransitionDb();
      if result.Failed? {
        error := Some(result.error);
        return;
      }
      UsedNext(results, result);
      used, final, results := used + result.usedGas, st.state, results + [result];
      worlds, pools := worlds + [final], pools + [gp.gas];
    }
    error := None;
    BlockBalance(steps, results, worlds, pools, evm);
  }

  lemma UsedNext(results: seq<Result>, result: Result)
    requires result.Applied? && forall r :: r in results ==> r.Applied?
    ensures UsedIn([]) == 0 && UsedIn(results + [result]) == UsedIn(results) + result.usedGas
  {
    assert (results + [result])[..|results|] == results;
  }
}
