/** txList of core/tx_list.go: one account's transactions, gapless (`strict`, the pending
    list) or gapped (the queue), with cached bounds on cost and gas.

    The functions give the contents each operation leaves as plain maps; the class is the
    source's list and is proved to do the same, cached bounds and all. */
module TxLists {
  import opened Transactions
  import opened SortedMaps

  // ---- What the operations do to the contents ----

  /** A replacement needs a higher price, by at least `bump` percent. */
  predicate Outbids(tx: Tx, prior: Tx, bump: nat) {
    prior.price < tx.price && prior.price * (100 + bump) / 100 <= tx.price
  }

  /** The rule in terms of the prices alone: higher, and no more than rounded down short of the bump. */
  ghost predicate Outprices(tx: Tx, prior: Tx, bump: nat) {
    prior.price < tx.price && prior.price * (100 + bump) < (tx.price + 1) * 100
  }

  lemma OutpricesIs(tx: Tx, bump: nat)
    ensures forall u :: Outprices(tx, u, bump) <==> u.price < tx.price && u.price * (100 + bump) < (tx.price + 1) * 100
  {
  }

  lemma OutbidsMeans(tx: Tx, prior: Tx, bump: nat)
    ensures Outbids(tx, prior, bump) <==> Outprices(tx, prior, bump)
  {
    var wanted := prior.price * (100 + bump);
    assert wanted == wanted / 100 * 100 + wanted % 100;
  }

  predicate Accepts(m: TxMap, tx: Tx, bump: nat) {
    tx.nonce in m ==> Outbids(tx, m[tx.nonce], bump)
  }

  predicate TooCostly(t: Tx, costLimit: nat, gasLimit: nat) {
    gasLimit < t.gas || costLimit < t.cost
  }

  function Unpayable(m: TxMap, costLimit: nat, gasLimit: nat): TxMap {
    map n | n in m && TooCostly(m[n], costLimit, gasLimit) :: m[n]
  }

  /** What `Filter` keeps: a strict list also loses everything above the first gap. */
  function Kept(strict: bool, m: TxMap, costLimit: nat, gasLimit: nat): TxMap {
    var bad := Unpayable(m, costLimit, gasLimit);
    if strict && bad != map[] then Below(m, Least(bad.Keys))
    else map n | n in m && !TooCostly(m[n], costLimit, gasLimit) :: m[n]
  }

  /** What `Filter` hands back as invalidated: payable, but above the first gap. */
  function Invalidated(strict: bool, m: TxMap, costLimit: nat, gasLimit: nat): TxMap {
    m - Unpayable(m, costLimit, gasLimit).Keys - Kept(strict, m, costLimit, gasLimit).Keys
  }

  /** What `Remove` leaves. */
  function Removed(strict: bool, m: TxMap, nonce: nat): TxMap {
    if strict && nonce in m then Below(m, nonce) else m - {nonce}
  }

  /** The nonces of `m` are exactly those from `lo` up to, not including, `hi`. */
  ghost predicate Spans(m: TxMap, lo: nat, hi: nat) {
    forall n: nat :: n in m <==> lo <= n < hi
  }

  /** No transaction costs more, or may use more gas, than the caps say. */
  ghost predicate Bounded(m: TxMap, costcap: nat, gascap: nat) {
    forall n :: n in m ==> m[n].cost <= costcap && m[n].gas <= gascap
  }

  // ---- The source's list ----

  class TxList {
    const strict: bool
    const txs: SortedMap
    var costcap: nat
    var gascap: nat

    ghost predicate Valid()
      reads this, txs
    {
      txs.Valid() && Bounded(txs.items, costcap, gascap)
    }

    constructor (strict: bool)
      ensures Valid() && fresh(txs) && txs.items == map[] && this.strict == strict
    {
      this.strict := strict;
      txs := new SortedMap();
      costcap, gascap := 0, 0;
    }

    method Overlaps(tx: Tx) returns (b: bool)
      ensures b <==> tx.nonce in txs.items
    {
      var present := txs.Get(tx.nonce);
      b := present.Some?;
    }

    method Add(tx: Tx, priceBump: nat) returns (inserted: bool, replaced: Option<Tx>)
      requires Valid()
      modifies this, txs
      ensures Valid()
      ensures inserted <==> Accepts(old(txs.items), tx, priceBump)
      ensures tx.nonce !in old(txs.items) ==> inserted
      ensures tx.nonce in old(txs.items) ==>
                var prior := old(txs.items)[tx.nonce];
                inserted <==> prior.price < tx.price && prior.price * (100 + priceBump) < (tx.price + 1) * 100
      ensures txs.items == if inserted then old(txs.items)[tx.nonce := tx] else old(txs.items)
      ensures replaced == if inserted && tx.nonce in old(txs.items) then Some(old(txs.items)[tx.nonce]) else None
    {
      var present := txs.Get(tx.nonce);
      if present.Some? {
        OutbidsMeans(tx, present.value, priceBump);
        var threshold := present.value.price * (100 + priceBump) / 100;
        if present.value.price >= tx.price || tx.price < threshold {
          return false, None;
        }
      }
      txs.Put(tx);
      if costcap < tx.cost {
        costcap := tx.cost;
      }
      if gascap < tx.gas {
        gascap := tx.gas;
      }
      return true, present;
    }

    method Forward(threshold: nat) returns (removed: seq<Tx>)
      requires Valid()
      modifies txs
      ensures Valid()
      ensures txs.items == From(old(txs.items), threshold)
      ensures Lists(removed, Below(old(txs.items), threshold))
    {
      removed := txs.Forward(threshold);
    }

    /** The same as an unconditional scan, although the cached bounds let it skip the scan. */
    method Filter(costLimit: nat, gasLimit: nat) returns (removed: seq<Tx>, invalids: seq<Tx>)
      requires Valid()
      modifies this, txs
      ensures Valid()
      ensures txs.items == Kept(strict, old(txs.items), costLimit, gasLimit)
      ensures forall t :: t in removed <==> Has(Unpayable(old(txs.items), costLimit, gasLimit), t)
      ensures forall t :: t in invalids <==> Has(Invalidated(strict, old(txs.items), costLimit, gasLimit), t)
      ensures |removed| + |invalids| + |txs.items| == |old(txs.items)|
      ensures forall t :: t in removed <==> Has(old(txs.items), t) && (gasLimit < t.gas || costLimit < t.cost)
      ensures forall n :: n in txs.items <==>
                && n in old(txs.items) && Pays(old(txs.items)[n], costLimit, gasLimit)
                && (strict ==> forall k :: k in old(txs.items) && k < n ==> Pays(old(txs.items)[k], costLimit, gasLimit))
    {
      hide Kept, Unpayable, Invalidated, Bounded;
      ghost var m := txs.items;
      KeptMeans(strict, m, costLimit, gasLimit);
      UnpayableIs(m, costLimit, gasLimit);
      if costcap <= costLimit && gascap <= gasLimit {
        CapsSuffice(m, costcap, gascap, costLimit, gasLimit);
        NothingUnpayable(strict, m, costLimit, gasLimit);
        return [], [];
      }
      KeptBounded(strict, m, costLimit, gasLimit);
      costcap, gascap := costLimit, gasLimit;
      removed := txs.Filter((t: Tx) => TooCostly(t, costLimit, gasLimit));
      LooseParts(m, costLimit, gasLimit);
      invalids := [];
      if removed == [] {
        NothingUnpayable(strict, m, costLimit, gasLimit);
        NothingUnpayable(false, m, costLimit, gasLimit);
      } else if strict {
        var lowest := LowestNonce(removed, m, costLimit, gasLimit);
        StrictParts(m, costLimit, gasLimit, lowest);
        invalids := txs.FilterOnly((t: Tx) => lowest < t.nonce);
        txs.Reheap();
      } else {
        txs.Reheap();
      }
    }

    method Cap(threshold: nat) returns (drops: seq<Tx>)
      requires Valid()
      modifies txs
      ensures Valid()
      ensures txs.items == Lowest(old(txs.items), threshold)
      ensures |drops| == |old(txs.items)| - |txs.items|
      ensures Lists(SortByNonce(txs.items) + Reversed(drops), old(txs.items))
    {
      LowestKeeps(txs.items, threshold);
      drops := txs.Cap(threshold);
    }

    method Remove(tx: Tx) returns (found: bool, invalids: seq<Tx>)
      requires Valid()
      modifies txs
      ensures Valid()
      ensures found <==> tx.nonce in old(txs.items)
      ensures txs.items == Removed(strict, old(txs.items), tx.nonce)
      ensures forall t :: t in invalids <==> strict && found && Has(From(old(txs.items), tx.nonce + 1), t)
    {
      ghost var m := txs.items;
      found := txs.Remove(tx.nonce);
      invalids := [];
      if found && strict {
        StrictRemoval(m, tx.nonce);
        invalids := txs.Filter((t: Tx) => tx.nonce < t.nonce);
      }
    }

    method Ready(start: nat) returns (ready: seq<Tx>)
      requires Valid()
      modifies txs
      ensures Valid()
      ensures old(txs.items) == map[] || Least(old(txs.items).Keys) > start ==>
                ready == [] && txs.items == old(txs.items)
      ensures old(txs.items) != map[] && Least(old(txs.items).Keys) <= start ==>
                var end := RunEnd(old(txs.items), Least(old(txs.items).Keys));
                && txs.items == From(old(txs.items), end)
                && Lists(ready, Below(old(txs.items), end))
    {
      ready := txs.Ready(start);
    }
  }

  /** The loop of `Filter` that finds the lowest removed nonce. */
  method LowestNonce(removed: seq<Tx>, ghost m: TxMap, ghost costLimit: nat, ghost gasLimit: nat) returns (lowest: nat)
    requires Keyed(m) && removed != []
    requires forall t :: t in removed <==> Has(Unpayable(m, costLimit, gasLimit), t)
    ensures Unpayable(m, costLimit, gasLimit) != map[] && lowest == Least(Unpayable(m, costLimit, gasLimit).Keys)
  {
    lowest := MAX_UINT64;
    var i := 0;
    while i < |removed|
      invariant 0 <= i <= |removed|
      invariant forall j :: 0 <= j < i ==> lowest <= removed[j].nonce
      invariant i == 0 ==> lowest == MAX_UINT64
      invariant i > 0 ==> exists j :: 0 <= j < i && removed[j].nonce == lowest
    {
      if removed[i].nonce < lowest {
        lowest := removed[i].nonce;
      }
      i := i + 1;
    }
    var bad := Unpayable(m, costLimit, gasLimit);
    var j :| 0 <= j < |removed| && removed[j].nonce == lowest;
    assert removed[j] in removed;
    forall n | n in bad ensures lowest <= n {
      assert Has(bad, bad[n]);
    }
  }

  /** The transaction costs no more and may use no more gas than the limits say. */
  ghost predicate Pays(t: Tx, costLimit: nat, gasLimit: nat) {
    t.cost <= costLimit && t.gas <= gasLimit
  }

  /** A strict list keeps what is payable up to the first transaction that is not. */
  lemma KeptMeans(strict: bool, m: TxMap, costLimit: nat, gasLimit: nat)
    ensures forall n :: n in Kept(strict, m, costLimit, gasLimit) <==>
              n in m && Pays(m[n], costLimit, gasLimit) && (strict ==> forall k :: k in m && k < n ==> Pays(m[k], costLimit, gasLimit))
    ensures forall n :: n in Kept(strict, m, costLimit, gasLimit) ==> Kept(strict, m, costLimit, gasLimit)[n] == m[n]
  {
    var bad := Unpayable(m, costLimit, gasLimit);
    assert forall n :: n in m && !Pays(m[n], costLimit, gasLimit) ==> n in bad.Keys;
    assert bad != map[] ==> Least(bad.Keys) in bad.Keys;
  }

  // ---- Facts used by `Filter` ----

  lemma CapsSuffice(m: TxMap, costcap: nat, gascap: nat, costLimit: nat, gasLimit: nat)
    requires Bounded(m, costcap, gascap) && costcap <= costLimit && gascap <= gasLimit
    ensures forall t :: Has(m, t) ==> !TooCostly(t, costLimit, gasLimit)
  {
  }

  lemma KeptBounded(strict: bool, m: TxMap, costLimit: nat, gasLimit: nat)
    ensures Bounded(Kept(strict, m, costLimit, gasLimit), costLimit, gasLimit)
  {
    var bad := Unpayable(m, costLimit, gasLimit);
    assert forall n :: n in m && TooCostly(m[n], costLimit, gasLimit) ==> n in bad.Keys;
  }

  lemma UnpayableIs(m: TxMap, costLimit: nat, gasLimit: nat)
    requires Keyed(m)
    ensures forall t :: Has(Unpayable(m, costLimit, gasLimit), t) <==> Has(m, t) && TooCostly(t, costLimit, gasLimit)
  {
  }

  lemma NothingUnpayable(strict: bool, m: TxMap, costLimit: nat, gasLimit: nat)
    requires Keyed(m)
    requires forall t :: Has(m, t) ==> !TooCostly(t, costLimit, gasLimit)
    ensures Unpayable(m, costLimit, gasLimit) == map[] && Kept(strict, m, costLimit, gasLimit) == m
    ensures Invalidated(strict, m, costLimit, gasLimit) == map[]
  {
    assert forall n :: n in m ==> Has(m, m[n]);
  }

  lemma StrictParts(m: TxMap, costLimit: nat, gasLimit: nat, lowest: nat)
    requires Keyed(m) && Unpayable(m, costLimit, gasLimit) != map[]
    requires lowest == Least(Unpayable(m, costLimit, gasLimit).Keys)
    ensures var rest := Kept(false, m, costLimit, gasLimit);
      && Without(rest, (t: Tx) => lowest < t.nonce) == Kept(true, m, costLimit, gasLimit)
      && forall t :: Has(rest, t) && lowest < t.nonce <==> Has(Invalidated(true, m, costLimit, gasLimit), t)
  {
    var bad := Unpayable(m, costLimit, gasLimit);
    assert lowest in bad;
    assert forall n :: n in m && n < lowest ==> n !in bad.Keys;
  }

  lemma LooseParts(m: TxMap, costLimit: nat, gasLimit: nat)
    requires Keyed(m)
    ensures Without(m, (t: Tx) => TooCostly(t, costLimit, gasLimit)) == Kept(false, m, costLimit, gasLimit)
    ensures Invalidated(false, m, costLimit, gasLimit) == map[]
  {
  }

  lemma StrictRemoval(m: TxMap, nonce: nat)
    requires Keyed(m) && nonce in m
    ensures Without(m - {nonce}, (t: Tx) => nonce < t.nonce) == Removed(true, m, nonce)
    ensures forall t: Tx :: Has(m - {nonce}, t) && nonce < t.nonce <==> Has(From(m, nonce + 1), t)
  {
  }

  // ---- Gapless lists stay gapless ----

  /** Each operation of a gapless list leaves a gapless list. */
  lemma GaplessForward(m: TxMap, lo: nat, hi: nat, threshold: nat)
    requires Spans(m, lo, hi)
    ensures Spans(From(m, threshold), if threshold < lo then lo else threshold, hi)
  {
  }

  lemma GaplessFilter(m: TxMap, lo: nat, hi: nat, costLimit: nat, gasLimit: nat)
    requires Spans(m, lo, hi)
    ensures var bad := Unpayable(m, costLimit, gasLimit);
      var end := if bad == map[] then hi else Least(bad.Keys);
      && Spans(Kept(true, m, costLimit, gasLimit), lo, end)
      && (forall n :: n in Invalidated(true, m, costLimit, gasLimit) ==> end < n < hi)
  {
    var bad := Unpayable(m, costLimit, gasLimit);
    assert forall n :: n in m && TooCostly(m[n], costLimit, gasLimit) ==> n in bad.Keys;
    if bad != map[] {
      assert Least(bad.Keys) in m;
    }
  }

  lemma {:induction false} GaplessCap(m: TxMap, lo: nat, hi: nat, k: nat)
    requires Spans(m, lo, hi) && lo <= hi
    ensures Spans(Lowest(m, k), lo, if hi - lo <= k then hi else lo + k)
    decreases hi - lo
  {
    SpanSize(m, lo, hi);
    if |m| > k {
      var top := Greatest(m.Keys);
      assert hi - 1 in m.Keys && top in m.Keys;
      assert Spans(m - {top}, lo, hi - 1);
      GaplessCap(m - {top}, lo, hi - 1, k);
    }
  }

  lemma KeyRemoved(m: TxMap, n: nat)
    requires n in m
    ensures |m - {n}| == |m| - 1
  {
    assert (m - {n}).Keys == m.Keys - {n};
  }

  lemma {:induction false} SpanSize(m: TxMap, lo: nat, hi: nat)
    requires Spans(m, lo, hi) && lo <= hi
    ensures |m| == hi - lo
    decreases hi - lo
  {
    if lo == hi {
      assert m.Keys == {};
    } else {
      KeyRemoved(m, hi - 1);
      SpanSize(m - {hi - 1}, lo, hi - 1);
    }
  }

  lemma GaplessRemove(m: TxMap, lo: nat, hi: nat, nonce: nat)
    requires Spans(m, lo, hi) && lo <= nonce < hi
    ensures Spans(Removed(true, m, nonce), lo, nonce) && Spans(From(m, nonce + 1), nonce + 1, hi)
  {
  }

  /** Removed, invalidated and kept transactions partition a list, strict or not. */
  lemma FilterPartitions(strict: bool, m: TxMap, costLimit: nat, gasLimit: nat)
    ensures var bad := Unpayable(m, costLimit, gasLimit);
      var kept := Kept(strict, m, costLimit, gasLimit);
      var invalid := Invalidated(strict, m, costLimit, gasLimit);
      && bad.Keys + kept.Keys + invalid.Keys == m.Keys && |bad| + |kept| + |invalid| == |m|
  {
    var bad := Unpayable(m, costLimit, gasLimit).Keys;
    var kept := Kept(strict, m, costLimit, gasLimit).Keys;
    var invalid := Invalidated(strict, m, costLimit, gasLimit).Keys;
    assert bad !! kept && kept <= m.Keys && bad <= m.Keys;
    hide Unpayable, Kept;
    assert invalid == m.Keys - bad - kept;
    SplitInThree(m.Keys, bad, kept, invalid);
  }

  lemma SplitInThree(all: set<nat>, a: set<nat>, b: set<nat>, c: set<nat>)
    requires a !! b && a <= all && b <= all && c == all - a - b
    ensures a + b + c == all && |a| + |b| + |c| == |all|
  {
    assert a + b + c == all;
  }
}
