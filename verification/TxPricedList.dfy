/** txPricedList of core/tx_list.go: a price-ordered heap over the remote transactions,
    cleaned lazily. Entries whose transaction has gone from the remotes are stale; the
    list only counts them and rebuilds itself when the count grows too large. */
module TxPricedLists {
  import opened Transactions
  import opened TxLookups
  import Heap = BinaryHeap

  const NONCE_SPAN: int := 0x1_0000_0000_0000_0000

  /** priceHeap.Less: cheaper first and, at equal prices, the higher nonce first. */
  function PriceRank(t: Tx): int {
    t.price * NONCE_SPAN + (NONCE_SPAN - 1 - t.nonce)
  }

  lemma PriceRankOrders(a: Tx, b: Tx)
    ensures PriceRank(a) < PriceRank(b) <==> a.price < b.price || (a.price == b.price && a.nonce > b.nonce)
    ensures PriceRank(a) <= PriceRank(b) ==> a.price <= b.price
  {
  }

  function SeqSlots(s: seq<Tx>): nat {
    if s == [] then 0 else SeqSlots(s[..|s| - 1]) + s[|s| - 1].slots
  }

  /** `heap` is in price order and misses none of `live`. */
  ghost predicate Tracks(heap: seq<Tx>, live: set<Tx>) {
    Heap.IsHeap(heap, PriceRank) && forall t :: t in live ==> t in heap
  }

  /** No entry of the heap is cheaper than any of `taken`. */
  ghost predicate Cheapest(taken: seq<Tx>, heap: seq<Tx>) {
    forall x, y :: x in taken && y in heap ==> PriceRank(x) <= PriceRank(y)
  }

  /** No live transaction has two entries. */
  ghost predicate Single(heap: seq<Tx>, live: set<Tx>) {
    forall t :: t in live ==> multiset(heap)[t] <= 1
  }

  /** The entries of live transactions are those of `before`, less those in `taken`. */
  ghost predicate Keeps(before: seq<Tx>, heap: seq<Tx>, taken: seq<Tx>, live: set<Tx>) {
    forall t :: t in live ==> multiset(before)[t] == multiset(heap)[t] + multiset(taken)[t]
  }

  /** heap.Pop */
  method PopCheapest(heap: seq<Tx>, ghost taken: seq<Tx>) returns (x: Tx, rest: seq<Tx>)
    requires Heap.IsHeap(heap, PriceRank) && heap != [] && Cheapest(taken, heap)
    ensures x == heap[0] && x in heap && Heap.IsHeap(rest, PriceRank) && |rest| == |heap| - 1
    ensures multiset(heap) == multiset(rest) + multiset{x}
    ensures forall t :: t in heap <==> t == x || t in rest
    ensures Cheapest(taken, rest) && Cheapest(taken + [x], rest)
  {
    x, rest := Heap.Pop(heap, PriceRank);
    forall t ensures t in heap <==> t == x || t in rest {
      assert t in heap <==> t in multiset(heap);
      assert t in rest <==> t in multiset(rest);
    }
    forall t | t in rest ensures PriceRank(x) <= PriceRank(t) {
      assert t in multiset(heap);
    }
  }

  class TxPricedList {
    const all: TxLookup
    var heap: seq<Tx>
    var stales: int

    /** What holds between operations: every live remote transaction is in the heap, and
        the stale counter is never too low. */
    ghost predicate Valid()
      reads this, all
    {
      Tracks(heap, all.remotes) && Slack() >= 0
    }

    /** How far the stale counter exceeds the number of superfluous entries. */
    ghost function Slack(): int
      reads this, all
    {
      stales + |all.remotes| - |heap|
    }

    constructor (all: TxLookup)
      requires all.remotes == {}
      ensures Valid() && this.all == all && heap == [] && stales == 0
    {
      this.all := all;
      heap, stales := [], 0;
    }

    method Put(tx: Tx, local: bool)
      requires Heap.IsHeap(heap, PriceRank)
      modifies this
      ensures Heap.IsHeap(heap, PriceRank) && stales == old(stales)
      ensures local ==> heap == old(heap)
      ensures !local ==> multiset(heap) == multiset(old(heap)) + multiset{tx}
      ensures !local ==> |heap| == |old(heap)| + 1 && forall t :: t in heap <==> t in old(heap) || t == tx
    {
      if !local {
        heap := Heap.Push(heap, PriceRank, tx);
        forall t ensures t in heap <==> t in old(heap) || t == tx {
          assert t in heap <==> t in multiset(heap);
          assert t in old(heap) <==> t in multiset(old(heap));
        }
      }
    }

    /** Accounts for `count` transactions that have left the lookup. If the counter was not
        short by more than those, at least three quarters of the heap are live afterwards. */
    method Removed(count: nat)
      requires Tracks(heap, all.remotes)
      modifies this
      ensures Tracks(heap, all.remotes)
      ensures Slack() == old(Slack()) + count || Slack() == 0
      ensures old(stales) + count <= |old(heap)| / 4 ==> heap == old(heap) && stales == old(stales) + count
      ensures old(stales) + count > |old(heap)| / 4 ==> stales == 0 && Single(heap, all.remotes)
      ensures old(Slack()) + count >= 0 ==> Valid() && 4 * |all.remotes| >= 3 * |heap|
    {
      stales := stales + count;
      if stales <= |heap| / 4 {
        return;
      }
      Reheap();
    }

    /** Rebuilds the heap from the remote transactions. */
    method Reheap()
      modifies this
      ensures Valid() && stales == 0 && |heap| == |all.remotes| && Single(heap, all.remotes)
      ensures forall t :: t in heap <==> t in all.remotes
    {
      var entries := [];
      var todo := all.remotes;
      while todo != {}
        invariant todo <= all.remotes
        invariant |entries| == |all.remotes| - |todo|
        invariant forall t :: t in entries <==> t in all.remotes && t !in todo
        invariant forall t :: multiset(entries)[t] <= 1
        decreases todo
      {
        var t :| t in todo;
        todo := todo - {t};
        assert t !in multiset(entries);
        entries := entries + [t];
      }
      heap := Heap.Init(entries, PriceRank);
      forall t ensures t in heap <==> t in all.remotes {
        assert t in heap <==> t in multiset(heap);
        assert t in entries <==> t in multiset(entries);
      }
      stales := 0;
    }

    /** Takes out every live transaction below the threshold, for removal by the caller. */
    method Cap(threshold: nat) returns (drop: seq<Tx>)
      requires Valid()
      modifies this
      ensures forall t :: t in drop <==> t in all.remotes && t.price < threshold
      ensures Tracks(heap, all.remotes - set t | t in drop)
      ensures Slack() == old(Slack()) + |drop|
    {
      drop := [];
      while heap != []
        invariant Heap.IsHeap(heap, PriceRank)
        invariant forall t :: t in all.remotes ==> t in heap || t in drop
        invariant forall t :: t in drop ==> t in all.remotes && t.price < threshold
        invariant Slack() == old(Slack()) + |drop|
        decreases |heap|
      {
        var cheapest := heap[0];
        var popped, rest := PopCheapest(heap, []);
        if cheapest !in all.remotes {
          heap := rest;
          stales := stales - 1;
          continue;
        }
        if cheapest.price >= threshold {
          NoneBelow(heap, threshold);
          break;
        }
        heap := rest;
        drop := drop + [cheapest];
      }
    }

    /** Whether `tx` is no dearer than the cheapest live remote transaction. */
    method Underpriced(tx: Tx) returns (b: bool)
      requires Valid()
      modifies this
      ensures Valid() && Slack() == old(Slack())
      ensures b <==> all.remotes != {} && forall t :: t in all.remotes ==> tx.price <= t.price
      ensures Keeps(old(heap), heap, [], all.remotes)
    {
      while heap != []
        invariant Tracks(heap, all.remotes) && Slack() == old(Slack()) && Keeps(old(heap), heap, [], all.remotes)
        decreases |heap|
      {
        if heap[0] in all.remotes {
          break;
        }
        var popped;
        popped, heap := PopCheapest(heap, []);
        stales := stales - 1;
      }
      if heap == [] {
        return false;
      }
      NoneBelow(heap, heap[0].price);
      return heap[0].price >= tx.price;
    }

    /** Takes out the cheapest live transactions until they free the wanted slots. If that
        is impossible and not forced, everything is put back. */
    method Discard(slots: int, force: bool) returns (drop: seq<Tx>, success: bool)
      requires Valid()
      modifies this
      ensures Tracks(heap, all.remotes - set t | t in drop)
      ensures Slack() == old(Slack()) + |drop|
      ensures forall d :: d in drop ==> d in all.remotes
      ensures forall d, t :: d in drop && t in all.remotes && t !in drop ==> d.price <= t.price
      ensures success ==> slots <= SeqSlots(drop) || (force && forall t :: t in all.remotes ==> t in drop)
      ensures drop != [] ==> SeqSlots(drop[..|drop| - 1]) < slots
      ensures !success ==> !force && drop == [] && SumSlots(all.remotes) < slots
      ensures Keeps(old(heap), heap, drop, all.remotes) && (success ==> Cheapest(drop, heap))
      ensures Single(old(heap), all.remotes) ==> SeqSlots(drop) == SumSlots(set t | t in drop)
      ensures Single(old(heap), all.remotes) && !force ==> (success <==> slots <= SumSlots(all.remotes))
    {
      hide SeqSlots, SumSlots, Cheapest, Single, Keeps;
      NoSlots();
      drop := TakeCheapest(slots);
      if Single(old(heap), all.remotes) {
        SingleSlots(old(heap), heap, drop, all.remotes);
      }
      if SeqSlots(drop) < slots && !force {
        CoverSlots(all.remotes, drop);
        KeepsBack(old(heap), heap, drop, all.remotes);
        PutBack(drop);
        return [], false;
      }
      CheaperThanRest(drop, heap);
      return drop, true;
    }

    /** The first loop of `Discard`. */
    method TakeCheapest(slots: int) returns (drop: seq<Tx>)
      requires Valid()
      modifies this
      ensures Heap.IsHeap(heap, PriceRank) && Cheapest(drop, heap)
      ensures forall t :: t in all.remotes ==> t in heap || t in drop
      ensures forall d :: d in drop ==> d in all.remotes
      ensures Slack() == old(Slack()) + |drop|
      ensures heap == [] || slots <= SeqSlots(drop)
      ensures drop != [] ==> SeqSlots(drop[..|drop| - 1]) < slots
      ensures Keeps(old(heap), heap, drop, all.remotes)
    {
      drop := [];
      var needed := slots;
      while heap != [] && needed > 0
        invariant Heap.IsHeap(heap, PriceRank) && Cheapest(drop, heap)
        invariant forall t :: t in all.remotes ==> t in heap || t in drop
        invariant forall d :: d in drop ==> d in all.remotes
        invariant Slack() == old(Slack()) + |drop|
        invariant needed == slots - SeqSlots(drop)
        invariant drop != [] ==> SeqSlots(drop[..|drop| - 1]) < slots
        invariant Keeps(old(heap), heap, drop, all.remotes)
        decreases |heap|
      {
        var tx;
        tx, heap := PopCheapest(heap, drop);
        if tx !in all.remotes {
          stales := stales - 1;
          continue;
        }
        assert (drop + [tx])[..|drop|] == drop;
        drop := drop + [tx];
        needed := needed - tx.slots;
      }
    }

    /** The second loop of `Discard`. */
    method PutBack(drop: seq<Tx>)
      requires Heap.IsHeap(heap, PriceRank)
      modifies this
      ensures Heap.IsHeap(heap, PriceRank) && stales == old(stales) && |heap| == |old(heap)| + |drop|
      ensures forall t :: t in heap <==> t in old(heap) || t in drop
      ensures multiset(heap) == multiset(old(heap)) + multiset(drop)
    {
      for i := 0 to |drop|
        invariant Heap.IsHeap(heap, PriceRank) && stales == old(stales) && |heap| == |old(heap)| + i
        invariant forall t :: t in heap <==> t in old(heap) || t in drop[..i]
        invariant multiset(heap) == multiset(old(heap)) + multiset(drop[..i])
      {
        Put(drop[i], false);
        assert drop[..i + 1] == drop[..i] + [drop[i]];
      }
      assert drop[..|drop|] == drop;
    }
  }

  lemma KeepsBack(before: seq<Tx>, heap: seq<Tx>, taken: seq<Tx>, live: set<Tx>)
    requires Keeps(before, heap, taken, live)
    ensures forall h :: multiset(h) == multiset(heap) + multiset(taken) ==> Keeps(before, h, [], live)
  {
  }

  /** If no live transaction has two entries, what is taken out counts each of them once. */
  lemma SingleSlots(before: seq<Tx>, heap: seq<Tx>, taken: seq<Tx>, live: set<Tx>)
    requires Single(before, live) && Keeps(before, heap, taken, live) && forall t :: t in taken ==> t in live
    ensures SeqSlots(taken) == SumSlots(set t | t in taken) <= SumSlots(live)
  {
    forall t ensures multiset(taken)[t] <= 1 {
      assert t in live ==> multiset(before)[t] == multiset(heap)[t] + multiset(taken)[t];
      assert t !in live ==> t !in multiset(taken);
    }
    DistinctSlots(taken);
    SumSlotsWithin((set t | t in taken), live);
  }

  lemma {:induction false} DistinctSlots(s: seq<Tx>)
    requires forall t :: multiset(s)[t] <= 1
    ensures SeqSlots(s) == SumSlots(set t | t in s)
    decreases |s|
  {
    if s == [] {
      assert (set t | t in s) == {};
    } else {
      var init, last := s[..|s| - 1], s[|s| - 1];
      assert s == init + [last];
      assert forall t :: multiset(s)[t] == multiset(init)[t] + multiset{last}[t];
      DistinctSlots(init);
      assert last !in multiset(init);
      SumSlotsAdd((set t | t in init), last);
      assert (set t | t in s) == (set t | t in init) + {last};
    }
  }

  lemma NoSlots()
    ensures SeqSlots([]) == 0 && SumSlots(set t | t in []) == 0
  {
  }

  lemma NoneBelow(heap: seq<Tx>, price: nat)
    requires Heap.IsHeap(heap, PriceRank) && heap != [] && heap[0].price >= price
    ensures forall t :: t in heap ==> t.price >= price
  {
    Heap.RootIsLeastElement(heap, PriceRank);
    forall t | t in heap ensures t.price >= price {
      assert t in multiset(heap);
      PriceRankOrders(heap[0], t);
    }
  }

  lemma {:induction false} MembersAtMost(live: set<Tx>, s: seq<Tx>)
    ensures |live - set t | t in s| >= |live| - |s|
    decreases |s|
  {
    if s == [] {
      assert live - (set t | t in s) == live;
    } else {
      var init, last := s[..|s| - 1], s[|s| - 1];
      MembersAtMost(live, init);
      assert live - (set t | t in s) == live - (set t | t in init) - {last};
    }
  }

  lemma CheaperThanRest(drop: seq<Tx>, heap: seq<Tx>)
    requires Cheapest(drop, heap)
    ensures forall d, t :: d in drop && t in heap ==> d.price <= t.price
  {
    forall d, t | d in drop && t in heap ensures d.price <= t.price {
      PriceRankOrders(d, t);
    }
  }

  /** Transactions taken from a list use no more slots together than the list counts. */
  lemma {:induction false} CoverSlots(live: set<Tx>, s: seq<Tx>)
    requires forall t :: t in live ==> t in s
    ensures SumSlots(live) <= SeqSlots(s)
    decreases |s|
  {
    if s != [] {
      var init, last := s[..|s| - 1], s[|s| - 1];
      assert forall t :: t in live - {last} ==> t in init;
      CoverSlots(live - {last}, init);
      if last in live {
        SumSlotsSplit(live, last);
      } else {
        assert live - {last} == live;
      }
    } else {
      assert forall t :: t in live ==> t in s;
      assert live == {};
    }
  }

  // ---- An entry that counts twice ----

  lemma {:induction false} UnitSlots(live: set<Tx>)
    requires forall t :: t in live ==> t.slots == 1
    ensures SumSlots(live) == |live|
    decreases |live|
  {
    if live != {} {
      var t :| t in live;
      UnitSlots(live - {t});
      SumSlotsSplit(live, t);
    }
  }

  lemma {:induction false} UnitSeqSlots(s: seq<Tx>)
    requires forall t :: t in s ==> t.slots == 1
    ensures SeqSlots(s) == |s|
    decreases |s|
  {
    if s != [] {
      UnitSeqSlots(s[..|s| - 1]);
    }
  }

  /** Two entries of the cheapest transaction are taken before any other. */
  lemma OnlyCheapest(before: seq<Tx>, heap: seq<Tx>, drop: seq<Tx>, live: set<Tx>, cheap: Tx)
    requires Keeps(before, heap, drop, live) && Cheapest(drop, heap) && cheap in live && multiset(before)[cheap] == 2
    requires forall t :: t in live ==> t.slots == 1 && (t == cheap || cheap.price < t.price)
    requires (forall d :: d in drop ==> d in live) && drop != [] && SeqSlots(drop[..|drop| - 1]) < 2 <= SeqSlots(drop)
    ensures drop == [cheap, cheap] && SeqSlots(drop) == 2 && SumSlots(set t | t in drop) == 1
  {
    hide Keeps, Cheapest, SeqSlots, SumSlots, PriceRank;
    UnitSeqSlots(drop);
    UnitSeqSlots(drop[..|drop| - 1]);
    TwiceCheapest(before, heap, drop, live, cheap);
    assert (set t | t in drop) == {cheap};
    UnitSlots({cheap});
  }

  lemma TwiceCheapest(before: seq<Tx>, heap: seq<Tx>, drop: seq<Tx>, live: set<Tx>, cheap: Tx)
    requires Keeps(before, heap, drop, live) && Cheapest(drop, heap) && cheap in live && multiset(before)[cheap] == 2
    requires |drop| == 2 && forall d :: d in drop ==> d == cheap || cheap.price < d.price
    ensures drop == [cheap, cheap]
  {
    hide PriceRank;
    var x, y := drop[0], drop[1];
    assert drop == [x, y];
    assert multiset(drop) == multiset{x, y};
    if cheap in heap {
      PriceRankOrders(x, cheap);
      PriceRankOrders(y, cheap);
    } else {
      assert cheap !in multiset(heap);
    }
  }

  method AddRemote(list: TxPricedList, tx: Tx)
    requires list.Valid() && list.all.Valid() && tx !in list.all.Known()
    modifies list, list.all
    ensures list.all.Valid() && list.all.remotes == old(list.all.remotes) + {tx}
    ensures list.all.Known() == old(list.all.Known()) + {tx}
    ensures list.Valid() && list.stales == old(list.stales) && multiset(list.heap) == multiset(old(list.heap)) + multiset{tx}
  {
    list.all.Add(tx, false);
    list.Put(tx, false);
  }

  /** A price list of `cheap` and four dearer transactions. */
  method Stocked(cheap: Tx) returns (list: TxPricedList)
    requires cheap.id == 0 && cheap.slots == 1
    ensures fresh(list) && fresh(list.all) && list.Valid() && list.all.Valid() && list.stales == 0
    ensures |list.heap| == |list.all.remotes| == 5 && multiset(list.heap)[cheap] == 1
    ensures cheap in list.all.remotes && list.all.Known() == list.all.remotes
    ensures forall t :: t in list.all.remotes ==> t.slots == 1 && (t == cheap || cheap.price < t.price)
  {
    hide SumSlots, Heap.IsHeap;
    var all := new TxLookup();
    list := new TxPricedList(all);
    AddRemote(list, cheap);
    for i := 1 to 5
      invariant list.all == all && list.Valid() && all.Valid() && list.stales == 0
      invariant multiset(list.heap)[cheap] == 1 && |list.heap| == |all.remotes| == i
      invariant cheap in all.remotes && all.Known() == all.remotes
      invariant forall t :: t in all.remotes ==> t.id < i && t.slots == 1 && (t == cheap || cheap.price < t.price)
    {
      AddRemote(list, Tx(i, i, 0, cheap.price + 1, 0, 0, 1));
    }
  }

  /** A transaction that was removed and added again while its old entry was still in the heap is
      counted twice: asked for two slots, `Discard` succeeds but frees one. */
  method CountedTwice(cheap: Tx) returns (list: TxPricedList, drop: seq<Tx>, success: bool)
    requires cheap.id == 0 && cheap.slots == 1
    ensures list.all.Valid() && success && SeqSlots(drop) == 2 && SumSlots(set t | t in drop) == 1
  {
    hide SeqSlots, SumSlots, Single, Keeps, Cheapest, Heap.IsHeap;
    list := Stocked(cheap);
    var found := list.all.Remove(cheap);
    assert |list.all.remotes| == 4;
    list.Removed(1);
    AddRemote(list, cheap);
    ghost var heap := list.heap;
    assert multiset(heap)[cheap] == 2;
    UnitSlots(list.all.remotes);
    NoSlots();
    drop, success := list.Discard(2, false);
    OnlyCheapest(heap, list.heap, drop, list.all.remotes, cheap);
  }
}
