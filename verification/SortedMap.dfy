/** txSortedMap of core/tx_list.go: a nonce -> transaction map with a heap of its nonces
    and a cache of the nonce-sorted listing. */
module SortedMaps {
  import opened Transactions
  import Heap = BinaryHeap

  function NonceRank(n: nat): int { n }

  function Nonces(s: seq<Tx>): (r: seq<nat>)
    ensures |r| == |s| && forall i :: 0 <= i < |s| ==> r[i] == s[i].nonce
  {
    seq(|s|, i requires 0 <= i < |s| => s[i].nonce as nat)
  }

  function Reversed(s: seq<Tx>): (r: seq<Tx>)
    ensures |r| == |s| && forall i :: 0 <= i < |s| ==> r[i] == s[|s| - 1 - i]
  {
    seq(|s|, i requires 0 <= i < |s| => s[|s| - 1 - i])
  }

  /** One past the last nonce of the run of consecutive nonces that starts at `n`. */
  function RunEnd(m: TxMap, n: nat): (e: nat)
    decreases |From(m, n)|
  {
    if n !in m then n else
      assert From(m, n + 1).Keys == From(m, n).Keys - {n};
      RunEnd(m, n + 1)
  }

  /** The run is the longest there is: all of it is stored and the nonce after it is not. */
  lemma {:induction false} RunIsMaximal(m: TxMap, n: nat, e: nat)
    ensures e == RunEnd(m, n) <==> n <= e && e !in m && forall k :: n <= k < e ==> k in m
    decreases |From(m, n)|
  {
    if n in m {
      assert From(m, n + 1).Keys == From(m, n).Keys - {n};
      RunIsMaximal(m, n + 1, e);
      assert (forall k :: n <= k < e ==> k in m) <==> (forall k :: n + 1 <= k < e ==> k in m);
    }
  }

  /** What `Ready` returns is gapless: its nonces count up from the lowest one. */
  lemma {:induction false} ReadyIsGapless(m: TxMap, s: seq<Tx>, i: nat)
    requires Keyed(m) && m != map[] && Lists(s, Below(m, RunEnd(m, Least(m.Keys)))) && i < |s|
    ensures s[i].nonce == Least(m.Keys) + i
  {
    var least := Least(m.Keys);
    var end := RunEnd(m, least);
    RunIsMaximal(m, least, end);
    var want := least + i;
    if i > 0 {
      ReadyIsGapless(m, s, i - 1);
      assert s[i] in s;
      assert want < end;
      ListingIsComplete(s, Below(m, end), m[want]);
    } else {
      ListingIsComplete(s, Below(m, end), m[least]);
    }
  }

  lemma RunUnfolds(m: TxMap, n: nat)
    ensures RunEnd(m, n) == if n in m then RunEnd(m, n + 1) else n
  {
  }

  /** `index` is a min-heap that holds each stored nonce exactly once. */
  ghost predicate Indexes(index: seq<nat>, items: TxMap) {
    Heap.IsHeap(index, NonceRank) && forall n: nat :: multiset(index)[n] == (if n in items then 1 else 0)
  }

  // ---- The heap operations, as operations on the index of a map ----

  method PushNonce(index: seq<nat>, ghost items: TxMap, tx: Tx) returns (r: seq<nat>)
    requires Indexes(index, items) && tx.nonce !in items
    ensures Indexes(r, items[tx.nonce := tx])
  {
    r := Heap.Push(index, NonceRank, tx.nonce);
  }

  method PopNonce(index: seq<nat>, ghost items: TxMap) returns (nonce: nat, r: seq<nat>)
    requires Indexes(index, items) && index != []
    ensures items != map[] && nonce == index[0] == Least(items.Keys)
    ensures Indexes(r, items - {nonce}) && |r| == |index| - 1
  {
    IndexRoot(items, index);
    nonce, r := Heap.Pop(index, NonceRank);
  }

  method RemoveNonce(index: seq<nat>, ghost items: TxMap, at: nat) returns (r: seq<nat>)
    requires Indexes(index, items) && at < |index|
    ensures Indexes(r, items - {index[at]})
  {
    r := Heap.Remove(index, NonceRank, at);
  }

  method InitNonces(nonces: seq<nat>, ghost items: TxMap) returns (r: seq<nat>)
    requires forall n: nat :: multiset(nonces)[n] == (if n in items then 1 else 0)
    ensures Indexes(r, items)
  {
    r := Heap.Init(nonces, NonceRank);
  }

  method InitListing(sorted: seq<Tx>, k: nat, ghost items: TxMap) returns (r: seq<nat>)
    requires k <= |sorted| && Lists(sorted[..k], items)
    ensures Indexes(r, items)
  {
    NoncesOnce(items, sorted[..k]);
    r := InitNonces(Nonces(sorted[..k]), items);
  }

  /** The state of a filter loop that has looked at all nonces but those of `todo`. */
  ghost predicate Filtering(all: TxMap, left: TxMap, p: Tx -> bool, removed: seq<Tx>, todo: set<nat>) {
    && todo <= left.Keys <= all.Keys && |removed| == |all| - |left|
    && (forall n :: n in left ==> left[n] == all[n])
    && (forall n :: n in all && n !in todo ==> (n in left <==> !p(all[n])))
    && (forall t :: t in removed <==> Has(all, t) && t.nonce !in left)
  }

  lemma FilterStep(all: TxMap, left: TxMap, p: Tx -> bool, removed: seq<Tx>, todo: set<nat>, n: nat)
    requires Keyed(all) && Filtering(all, left, p, removed, todo) && n in todo
    ensures n in left && todo - {n} < todo
    ensures if p(left[n]) then Filtering(all, left - {n}, p, removed + [left[n]], todo - {n}) else Filtering(all, left, p, removed, todo - {n})
  {
    assert (left - {n}).Keys == left.Keys - {n};
  }

  class SortedMap {
    var items: TxMap
    var index: seq<nat>
    var cache: Option<seq<Tx>>

    ghost predicate Valid()
      reads this
    {
      && Keyed(items)
      && Indexes(index, items)
      && (cache.Some? ==> Lists(cache.value, items))
    }

    constructor ()
      ensures Valid() && items == map[]
    {
      items, index, cache := map[], [], None;
    }

    method Get(nonce: nat) returns (tx: Option<Tx>)
      ensures tx == if nonce in items then Some(items[nonce]) else None
    {
      if nonce in items { tx := Some(items[nonce]); } else { tx := None; }
    }

    method Put(tx: Tx)
      requires Valid()
      modifies this
      ensures Valid() && items == old(items)[tx.nonce := tx]
    {
      if tx.nonce !in items {
        index := PushNonce(index, items, tx);
      }
      items := items[tx.nonce := tx];
      cache := None;
    }

    /** Removes and returns, in nonce order, everything below the threshold. */
    method Forward(threshold: nat) returns (removed: seq<Tx>)
      requires Valid()
      modifies this
      ensures Valid() && items == From(old(items), threshold)
      ensures Lists(removed, Below(old(items), threshold))
      ensures cache.Some? <==> old(cache).Some?
    {
      removed := PopBelow(threshold);
      if cache.Some? {
        ListingCuts(old(items), threshold, cache.value);
        cache := Some(cache.value[|removed|..]);
      }
    }

    /** The loop of `Forward`: pops the index while its root is below the threshold. */
    method PopBelow(threshold: nat) returns (removed: seq<Tx>)
      requires Keyed(items) && Indexes(index, items)
      modifies this`items, this`index
      ensures Indexes(index, items) && items == From(old(items), threshold)
      ensures Lists(removed, Below(old(items), threshold))
    {
      hide Lists, Indexes, Least, From, Below, Keyed;
      removed := [];
      ghost var all := items;
      ghost var done: nat := 0;
      NothingBelowZero(all);
      while index != [] && index[0] < threshold
        invariant done <= threshold && Indexes(index, items) && items == From(all, done)
        invariant Lists(removed, Below(all, done))
        decreases |index|
      {
        var nonce;
        nonce, index := PopNonce(index, items);
        PopLeast(all, done, nonce, removed);
        removed := removed + [items[nonce]];
        items := items - {nonce};
        done := nonce + 1;
      }
      NothingBetween(all, done, threshold, index);
    }

    /** Removes every transaction that satisfies the filter, without rebuilding the index. */
    method FilterOnly(p: Tx -> bool) returns (removed: seq<Tx>)
      requires Keyed(items)
      modifies this`items, this`cache
      ensures items == Without(old(items), p) && Keyed(items)
      ensures |removed| == |old(items)| - |items|
      ensures forall t :: t in removed <==> Has(old(items), t) && p(t)
      ensures cache == if removed == [] then old(cache) else None
    {
      removed := [];
      var todo := items.Keys;
      while todo != {}
        invariant Filtering(old(items), items, p, removed, todo) && cache == old(cache)
        decreases todo
      {
        hide Filtering;
        var n: nat :| n in todo;
        FilterStep(old(items), items, p, removed, todo, n);
        todo := todo - {n};
        if p(items[n]) {
          removed := removed + [items[n]];
          items := items - {n};
        }
      }
      if removed != [] {
        cache := None;
      }
    }

    /** Rebuilds the index from the stored nonces and drops the cache. */
    method Reheap()
      requires Keyed(items)
      modifies this`index, this`cache
      ensures Valid() && cache == None
    {
      index := [];
      var todo := items.Keys;
      while todo != {}
        invariant todo <= items.Keys
        invariant forall n: nat :: multiset(index)[n] == (if n in items && n !in todo then 1 else 0)
        decreases todo
      {
        var n :| n in todo;
        todo := todo - {n};
        index := index + [n];
      }
      index := InitNonces(index, items);
      cache := None;
    }

    method Filter(p: Tx -> bool) returns (removed: seq<Tx>)
      requires Valid()
      modifies this
      ensures Valid() && items == Without(old(items), p)
      ensures |removed| == |old(items)| - |items|
      ensures forall t :: t in removed <==> Has(old(items), t) && p(t)
    {
      removed := FilterOnly(p);
      if removed != [] {
        Reheap();
      } else {
        assert forall n :: n in old(items) ==> old(items)[n] !in removed;
        assert items == old(items);
      }
    }

    /** Keeps the lowest nonces only; the others are returned from the highest down. */
    method Cap(threshold: nat) returns (drops: seq<Tx>)
      requires Valid()
      modifies this
      ensures Valid() && items == Lowest(old(items), threshold)
      ensures |drops| == |old(items)| - |items|
      ensures Lists(SortByNonce(items) + Reversed(drops), old(items))
      ensures cache.Some? <==> old(cache).Some?
    {
      SortByNonceLists(items);
      if |items| <= threshold {
        return [];
      }
      var sorted := SortByNonce(items);
      drops := DropAbove(sorted, threshold);
      SortByNonceLists(items);
      ListingIsUnique(sorted[..threshold], SortByNonce(items), items);
      assert sorted == SortByNonce(items) + Reversed(drops);
      if cache.Some? {
        ListingIsUnique(cache.value, sorted, old(items));
        cache := Some(cache.value[..|cache.value| - |drops|]);
      }
    }

    /** The loop of `Cap`: walks down from the end of the sorted index. */
    method DropAbove(sorted: seq<Tx>, threshold: nat) returns (drops: seq<Tx>)
      requires Keyed(items) && Lists(sorted, items) && threshold < |items|
      modifies this`items, this`index
      ensures Keyed(items) && Indexes(index, items) && items == Lowest(old(items), threshold)
      ensures Lists(sorted[..threshold], items) && Reversed(drops) == sorted[threshold..]
    {
      drops := [];
      index := Nonces(sorted);
      assert |sorted| == |items| && sorted[..|items|] == sorted;
      assert Reversed(drops) == sorted[|items|..];
      hide Lists, Keyed, Lowest, Reversed;
      var size := |items|;
      while size > threshold
        invariant threshold <= size == |items| <= |sorted| && Keyed(items)
        invariant Lowest(items, threshold) == Lowest(old(items), threshold)
        invariant Lists(sorted[..size], items)
        invariant Reversed(drops) == sorted[size..]
        invariant index == Nonces(sorted)
      {
        DropGreatest(items, sorted, size, threshold);
        ReversedAppend(drops, sorted, size);
        var top := index[size - 1];
        drops := drops + [items[top]];
        items := items - {top};
        size := size - 1;
      }
      LowestOfFew(items, threshold);
      index := InitListing(sorted, threshold, items);
    }

    method Remove(nonce: nat) returns (found: bool)
      requires Valid()
      modifies this
      ensures Valid() && items == old(items) - {nonce}
      ensures found <==> nonce in old(items)
    {
      if nonce !in items {
        return false;
      }
      assert nonce in multiset(index);
      var i := 0;
      while index[i] != nonce
        invariant 0 <= i < |index| && nonce in index[i..]
        decreases |index| - i
      {
        i := i + 1;
      }
      index := RemoveNonce(index, items, i);
      items := items - {nonce};
      cache := None;
      return true;
    }

    /** Removes and returns the run of consecutive nonces that begins at the lowest one,
        provided that one is not above `start`. */
    method Ready(start: nat) returns (ready: seq<Tx>)
      requires Valid()
      modifies this
      ensures Valid()
      ensures old(items) == map[] || Least(old(items).Keys) > start ==>
                ready == [] && items == old(items) && cache == old(cache)
      ensures old(items) != map[] && Least(old(items).Keys) <= start ==>
                var end := RunEnd(old(items), Least(old(items).Keys));
                && items == From(old(items), end)
                && Lists(ready, Below(old(items), end))
    {
      if items != map[] {
        LeastInIndex(items, index);
      }
      if index == [] || index[0] > start {
        return [];
      }
      IndexRoot(items, index);
      ready := PopRun();
      cache := None;
    }

    /** The loop of `Ready`: pops the index while its root is the next nonce. */
    method PopRun() returns (ready: seq<Tx>)
      requires Keyed(items) && Indexes(index, items) && index != [] && items != map[] && index[0] == Least(items.Keys)
      modifies this`items, this`index
      ensures var end := RunEnd(old(items), Least(old(items).Keys));
              items == From(old(items), end) && Lists(ready, Below(old(items), end))
      ensures Indexes(index, items)
    {
      hide Lists, Indexes, RunEnd, Least, From, Below, Keyed;
      ready := [];
      ghost var all := items;
      ghost var least := index[0];
      NothingBelowLeast(all);
      var next := index[0];
      while index != [] && index[0] == next
        invariant least <= next
        invariant Indexes(index, items) && items == From(all, next)
        invariant RunEnd(all, next) == RunEnd(all, least)
        invariant Lists(ready, Below(all, next))
        decreases |index|
      {
        var popped;
        popped, index := PopNonce(index, items);
        PopLeast(all, next, next, ready);
        RunUnfolds(all, next);
        ready := ready + [items[next]];
        items := items - {next};
        next := next + 1;
      }
      NotRooted(all, index, next);
      RunUnfolds(all, next);
    }

    /** `flatten`: the cached listing, built on demand. */
    method Listing() returns (txs: seq<Tx>)
      requires Valid()
      modifies this`cache
      ensures Valid() && txs == SortByNonce(items)
    {
      SortByNonceLists(items);
      if cache == None {
        cache := Some(SortByNonce(items));
      }
      ListingIsUnique(cache.value, SortByNonce(items), items);
      txs := cache.value;
    }

    /** The transaction with the highest nonce; the list must not be empty. */
    method LastElement() returns (tx: Tx)
      requires Valid() && items != map[]
      modifies this`cache
      ensures Valid() && tx == items[Greatest(items.Keys)]
    {
      var txs := Listing();
      SortByNonceLists(items);
      ListingEnd(items, txs);
      tx := txs[|txs| - 1];
    }
  }

  // ---- Facts used by the methods ----

  lemma LeastInIndex(items: TxMap, index: seq<nat>)
    requires Indexes(index, items) && items != map[]
    ensures index != [] && index[0] == Least(items.Keys)
  {
    assert Least(items.Keys) in multiset(index);
    Heap.RootIsLeastElement(index, NonceRank);
    assert index[0] in multiset(index);
  }

  /** The root of a non-empty index is the least stored nonce. */
  lemma IndexRoot(items: TxMap, index: seq<nat>)
    requires Indexes(index, items) && index != []
    ensures items != map[] && index[0] == Least(items.Keys)
  {
    assert index[0] in multiset(index);
    assert index[0] in items.Keys;
    LeastInIndex(items, index);
  }

  lemma NotRooted(items: TxMap, index: seq<nat>, next: nat)
    requires Indexes(index, From(items, next)) && (index == [] || index[0] != next)
    ensures next !in items
  {
    if From(items, next) != map[] {
      LeastInIndex(From(items, next), index);
    }
    assert next in items ==> next in From(items, next).Keys;
  }

  /** Popping the least nonce that is left extends the listing of what was taken. */
  lemma PopLeast(m: TxMap, done: nat, nonce: nat, taken: seq<Tx>)
    requires Keyed(m) && From(m, done) != map[] && nonce == Least(From(m, done).Keys)
    requires Lists(taken, Below(m, done))
    ensures nonce in m && Lists(taken + [m[nonce]], Below(m, nonce + 1))
    ensures nonce in From(m, done) && From(m, done)[nonce] == m[nonce]
    ensures From(m, done) - {nonce} == From(m, nonce + 1)
  {
    hide Lists;
    assert nonce in From(m, done);
    assert forall n :: n in m && done <= n ==> n in From(m, done).Keys;
    assert Below(m, nonce + 1) == Below(m, done)[nonce := m[nonce]];
    ListsNext(Below(m, done), taken, m[nonce]);
  }

  lemma ListsNext(m: TxMap, s: seq<Tx>, t: Tx)
    requires Lists(s, m) && forall n :: n in m ==> n < t.nonce
    ensures Lists(s + [t], With(m, t))
  {
    assert With(m, t).Keys == m.Keys + {t.nonce as nat};
  }

  lemma NothingBetween(m: TxMap, done: nat, threshold: nat, index: seq<nat>)
    requires Indexes(index, From(m, done))
    requires done <= threshold && (index == [] || index[0] >= threshold)
    ensures From(m, done) == From(m, threshold) && Below(m, done) == Below(m, threshold)
  {
    if From(m, done) != map[] {
      LeastInIndex(From(m, done), index);
    }
    assert forall n :: n in m && done <= n ==> n in From(m, done).Keys;
  }

  lemma NothingBelowLeast(m: TxMap)
    requires m != map[]
    ensures From(m, Least(m.Keys)) == m && Lists([], Below(m, Least(m.Keys)))
  {
  }

  lemma NothingBelowZero(m: TxMap)
    ensures From(m, 0) == m && Lists([], Below(m, 0))
  {
  }

  /** One turn of the loop of `Cap`. */
  lemma DropGreatest(m: TxMap, sorted: seq<Tx>, size: nat, k: nat)
    requires Keyed(m) && k < size <= |sorted| && size == |m| && Lists(sorted[..size], m)
    ensures var last := sorted[size - 1]; var rest := m - {last.nonce as nat};
      && Has(m, last) && Keyed(rest) && |rest| == size - 1
      && Lists(sorted[..size - 1], rest) && Lowest(rest, k) == Lowest(m, k)
  {
    ListingEnd(m, sorted[..size]);
    assert sorted[..size][..size - 1] == sorted[..size - 1];
  }

  lemma ReversedAppend(drops: seq<Tx>, sorted: seq<Tx>, size: nat)
    requires 0 < size <= |sorted| && Reversed(drops) == sorted[size..]
    ensures Reversed(drops + [sorted[size - 1]]) == sorted[size - 1..]
  {
    assert Reversed(drops + [sorted[size - 1]]) == [sorted[size - 1]] + Reversed(drops);
  }

  lemma LowestOfFew(m: TxMap, k: nat)
    requires |m| <= k
    ensures Lowest(m, k) == m
  {
  }

  lemma {:induction false} NoncesOnce(m: TxMap, s: seq<Tx>)
    requires Lists(s, m)
    ensures forall n: nat :: multiset(Nonces(s))[n] == (if n in m then 1 else 0)
    decreases |s|
  {
    if s == [] {
      assert m.Keys == {};
    } else {
      var last := s[|s| - 1];
      var rest := m - {last.nonce as nat};
      assert rest.Keys == m.Keys - {last.nonce as nat};
      NoncesOnce(rest, s[..|s| - 1]);
      assert Nonces(s) == Nonces(s[..|s| - 1]) + [last.nonce];
    }
  }
}
