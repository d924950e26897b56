/** What promotion and demotion owe an account, said of its transactions one by one. Each rule
    determines the account's new share, so it decides what the pool has to do. */
module AccountRules {
  import opened Transactions
  import opened SortedMaps
  import opened TxLists
  import opened PoolSteps

  /** What an account is judged by: its nonce and balance in the chain state, the block gas limit,
      and whether gas prices count. */
  datatype Terms = Terms(nonce: nat, balance: nat, maxGas: nat, priced: bool)

  // ---- Promotion ----

  /** The queued transaction of nonce `n` is not too old nor, where prices count, too costly. */
  ghost predicate Fit(x: Account, n: nat, c: Terms) {
    n in x.queue && c.nonce <= n && (c.priced ==> Pays(x.queue[n], c.balance, c.maxGas))
  }

  /** `n` is in the unbroken run of fit nonces that begins at the lowest one, and that one is not
      above the virtual nonce. */
  ghost predicate Ready(x: Account, n: nat, c: Terms) {
    Fit(x, n, c) && exists lo: nat :: ReadyFrom(x, lo, n, c)
  }

  ghost predicate ReadyFrom(x: Account, lo: nat, n: nat, c: Terms) {
    && lo <= n && lo <= x.virtual && (forall k: nat :: Fit(x, k, c) ==> lo <= k)
    && (forall k: nat :: lo <= k <= n ==> Fit(x, k, c))
  }

  /** Exactly what is ready becomes pending. */
  ghost predicate TakesReady(x: Account, y: Account, c: Terms) {
    && (forall n: nat :: n in y.pending <==> n in x.pending || Ready(x, n, c))
    && (forall n: nat :: n in y.pending ==> y.pending[n] == if Ready(x, n, c) then x.queue[n] else x.pending[n])
  }

  /** Of the rest that is fit, all stays queued, or as many of the lowest nonces as the limit allows. */
  ghost predicate LeavesRest(x: Account, y: Account, c: Terms, limit: Option<nat>) {
    && (forall n: nat :: n in y.queue ==> Fit(x, n, c) && !Ready(x, n, c) && y.queue[n] == x.queue[n])
    && (forall n: nat :: Fit(x, n, c) && !Ready(x, n, c) && n !in y.queue ==>
          limit.Some? && |y.queue| == limit.value && forall k :: k in y.queue ==> k < n)
    && (limit.Some? ==> |y.queue| <= limit.value)
  }

  /** The virtual nonce follows what was promoted. */
  ghost predicate MovesOn(x: Account, y: Account, c: Terms) {
    && (forall n: nat :: Ready(x, n, c) ==> n < y.virtual)
    && (if exists n: nat :: Ready(x, n, c) then y.virtual > 0 && Ready(x, y.virtual - 1, c) else y.virtual == x.virtual)
  }

  ghost predicate PromotesTo(x: Account, y: Account, c: Terms, limit: Option<nat>) {
    TakesReady(x, y, c) && LeavesRest(x, y, c, limit) && MovesOn(x, y, c)
  }

  /** Promotion follows the rule. */
  lemma PromotionRule(x: Account, c: Terms, limit: Option<nat>)
    ensures PromotesTo(x, Promoted(x, c.nonce, c.balance, c.maxGas, c.priced, limit), c, limit)
  {
    hide Current, Limited, Ready, Fit, RunEnd, ReadyEnd, TakesReady, LeavesRest, MovesOn;
    CurrentIsFit(x, c);
    ReadyIsBelow(x, c);
    var q := Current(x.queue, c.nonce, c.balance, c.maxGas, c.priced);
    var end := ReadyEnd(q, x.virtual);
    var y := Promoted(x, c.nonce, c.balance, c.maxGas, c.priced, limit);
    PromotionTakes(x, y, c, q, end);
    PromotionLeaves(x, y, c, q, end, limit);
    ReadyGreatest(q, x.virtual);
    PromotionMoves(x, y, c, q, end);
  }

  /** `q` is what is fit, and its part below `end` is what is ready. */
  ghost predicate Divides(x: Account, c: Terms, q: TxMap, end: nat) {
    && (forall n: nat :: (n in q <==> Fit(x, n, c)) && (n in q ==> q[n] == x.queue[n]))
    && (forall n: nat :: n in Below(q, end) <==> Ready(x, n, c))
  }

  lemma PromotionTakes(x: Account, y: Account, c: Terms, q: TxMap, end: nat)
    requires Divides(x, c, q, end) && y.pending == x.pending + Below(q, end)
    ensures TakesReady(x, y, c)
  {
    hide Ready, Fit;
  }

  lemma PromotionLeaves(x: Account, y: Account, c: Terms, q: TxMap, end: nat, limit: Option<nat>)
    requires Divides(x, c, q, end) && y.queue == Limited(From(q, end), limit)
    ensures LeavesRest(x, y, c, limit)
  {
    hide Ready, Fit, Limited;
    LimitedKeeps(From(q, end), limit);
  }

  lemma PromotionMoves(x: Account, y: Account, c: Terms, q: TxMap, end: nat)
    requires Divides(x, c, q, end) && y.virtual == if Below(q, end) != map[] then end else x.virtual
    requires Below(q, end) != map[] ==> Greatest(Below(q, end).Keys) + 1 == end
    ensures MovesOn(x, y, c)
  {
    hide Ready, Fit;
    if Below(q, end) != map[] {
      assert Greatest(Below(q, end).Keys) in Below(q, end).Keys;
    }
  }

  lemma CurrentIsFit(x: Account, c: Terms)
    ensures var q := Current(x.queue, c.nonce, c.balance, c.maxGas, c.priced);
      forall n: nat :: (n in q <==> Fit(x, n, c)) && (n in q ==> q[n] == x.queue[n])
  {
    hide Kept;
    KeptMeans(false, From(x.queue, c.nonce), c.balance, c.maxGas);
  }

  lemma ReadyIsBelow(x: Account, c: Terms)
    ensures var q := Current(x.queue, c.nonce, c.balance, c.maxGas, c.priced);
      forall n: nat :: n in Below(q, ReadyEnd(q, x.virtual)) <==> Ready(x, n, c)
  {
    hide Current, Fit, RunEnd;
    CurrentIsFit(x, c);
    var q := Current(x.queue, c.nonce, c.balance, c.maxGas, c.priced);
    var end := ReadyEnd(q, x.virtual);
    forall n: nat ensures n in Below(q, end) <==> Ready(x, n, c) {
      if q != map[] && Least(q.Keys) <= x.virtual {
        var lo := Least(q.Keys);
        assert lo in q.Keys;
        RunIsMaximal(q, lo, end);
        if n in Below(q, end) {
          assert ReadyFrom(x, lo, n, c);
        }
        if m: nat :| ReadyFrom(x, m, n, c) {
          ReadyStart(x, m, n, c, q);
          assert end <= n ==> end in q;
        }
      } else if m: nat :| ReadyFrom(x, m, n, c) {
        ReadyStart(x, m, n, c, q);
        assert false;
      }
    }
  }

  lemma ReadyStart(x: Account, m: nat, n: nat, c: Terms, q: TxMap)
    requires ReadyFrom(x, m, n, c) && forall k: nat :: k in q <==> Fit(x, k, c)
    ensures q != map[] && Least(q.Keys) == m <= x.virtual
  {
    hide Fit;
    assert Fit(x, m, c);
    assert m in q.Keys && Least(q.Keys) in q.Keys;
  }

  lemma LimitedKeeps(q: TxMap, limit: Option<nat>)
    ensures var l := Limited(q, limit);
      && (forall n :: n in l ==> n in q && l[n] == q[n])
      && (limit.None? ==> l == q)
      && (limit.Some? ==> |l| <= limit.value)
      && (forall n :: n in q && n !in l ==> limit.Some? && |l| == limit.value && forall k :: k in l ==> k < n)
  {
    hide Lowest;
    if limit.Some? {
      LowestKeeps(q, limit.value);
      var l := Lowest(q, limit.value);
      if |q| <= limit.value {
        LowestAll(q, limit.value);
      }
    }
  }

  lemma LowestAll(m: TxMap, k: nat)
    requires |m| <= k
    ensures Lowest(m, k) == m
  {
  }

  /** The rule leaves no choice. */
  lemma PromotionDecided(x: Account, y: Account, z: Account, c: Terms, limit: Option<nat>)
    requires PromotesTo(x, y, c, limit) && PromotesTo(x, z, c, limit)
    ensures y == z
  {
    hide Ready, Fit;
    assert y.pending == z.pending;
    QueueWithin(x, y, z, c, limit);
    QueueWithin(x, z, y, c, limit);
    assert y.queue == z.queue;
    if exists n: nat :: Ready(x, n, c) {
      assert y.virtual - 1 < z.virtual && z.virtual - 1 < y.virtual;
    }
  }

  lemma QueueWithin(x: Account, y: Account, z: Account, c: Terms, limit: Option<nat>)
    requires PromotesTo(x, y, c, limit) && PromotesTo(x, z, c, limit)
    ensures y.queue.Keys <= z.queue.Keys
  {
    hide Ready, Fit;
    if n :| n in y.queue.Keys && n !in z.queue.Keys {
      forall k | k in z.queue.Keys ensures k in y.queue.Keys {
      }
      SubsetSize(z.queue.Keys + {n}, y.queue.Keys);
      assert false;
    }
  }

  lemma {:induction false} SubsetSize(s: set<nat>, r: set<nat>)
    requires s <= r
    ensures |s| <= |r|
    decreases |s|
  {
    if s != {} {
      var n :| n in s;
      SubsetSize(s - {n}, r - {n});
    }
  }

  // ---- Demotion ----

  /** Every pending nonce from the state nonce up to `n` can be paid for, the first and the last of
      them included. */
  ghost predicate Runs(x: Account, n: nat, c: Terms) {
    && n in x.pending && c.nonce in x.pending && c.nonce <= n
    && forall k :: k in x.pending && c.nonce <= k <= n ==> Pays(x.pending[k], c.balance, c.maxGas)
  }

  /** Not too old and payable, but without a payable run before it. */
  ghost predicate Waits(x: Account, n: nat, c: Terms) {
    n in x.pending && c.nonce <= n && Pays(x.pending[n], c.balance, c.maxGas) && !Runs(x, n, c)
  }

  /** Exactly the payable run from the state nonce stays pending; what is payable beyond it goes back
      to the queue; only what is too old or cannot be paid for is gone. */
  ghost predicate DemotesTo(x: Account, y: Account, c: Terms) {
    && (forall n: nat :: n in y.pending <==> Runs(x, n, c))
    && (forall n: nat :: n in y.pending ==> y.pending[n] == x.pending[n])
    && (forall n: nat :: n in y.queue <==> n in x.queue || Waits(x, n, c))
    && (forall n: nat :: n in y.queue ==> y.queue[n] == if Waits(x, n, c) then x.pending[n] else x.queue[n])
    && y.virtual == x.virtual
  }

  /** Demotion follows the rule. */
  lemma DemotionRule(x: Account, c: Terms)
    ensures DemotesTo(x, Demoted(x, c.nonce, c.balance, c.maxGas), c)
  {
    hide Kept, Runs;
    ExecutableRuns(x, c);
    UnpayableMeans(From(x.pending, c.nonce), c.balance, c.maxGas);
  }

  lemma ExecutableRuns(x: Account, c: Terms)
    ensures var left := Executable(x.pending, c.nonce, c.balance, c.maxGas);
      forall n: nat :: (n in left <==> Runs(x, n, c)) && (n in left ==> left[n] == x.pending[n])
  {
    hide Kept;
    KeptMeans(true, From(x.pending, c.nonce), c.balance, c.maxGas);
  }

  lemma UnpayableMeans(m: TxMap, balance: nat, maxGas: nat)
    ensures forall n :: n in Unpayable(m, balance, maxGas) <==> n in m && !Pays(m[n], balance, maxGas)
  {
  }

  /** The rule leaves no choice. */
  lemma DemotionDecided(x: Account, y: Account, z: Account, c: Terms)
    requires DemotesTo(x, y, c) && DemotesTo(x, z, c)
    ensures y == z
  {
    hide Runs, Waits;
    assert y.pending == z.pending;
    assert y.queue == z.queue;
  }
}
