/** What a head reset does to one account: the virtual nonce starts over from the new state
    nonce, and promotion, demotion and truncation follow. */
module HeadReset {
  import opened Transactions
  import opened SortedMaps
  import opened TxLists
  import opened PoolLists
  import opened PoolSteps

  /** Gapless but for the virtual nonce, which still has to follow the pending list. */
  ghost predicate SettledAt(p: TxMap, q: TxMap, nonce: nat, virtual: nat) {
    && Spans(p, nonce, nonce + |p|) && (forall n :: n in q ==> nonce + |p| <= n)
    && (p == map[] ==> virtual == nonce)
  }

  ghost predicate Settled(x: Account, nonce: nat) {
    SettledAt(x.pending, x.queue, nonce, x.virtual)
  }

  /** Nothing is pending, but the virtual nonce has moved past the state nonce. */
  ghost predicate Stranded(x: Account, nonce: nat) {
    x.pending == map[] && x.virtual != nonce
  }

  /** The account after promotion and demotion. */
  function Readjusted(x: Account, nonce: nat, balance: nat, maxGas: nat, priced: bool, limit: Option<nat>): Account {
    Demoted(Promoted(x, nonce, balance, maxGas, priced, limit), nonce, balance, maxGas)
  }

  // ---- What demotion leaves ----

  /** The payable nonces from `nonce` up to `end` are pending. The next pending one is `next`,
      and too costly, or there is none. */
  ghost predicate RunsTo(p: TxMap, nonce: nat, balance: nat, maxGas: nat, end: nat, next: nat) {
    && nonce <= end && (forall n :: nonce <= n < end ==> n in p && !TooCostly(p[n], balance, maxGas))
    && (forall n :: n in p && end <= n ==> next <= n)
    && ((forall n :: n in p ==> n < end) || (next in p && end <= next && TooCostly(p[next], balance, maxGas)))
  }

  /** Then exactly these nonces are executable. */
  lemma ExecutableSpan(p: TxMap, nonce: nat, balance: nat, maxGas: nat, end: nat, next: nat)
    requires RunsTo(p, nonce, balance, maxGas, end, next)
    ensures Spans(Executable(p, nonce, balance, maxGas), nonce, end)
  {
    hide TooCostly;
    var young := From(p, nonce);
    var bad := Unpayable(young, balance, maxGas);
    if next in p && end <= next && TooCostly(p[next], balance, maxGas) {
      assert next in bad.Keys;
      assert forall n :: n in bad.Keys ==> next <= n;
      assert Least(bad.Keys) == next;
    } else {
      assert bad == map[];
    }
  }

  /** Demotion leaves the account settled. */
  lemma DemotionSettles(x: Account, nonce: nat, balance: nat, maxGas: nat, end: nat, next: nat)
    requires RunsTo(x.pending, nonce, balance, maxGas, end, next)
    requires (forall n :: n in x.queue ==> end <= n) && (end == nonce ==> x.virtual == nonce)
    ensures Settled(Demoted(x, nonce, balance, maxGas), nonce)
  {
    hide Executable, Unpayable, RunsTo;
    ExecutableSpan(x.pending, nonce, balance, maxGas, end, next);
    RunsFrom(x.pending, nonce, balance, maxGas, end, next);
    SpanSize(Executable(x.pending, nonce, balance, maxGas), nonce, end);
    assert nonce < end ==> nonce in Executable(x.pending, nonce, balance, maxGas);
  }

  lemma RunsFrom(p: TxMap, nonce: nat, balance: nat, maxGas: nat, end: nat, next: nat)
    requires RunsTo(p, nonce, balance, maxGas, end, next)
    ensures nonce <= end
  {
  }

  /** If the transaction of the state nonce cannot be paid for, nothing stays pending. */
  lemma NoneExecutable(p: TxMap, nonce: nat, balance: nat, maxGas: nat)
    requires nonce in p && TooCostly(p[nonce], balance, maxGas)
    ensures Executable(p, nonce, balance, maxGas) == map[]
  {
    hide TooCostly;
    var bad := Unpayable(From(p, nonce), balance, maxGas);
    assert nonce in bad.Keys && Least(bad.Keys) in bad.Keys;
  }

  /** A payable transaction beyond a gap stays pending if all those before the gap are payable. */
  lemma GapStays(p: TxMap, nonce: nat, balance: nat, maxGas: nat, gap: nat, lo: nat)
    requires nonce in p && gap !in p && nonce < gap < lo && lo in p
    requires forall n :: n in p && nonce <= n <= lo ==> !TooCostly(p[n], balance, maxGas)
    ensures var left := Executable(p, nonce, balance, maxGas); gap !in left && lo in left && left != map[]
    ensures !Spans(Executable(p, nonce, balance, maxGas), nonce, nonce + |Executable(p, nonce, balance, maxGas)|)
  {
    hide TooCostly;
    var bad := Unpayable(From(p, nonce), balance, maxGas);
    assert bad != map[] ==> Least(bad.Keys) in bad.Keys;
  }

  // ---- What promotion leaves ----

  /** If the transaction of the state nonce is queued, promotion takes the run that begins there. */
  lemma RunPromoted(x: Account, nonce: nat, balance: nat, maxGas: nat, priced: bool, limit: Option<nat>)
    requires x.virtual == nonce
    ensures var c := Current(x.queue, nonce, balance, maxGas, priced);
      var y := Promoted(x, nonce, balance, maxGas, priced, limit);
      if nonce in c then
        && y.pending == x.pending + Below(c, RunEnd(c, nonce)) && y.virtual == RunEnd(c, nonce)
        && (forall n :: n in y.queue ==> n in c && RunEnd(c, nonce) < n)
      else
        y.pending == x.pending && y.virtual == nonce && (forall n :: n in y.queue ==> n in c && nonce < n)
  {
    hide Kept, Limited, RunEnd, TooCostly;
    var c := Current(x.queue, nonce, balance, maxGas, priced);
    assert forall n :: n in c ==> nonce <= n by { CurrentFrom(x.queue, nonce, balance, maxGas, priced); }
    var end := ReadyEnd(c, nonce);
    LimitedWithin(From(c, end), limit);
    if nonce in c {
      assert Least(c.Keys) == nonce;
      RunIsMaximal(c, nonce, end);
      assert nonce in Below(c, end);
    } else {
      assert c != map[] ==> Least(c.Keys) in c.Keys;
      assert Below(c, end) == map[];
      assert x.pending + Below(c, end) == x.pending;
    }
  }

  lemma CurrentFrom(q: TxMap, nonce: nat, balance: nat, maxGas: nat, priced: bool)
    ensures var c := Current(q, nonce, balance, maxGas, priced);
      forall n :: n in c ==> nonce <= n && n in q && c[n] == q[n] && (priced ==> !TooCostly(c[n], balance, maxGas))
    ensures nonce in q && (priced ==> !TooCostly(q[nonce], balance, maxGas)) ==> nonce in Current(q, nonce, balance, maxGas, priced)
  {
  }

  // ---- Resets ----

  /** Promotion and demotion leave the account unsettled: the transaction of the state nonce is
      queued, and it cannot be paid for, or the run it begins ends before the pending
      transactions, which stay beyond the gap. */
  ghost predicate Breaks(x: Account, lo: nat, hi: nat, nonce: nat, balance: nat, maxGas: nat, priced: bool)
    requires Spans(x.pending, lo, hi)
  {
    var c := Current(x.queue, nonce, balance, maxGas, priced);
    && nonce in c
    && (|| TooCostly(c[nonce], balance, maxGas)
        || (&& nonce < lo < hi && RunEnd(c, nonce) < lo && !TooCostly(x.pending[lo], balance, maxGas)
            && forall n :: n in c && nonce <= n < RunEnd(c, nonce) ==> !TooCostly(c[n], balance, maxGas)))
  }

  /** Whatever the state nonce was, an account with contiguous pending nonces is settled after a
      reset if and only if none of this happens. */
  lemma ResetSettles(x: Account, lo: nat, hi: nat, nonce: nat, balance: nat, maxGas: nat, priced: bool, limit: Option<nat>)
    requires lo <= hi && Spans(x.pending, lo, hi) && x.pending.Keys !! x.queue.Keys && x.virtual == nonce
    ensures Settled(Readjusted(x, nonce, balance, maxGas, priced, limit), nonce) <==>
            !Breaks(x, lo, hi, nonce, balance, maxGas, priced)
  {
    hide Current, TooCostly, Promoted, Demoted, RunEnd, RunsTo, Settled;
    var c := Current(x.queue, nonce, balance, maxGas, priced);
    var y := Promoted(x, nonce, balance, maxGas, priced, limit);
    RunPromoted(x, nonce, balance, maxGas, priced, limit);
    CurrentFrom(x.queue, nonce, balance, maxGas, priced);
    if nonce !in c {
      IdleSettles(y, lo, hi, nonce, balance, maxGas);
    } else {
      RunIsMaximal(c, nonce, RunEnd(c, nonce));
      RunSettles(y, c, lo, hi, nonce, balance, maxGas);
    }
  }

  /** The least too costly transaction from `from` on, if there is one before `hi`. */
  lemma {:induction false} FirstCostly(p: TxMap, from: nat, hi: nat, balance: nat, maxGas: nat) returns (k: nat)
    requires from <= hi && forall n :: from <= n < hi ==> n in p
    ensures from <= k <= hi && (forall n :: from <= n < k ==> !TooCostly(p[n], balance, maxGas))
    ensures k < hi ==> TooCostly(p[k], balance, maxGas)
    decreases hi - from
  {
    if from == hi || TooCostly(p[from], balance, maxGas) {
      k := from;
    } else {
      k := FirstCostly(p, from + 1, hi, balance, maxGas);
    }
  }

  lemma IdleSettles(y: Account, lo: nat, hi: nat, nonce: nat, balance: nat, maxGas: nat)
    requires lo <= hi && Spans(y.pending, lo, hi) && y.virtual == nonce
    requires forall n :: n in y.queue ==> nonce < n && n !in y.pending
    ensures Settled(Demoted(y, nonce, balance, maxGas), nonce)
  {
    hide Demoted, TooCostly, Settled;
    if lo <= nonce < hi {
      var k := FirstCostly(y.pending, nonce, hi, balance, maxGas);
      DemotionSettles(y, nonce, balance, maxGas, k, k);
    } else if hi <= nonce || lo == hi {
      DemotionSettles(y, nonce, balance, maxGas, nonce, nonce);
    } else {
      AllPostponed(y, nonce, balance, maxGas);
    }
  }

  /** If the transaction of the state nonce is not there, everything goes back to the queue. */
  lemma AllPostponed(y: Account, nonce: nat, balance: nat, maxGas: nat)
    requires nonce !in y.pending && y.virtual == nonce && forall n :: n in y.queue ==> nonce <= n
    ensures Settled(Demoted(y, nonce, balance, maxGas), nonce)
  {
    hide Kept, Unpayable;
    KeptWithin(From(y.pending, nonce), balance, maxGas);
    assert Executable(y.pending, nonce, balance, maxGas) == map[];
  }

  lemma KeptWithin(m: TxMap, balance: nat, maxGas: nat)
    ensures Kept(true, m, balance, maxGas).Keys <= m.Keys
  {
  }

  lemma BlockedUnsettles(y: Account, nonce: nat, balance: nat, maxGas: nat)
    requires nonce in y.pending && TooCostly(y.pending[nonce], balance, maxGas) && y.virtual != nonce
    ensures !Settled(Demoted(y, nonce, balance, maxGas), nonce)
  {
    hide Executable, Postponed;
    NoneExecutable(y.pending, nonce, balance, maxGas);
  }

  lemma GapUnsettles(y: Account, nonce: nat, balance: nat, maxGas: nat, gap: nat, lo: nat)
    requires nonce in y.pending && gap !in y.pending && nonce < gap < lo && lo in y.pending
    requires forall n :: n in y.pending && nonce <= n <= lo ==> !TooCostly(y.pending[n], balance, maxGas)
    ensures !Settled(Demoted(y, nonce, balance, maxGas), nonce)
  {
    hide Executable, Postponed, Spans, TooCostly;
    GapStays(y.pending, nonce, balance, maxGas, gap, lo);
  }

  lemma RunSettles(y: Account, c: TxMap, lo: nat, hi: nat, nonce: nat, balance: nat, maxGas: nat)
    requires lo <= hi && nonce in c && y.virtual == RunEnd(c, nonce) > nonce
    requires (forall n :: nonce <= n < RunEnd(c, nonce) ==> n in c) && RunEnd(c, nonce) !in c
    requires forall n :: n in c ==> nonce <= n && !(lo <= n < hi)
    requires forall n: nat :: n in y.pending <==> (lo <= n < hi || nonce <= n < RunEnd(c, nonce))
    requires forall n :: nonce <= n < RunEnd(c, nonce) ==> y.pending[n] == c[n]
    requires forall n :: n in y.queue ==> n in c && RunEnd(c, nonce) < n
    ensures Settled(Demoted(y, nonce, balance, maxGas), nonce) <==>
            !TooCostly(c[nonce], balance, maxGas) &&
            !(&& nonce < lo < hi && RunEnd(c, nonce) < lo && !TooCostly(y.pending[lo], balance, maxGas)
              && forall n :: n in c && nonce <= n < RunEnd(c, nonce) ==> !TooCostly(c[n], balance, maxGas))
  {
    hide RunEnd, TooCostly, Demoted, Settled;
    var end := RunEnd(c, nonce);
    if TooCostly(c[nonce], balance, maxGas) {
      BlockedUnsettles(y, nonce, balance, maxGas);
    } else if nonce < lo < hi && end < lo && !TooCostly(y.pending[lo], balance, maxGas)
              && forall n :: n in c && nonce <= n < end ==> !TooCostly(c[n], balance, maxGas) {
      GapUnsettles(y, nonce, balance, maxGas, end, lo);
    } else {
      RunKept(y, c, lo, hi, nonce, balance, maxGas, end);
    }
  }

  lemma RunKept(y: Account, c: TxMap, lo: nat, hi: nat, nonce: nat, balance: nat, maxGas: nat, end: nat)
    requires lo <= hi && nonce in c && y.virtual == end > nonce && end !in c
    requires forall n :: n in c ==> nonce <= n && !(lo <= n < hi)
    requires forall n: nat :: n in y.pending <==> (lo <= n < hi || nonce <= n < end)
    requires forall n :: nonce <= n < end ==> n in c && y.pending[n] == c[n]
    requires forall n :: n in y.queue ==> n in c && end < n
    requires !TooCostly(c[nonce], balance, maxGas)
    requires !(&& nonce < lo < hi && end < lo && !TooCostly(y.pending[lo], balance, maxGas)
               && forall n :: n in c && nonce <= n < end ==> !TooCostly(c[n], balance, maxGas))
    ensures Settled(Demoted(y, nonce, balance, maxGas), nonce)
  {
    hide Demoted, TooCostly, Settled;
    assert nonce < lo < end ==> lo in c;
    assert end <= lo || hi <= nonce || lo == hi;
    var top := if end == lo then hi else end;
    var k := FirstCostly(y.pending, nonce, top, balance, maxGas);
    assert k > nonce;
    DemotionSettles(y, nonce, balance, maxGas, k, if k < top then k else if end < lo < hi then lo else k);
  }

  /** The transaction of the state nonce cannot be paid for and gets in the way: it is pending
      already and the virtual nonce has not been reset, or it is queued and not filtered out. */
  predicate Blocks(x: Account, nonce: nat, balance: nat, maxGas: nat, priced: bool, restarted: bool) {
    || (!restarted && nonce in x.pending && TooCostly(x.pending[nonce], balance, maxGas))
    || (!priced && nonce in x.queue && TooCostly(x.queue[nonce], balance, maxGas))
  }

  /** An account that was gapless when its state nonce was `before` is settled after a reset that
      adds no transactions, unless it is blocked; then it is stranded. */
  lemma PlainResetSettles(x: Account, before: nat, nonce: nat, balance: nat, maxGas: nat, priced: bool, limit: Option<nat>)
    requires GaplessAt(x.pending, x.queue, before, x.virtual)
    ensures var y := Readjusted(x.(virtual := nonce), nonce, balance, maxGas, priced, limit);
      if Blocks(x, nonce, balance, maxGas, priced, true) then Stranded(y, nonce) else Settled(y, nonce)
  {
    hide Current, Promoted, Demoted, Settled, TooCostly, RunEnd;
    var z := x.(virtual := nonce);
    assert z.pending.Keys !! z.queue.Keys;
    ResetSettles(z, before, x.virtual, nonce, balance, maxGas, priced, limit);
    CurrentFrom(x.queue, nonce, balance, maxGas, priced);
    if Blocks(x, nonce, balance, maxGas, priced, true) {
      BlockStrands(z, nonce, balance, maxGas, limit);
    }
  }

  lemma BlockStrands(x: Account, nonce: nat, balance: nat, maxGas: nat, limit: Option<nat>)
    requires x.virtual == nonce && nonce in x.queue && TooCostly(x.queue[nonce], balance, maxGas)
    ensures Stranded(Readjusted(x, nonce, balance, maxGas, false, limit), nonce)
  {
    hide Promoted, Executable, TooCostly, RunEnd, Current;
    var c := Current(x.queue, nonce, balance, maxGas, false);
    CurrentFrom(x.queue, nonce, balance, maxGas, false);
    RunPromoted(x, nonce, balance, maxGas, false, limit);
    RunIsMaximal(c, nonce, RunEnd(c, nonce));
    NoneExecutable(Promoted(x, nonce, balance, maxGas, false, limit).pending, nonce, balance, maxGas);
  }

  /** The same for a reset that finds blocks missing and leaves state and virtual nonces alone. */
  lemma StandstillSettles(x: Account, nonce: nat, balance: nat, maxGas: nat, priced: bool, limit: Option<nat>)
    requires GaplessAt(x.pending, x.queue, nonce, x.virtual)
    ensures var y := Readjusted(x, nonce, balance, maxGas, priced, limit);
      if Blocks(x, nonce, balance, maxGas, priced, false) then Stranded(y, nonce) else Settled(y, nonce)
  {
    if x.virtual == nonce {
      assert nonce !in x.pending;
      PlainResetSettles(x, nonce, nonce, balance, maxGas, priced, limit);
    } else {
      PendingSettles(x, nonce, balance, maxGas, priced, limit);
    }
  }

  lemma PendingSettles(x: Account, nonce: nat, balance: nat, maxGas: nat, priced: bool, limit: Option<nat>)
    requires GaplessAt(x.pending, x.queue, nonce, x.virtual) && nonce < x.virtual
    ensures var y := Readjusted(x, nonce, balance, maxGas, priced, limit);
      if TooCostly(x.pending[nonce], balance, maxGas) then Stranded(y, nonce) else Settled(y, nonce)
  {
    hide Current, Executable, Postponed, Settled, TooCostly, RunEnd, ReadyEnd, Limited;
    var c := Current(x.queue, nonce, balance, maxGas, priced);
    var y := Promoted(x, nonce, balance, maxGas, priced, limit);
    CurrentWithin(x.queue, nonce, balance, maxGas, priced);
    LimitedWithin(From(c, ReadyEnd(c, x.virtual)), limit);
    PromotionGapless(x.pending, x.queue, c, x.virtual, y.queue, nonce);
    assert y.pending[nonce] == x.pending[nonce];
    if TooCostly(x.pending[nonce], balance, maxGas) {
      NoneExecutable(y.pending, nonce, balance, maxGas);
    } else {
      var k := FirstCostly(y.pending, nonce, y.virtual, balance, maxGas);
      assert k > nonce;
      DemotionSettles(y, nonce, balance, maxGas, k, k);
    }
  }

  /** With gas prices, an account whose state nonce falls back while transactions return to its
      queue is settled if and only if the state nonce's transaction did not return, or those that
      returned reach the pending ones, or the first of these cannot be paid for any more. */
  lemma FallbackSettles(x: Account, before: nat, hi: nat, nonce: nat, balance: nat, maxGas: nat, limit: Option<nat>)
    requires nonce < before < hi && Spans(x.pending, before, hi) && x.pending.Keys !! x.queue.Keys && x.virtual == nonce
    ensures var c := Current(x.queue, nonce, balance, maxGas, true);
      Settled(Readjusted(x, nonce, balance, maxGas, true, limit), nonce) <==>
      nonce !in c || before <= RunEnd(c, nonce) || TooCostly(x.pending[before], balance, maxGas)
  {
    hide Current, TooCostly, Promoted, Demoted, RunEnd, Settled;
    CurrentFrom(x.queue, nonce, balance, maxGas, true);
    ResetSettles(x, before, hi, nonce, balance, maxGas, true, limit);
  }

  lemma CutSettles(p: TxMap, q: TxMap, nonce: nat, virtual: nat, k: nat, virtual': nat)
    requires SettledAt(p, q, nonce, virtual) && k <= |p|
    requires Lowest(p, k) == map[] ==> virtual' == nonce
    ensures SettledAt(Lowest(p, k), q, nonce, virtual')
  {
    GaplessCap(p, nonce, nonce + |p|, k);
    LowestKeeps(p, k);
  }

  lemma EmptyIsSettled(p: TxMap, q: TxMap, nonce: nat, virtual: nat)
    requires SettledAt(p, q, nonce, virtual)
    ensures p == map[] ==> virtual == nonce
  {
  }

  lemma SettledIsGapless(p: TxMap, q: TxMap, nonce: nat, virtual: nat)
    requires SettledAt(p, q, nonce, if p == map[] then virtual else nonce)
    requires p != map[] ==> virtual == Greatest(p.Keys) + 1
    ensures GaplessAt(p, q, nonce, virtual)
  {
    if p != map[] {
      assert |p| > 0;
      assert nonce + |p| - 1 in p.Keys;
    }
  }

  /** Falling back from 6 to 4 with only the transaction of nonce 4 returning leaves nonce 5
      missing. */
  lemma GapAfterFallback(t: Tx, u: Tx, limit: Option<nat>)
    requires t.nonce == 4 && u.nonce == 6
    ensures var x := Account(map[6 := u], map[4 := t], 4);
      && GaplessAt(x.pending, map[], 6, 7)
      && !Settled(Readjusted(x, 4, t.cost + u.cost, t.gas + u.gas, true, limit), 4)
  {
    hide Readjusted, Settled, RunEnd;
    var x := Account(map[6 := u], map[4 := t], 4);
    var c := Current(x.queue, 4, t.cost + u.cost, t.gas + u.gas, true);
    assert c == x.queue;
    RunIsMaximal(c, 4, 5);
    FallbackSettles(x, 6, 7, 4, t.cost + u.cost, t.gas + u.gas, limit);
  }

  /** Without gas prices, a single queued transaction that has become too costly strands its
      account: it is promoted and dropped again, and the virtual nonce stays behind it. */
  lemma StrandedByReset(t: Tx, limit: Option<nat>)
    requires t.nonce == 4 && t.cost > 0
    ensures var x := Account(map[], map[4 := t], 3);
      && GaplessAt(x.pending, x.queue, 3, 3)
      && Stranded(Readjusted(x.(virtual := 4), 4, t.cost - 1, t.gas, false, limit), 4)
      && Settled(Readjusted(x.(virtual := 4), 4, t.cost - 1, t.gas, true, limit), 4)
  {
    hide Promoted, Demoted, Settled, Stranded;
    PlainResetSettles(Account(map[], map[4 := t], 3), 3, 4, t.cost - 1, t.gas, false, limit);
    PlainResetSettles(Account(map[], map[4 := t], 3), 3, 4, t.cost - 1, t.gas, true, limit);
  }
}
