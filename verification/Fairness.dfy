/** What `truncatePending` guarantees: the pending lists of the accounts with the most
    transactions are cut back to one common level. */
module Fairness {
  import opened Transactions
  import opened PoolLists

  /** Every list of `p` is what is left of the list of `p0` after cutting from the top. */
  ghost predicate CutBack(p0: AccountLists, p: AccountLists) {
    p.Keys == p0.Keys && forall a :: At(p, a) == Lowest(At(p0, a), Len(p, a))
  }

  /** No local account is cut, none is cut below its guaranteed slots, all cut accounts end
      at the same level, and no other non-local account is above that level. */
  ghost predicate Fair(p0: AccountLists, p: AccountLists, locals: set<Address>, slots: nat, cut: set<Address>, level: nat) {
    && CutBack(p0, p)
    && (forall a :: a in cut <==> Len(p, a) < Len(p0, a))
    && (forall a :: a in cut ==> a !in locals && Len(p, a) == level && slots <= level)
    && (forall a :: a !in cut && a !in locals ==> Len(p, a) <= level)
  }

  /** If no account is cut, nothing has changed. */
  lemma FairNone(p0: AccountLists, p: AccountLists, locals: set<Address>, slots: nat, level: nat)
    requires Fair(p0, p, locals, slots, {}, level)
    ensures p == p0
  {
    forall a | a in p ensures p[a] == p0[a] {
      assert Len(p, a) >= Len(p0, a);
      assert At(p, a) == Lowest(At(p0, a), Len(p, a));
    }
  }

  /** The accounts that may be cut. */
  ghost predicate Spammers(p: AccountLists, locals: set<Address>, slots: nat, s: set<Address>) {
    forall a :: a in s <==> a !in locals && Len(p, a) > slots
  }

  function Members(s: seq<Address>): set<Address> {
    set a | a in s
  }

  lemma DistinctNext(s: seq<Address>, i: nat)
    requires i < |s|
    ensures s[..0] == [] && forall a :: a in s[..i + 1] <==> a in s[..i] || a == s[i]
    ensures Distinct(s) ==> s[i] !in s[..i]
  {
  }

  lemma MembersIs(s: seq<Address>)
    ensures forall a :: a in Members(s) <==> a in s
  {
  }

  ghost predicate Distinct(s: seq<Address>) {
    forall i, j :: 0 <= i < j < |s| ==> s[i] != s[j]
  }

  /** The accounts of `group` are not local and stand at one level. */
  ghost predicate Level(p: AccountLists, locals: set<Address>, group: seq<Address>, level: nat) {
    Distinct(group) && forall a :: a in group ==> a !in locals && Len(p, a) == level
  }

  /** No non-local account outside `group` has more than `bound` transactions. */
  ghost predicate OthersWithin(p: AccountLists, locals: set<Address>, group: seq<Address>, bound: nat) {
    forall a :: a !in locals && a !in group ==> Len(p, a) <= bound
  }

  /** Who may be cut is either among the offenders or still waiting, and who waits is uncut. */
  ghost predicate Sorted(p0: AccountLists, p: AccountLists, locals: set<Address>, slots: nat, offenders: seq<Address>, rest: set<Address>) {
    && Spammers(p0, locals, slots, Members(offenders) + rest)
    && Members(offenders) !! rest
    && (forall a :: a in rest ==> At(p, a) == At(p0, a))
  }

  /** `p'` is `p` with one transaction cut from each of the accounts. */
  ghost predicate OneLess(p: AccountLists, p': AccountLists, accounts: seq<Address>) {
    && p'.Keys == p.Keys
    && (forall a :: a in accounts ==> a in p && p[a] != map[] && p'[a] == p[a] - {Greatest(p[a].Keys)})
    && (forall a :: a !in accounts ==> At(p', a) == At(p, a))
  }

  lemma LenWithoutGreatest(m: TxMap)
    requires m != map[]
    ensures |m - {Greatest(m.Keys)}| == |m| - 1
  {
    assert (m - {Greatest(m.Keys)}).Keys == m.Keys - {Greatest(m.Keys)};
  }

  lemma LenOneLess(p: AccountLists, p': AccountLists, accounts: seq<Address>, a: Address)
    requires OneLess(p, p', accounts)
    ensures Len(p', a) == if a in accounts then Len(p, a) - 1 else Len(p, a)
  {
    if a in accounts {
      LenWithoutGreatest(p[a]);
    }
  }

  lemma LowestLen(m: TxMap, k: nat)
    ensures |Lowest(m, k)| <= |m|
  {
    hide Lowest;
    LowestKeeps(m, k);
  }

  /** Cutting the top of the lowest `k + 1` leaves the lowest `k`. */
  lemma {:induction false} LowestChain(m: TxMap, k: nat)
    requires |m| > k
    ensures var l := Lowest(m, k + 1); l != map[] && l - {Greatest(l.Keys)} == Lowest(m, k)
    decreases |m|
  {
    LenWithoutGreatest(m);
    if |m| > k + 1 {
      LowestChain(m - {Greatest(m.Keys)}, k);
    }
  }

  lemma OneLessCutsBack(p0: AccountLists, p: AccountLists, p': AccountLists, accounts: seq<Address>)
    requires CutBack(p0, p) && OneLess(p, p', accounts)
    ensures CutBack(p0, p')
  {
    hide Lowest;
    forall a ensures At(p', a) == Lowest(At(p0, a), Len(p', a)) {
      OneLessLowest(At(p0, a), At(p, a), At(p', a));
    }
  }

  lemma OneLessLowest(m: TxMap, l: TxMap, l': TxMap)
    requires l == Lowest(m, |l|) && (l' == l || (l != map[] && l' == l - {Greatest(l.Keys)}))
    ensures l' == Lowest(m, |l'|)
  {
    hide Lowest, Greatest;
    if l' != l {
      LenWithoutGreatest(l);
      LowestLen(m, |l|);
      LowestWithoutGreatest(m, l, |l| - 1);
    }
  }

  lemma LowestWithoutGreatest(m: TxMap, l: TxMap, k: nat)
    requires l != map[] && l == Lowest(m, k + 1) && |m| > k
    ensures l - {Greatest(l.Keys)} == Lowest(m, k)
  {
    hide Lowest, Greatest;
    LowestChain(m, k);
  }

  /** One round of cuts over a group that includes all accounts cut so far. */
  lemma FairRound(p0: AccountLists, p: AccountLists, p': AccountLists, locals: set<Address>, slots: nat,
                  group: seq<Address>, cut: set<Address>, level: nat)
    requires Fair(p0, p, locals, slots, cut, level) && cut <= Members(group) && Level(p, locals, group, level)
    requires OneLess(p, p', group) && slots < level && OthersWithin(p, locals, group, level - 1)
    ensures Fair(p0, p', locals, slots, Members(group), level - 1) && Level(p', locals, group, level - 1)
    ensures forall bound: nat :: OthersWithin(p, locals, group, bound) ==> OthersWithin(p', locals, group, bound)
    ensures |Members(group)| == |group|
    ensures forall a :: a !in group ==> At(p', a) == At(p, a)
  {
    DistinctSize(group);
    OneLessCutsBack(p0, p, p', group);
    forall a ensures Len(p', a) == if a in group then Len(p, a) - 1 else Len(p, a) {
      LenOneLess(p, p', group, a);
    }
    forall a ensures a in Members(group) <==> Len(p', a) < Len(p0, a) {
      assert At(p, a) == Lowest(At(p0, a), Len(p, a));
      LowestKeeps(At(p0, a), Len(p, a));
    }
  }

  /** Taking the next offender, one with the most transactions among those waiting. */
  lemma NextOffender(p0: AccountLists, p: AccountLists, locals: set<Address>, slots: nat,
                     offenders: seq<Address>, rest: set<Address>, x: Address)
    requires Sorted(p0, p, locals, slots, offenders, rest) && Distinct(offenders) && CutBack(p0, p)
    requires x in rest && forall a :: a in rest ==> Len(p, a) <= Len(p, x)
    requires forall a :: Len(p, a) < Len(p0, a) ==> a in offenders
    ensures Sorted(p0, p, locals, slots, offenders + [x], rest - {x}) && Distinct(offenders + [x])
    ensures slots < Len(p, x) && x !in locals && x in p && x !in offenders
    ensures OthersWithin(p, locals, offenders, Len(p, x))
  {
    assert Members(offenders + [x]) == Members(offenders) + {x};
    assert Members(offenders + [x]) + (rest - {x}) == Members(offenders) + rest;
    assert x in Members(offenders) + rest;
    forall a | a !in locals && a !in offenders ensures Len(p, a) <= Len(p, x) {
      LowestKeeps(At(p0, a), Len(p, a));
      assert At(p, a) == Lowest(At(p0, a), Len(p, a));
      if a !in rest {
        assert a !in Members(offenders) + rest;
      }
    }
  }

  lemma FairStart(p: AccountLists, locals: set<Address>, slots: nat, rest: set<Address>)
    requires Spammers(p, locals, slots, rest)
    ensures Fair(p, p, locals, slots, {}, Total(p)) && Sorted(p, p, locals, slots, [], rest)
  {
    forall a ensures At(p, a) == Lowest(At(p, a), Len(p, a)) && Len(p, a) <= Total(p) {
      LenAtMostTotal(p, a);
    }
    assert Members([]) + rest == rest;
  }

  /** The first offender sets the level. */
  lemma FairFirst(p0: AccountLists, p: AccountLists, locals: set<Address>, slots: nat, cut: set<Address>, level: nat, x: Address)
    requires Fair(p0, p, locals, slots, cut, level) && cut == {} && OthersWithin(p, locals, [], Len(p, x)) && x !in locals
    ensures Fair(p0, p, locals, slots, cut, Len(p, x)) && Level(p, locals, [x], Len(p, x))
  {
  }

  lemma LevelAt(p: AccountLists, locals: set<Address>, group: seq<Address>, level: nat, a: Address)
    requires Level(p, locals, group, level) && a in group
    ensures Len(p, a) == level
  {
  }

  lemma LevelDistinct(p: AccountLists, locals: set<Address>, group: seq<Address>, level: nat)
    requires Level(p, locals, group, level)
    ensures Distinct(group)
  {
  }

  lemma OthersBelow(p: AccountLists, locals: set<Address>, group: seq<Address>, bound: nat, limit: nat)
    requires OthersWithin(p, locals, group, bound) && bound <= limit
    ensures OthersWithin(p, locals, group, limit)
  {
  }

  /** What holds when a new offender comes in above which nobody else waits. */
  lemma EqualizeParts(p0: AccountLists, p: AccountLists, locals: set<Address>, slots: nat, cut: set<Address>, level: nat,
                      group: seq<Address>, offender: Address)
    requires Fair(p0, p, locals, slots, cut, level) && cut <= Members(group) && group != []
    requires Distinct(group + [offender]) && offender !in locals && Level(p, locals, group, level)
    ensures Len(p, offender) <= level && offender !in group && Members(group) <= Members(group + [offender])
    ensures CutBack(p0, p) && Len(p, group[|group| - 1]) == level
  {
    var all := group + [offender];
    assert all[|group|] == offender;
    assert forall i :: 0 <= i < |group| ==> group[i] == all[i];
    assert offender !in group;
    assert offender !in cut;
    assert group[|group| - 1] in group;
  }

  /** Who is at a common level above one has that many transactions pending. */
  lemma LevelPresent(p: AccountLists, locals: set<Address>, group: seq<Address>, level: nat)
    requires Level(p, locals, group, level) && level > 1
    ensures forall a :: a in group ==> a in p && |p[a]| == level
  {
  }

  /** The waiting accounts are untouched by a round over the offenders. */
  lemma SortedRound(p0: AccountLists, p: AccountLists, p': AccountLists, locals: set<Address>, slots: nat,
                    offenders: seq<Address>, rest: set<Address>, group: seq<Address>)
    requires Sorted(p0, p, locals, slots, offenders, rest) && Members(group) <= Members(offenders)
    requires forall a :: a !in group ==> At(p', a) == At(p, a)
    ensures Sorted(p0, p', locals, slots, offenders, rest)
  {
    forall a | a in rest ensures At(p', a) == At(p0, a) {
      assert a !in Members(offenders);
      assert a !in Members(group);
    }
  }

  lemma CutAmongOffenders(p0: AccountLists, p: AccountLists, locals: set<Address>, slots: nat, cut: set<Address>, level: nat,
                          offenders: seq<Address>)
    requires Fair(p0, p, locals, slots, cut, level) && cut <= Members(offenders)
    ensures CutBack(p0, p) && forall a :: Len(p, a) < Len(p0, a) ==> a in offenders
    ensures forall x :: x !in locals && x !in offenders ==> Len(p, x) <= level
  {
  }

  /** Adding an offender that stands at the common level. */
  lemma LevelJoin(p: AccountLists, locals: set<Address>, offenders: seq<Address>, x: Address, level: nat)
    requires Level(p, locals, offenders, level) && Len(p, x) == level && x !in locals && x !in offenders
    ensures Level(p, locals, offenders + [x], level)
  {
  }

  /** With nobody waiting and the offenders at the guaranteed slots, nobody is above them. */
  lemma NobodyAbove(p0: AccountLists, p: AccountLists, locals: set<Address>, slots: nat, offenders: seq<Address>, level: nat)
    requires Sorted(p0, p, locals, slots, offenders, {}) && CutBack(p0, p) && Level(p, locals, offenders, level)
    ensures OthersWithin(p, locals, offenders, slots)
    ensures level <= slots || offenders == [] ==> forall a :: a !in locals ==> Len(p, a) <= slots
  {
    forall a | a !in locals && a !in offenders ensures Len(p, a) <= slots {
      LowestKeeps(At(p0, a), Len(p, a));
      assert At(p, a) == Lowest(At(p0, a), Len(p, a));
      assert a !in Members(offenders) + {};
    }
  }

  lemma {:induction false} DistinctSize(s: seq<Address>)
    requires Distinct(s)
    ensures |Members(s)| == |s|
  {
    if s != [] {
      var init := s[..|s| - 1];
      DistinctSize(init);
      assert Members(s) == Members(init) + {s[|s| - 1]};
    }
  }

  lemma {:induction false} LenAtMostTotal(m: AccountLists, a: Address)
    ensures Len(m, a) <= Total(m)
  {
    if a in m {
      TotalSplit(m, a);
    }
  }
}
