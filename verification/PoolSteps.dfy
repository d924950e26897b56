/** What each step of the pool does to one account's lists, and why the pending lists, the
    queues and the lookup still agree afterwards. */
module PoolSteps {
  import opened Transactions
  import opened SortedMaps
  import opened TxLists
  import opened PoolLists
  import opened Fairness
  import opened TxLookups
  import opened TxPricedLists

  // ---- What promotion does to one account's queue ----

  /** What is left of a queue once old and unpayable transactions are dropped. */
  function Current(q: TxMap, nonce: nat, balance: nat, maxGas: nat, priced: bool): TxMap {
    if priced then Kept(false, From(q, nonce), balance, maxGas) else From(q, nonce)
  }

  /** One past the last nonce that is ready, or 0 if none is. */
  function ReadyEnd(q: TxMap, virtual: nat): nat {
    if q != map[] && Least(q.Keys) <= virtual then RunEnd(q, Least(q.Keys)) else 0
  }

  function Limited(q: TxMap, limit: Option<nat>): TxMap {
    if limit.Some? then Lowest(q, limit.value) else q
  }

  // ---- What demotion does to one account ----

  /** What stays pending: the payable run that begins at the state nonce. */
  function Executable(p: TxMap, nonce: nat, balance: nat, maxGas: nat): TxMap {
    var left := Kept(true, From(p, nonce), balance, maxGas);
    if nonce in left then left else map[]
  }

  /** What goes back to the queue: neither too old nor unpayable, but not executable. */
  function Postponed(p: TxMap, nonce: nat, balance: nat, maxGas: nat): TxMap {
    From(p, nonce) - Unpayable(From(p, nonce), balance, maxGas).Keys - Executable(p, nonce, balance, maxGas).Keys
  }

  ghost predicate StartsAt(p: TxMap, nonce: nat) {
    nonce in p && forall n :: n in p ==> nonce <= n
  }

  // ---- One account's share of the pool ----

  datatype Account = Account(pending: TxMap, queue: TxMap, virtual: nat)

  /** The account after `promoteExecutables` has come to it. */
  function Promoted(x: Account, nonce: nat, balance: nat, maxGas: nat, priced: bool, limit: Option<nat>): Account {
    var q := Current(x.queue, nonce, balance, maxGas, priced);
    var end := ReadyEnd(q, x.virtual);
    Account(x.pending + Below(q, end), Limited(From(q, end), limit), if Below(q, end) != map[] then end else x.virtual)
  }

  /** The account after `demoteUnexecutables` has come to it. */
  function Demoted(x: Account, nonce: nat, balance: nat, maxGas: nat): Account {
    Account(Executable(x.pending, nonce, balance, maxGas), x.queue + Postponed(x.pending, nonce, balance, maxGas), x.virtual)
  }

  /** Nothing is queued that could follow the pending transactions. */
  ghost predicate Exhausted(x: Account) {
    forall n :: n in x.queue ==> x.virtual < n
  }

  /** Promotion leaves nothing behind that could be executed next. */
  lemma PromotionExhausts(x: Account, nonce: nat, balance: nat, maxGas: nat, priced: bool, limit: Option<nat>)
    ensures Exhausted(Promoted(x, nonce, balance, maxGas, priced, limit))
  {
    hide Current, Limited, RunEnd;
    var q := Current(x.queue, nonce, balance, maxGas, priced);
    var end := ReadyEnd(q, x.virtual);
    LimitedWithin(From(q, end), limit);
    if q != map[] && Least(q.Keys) <= x.virtual {
      assert Least(q.Keys) in q;
      RunIsMaximal(q, Least(q.Keys), end);
      assert Least(q.Keys) in Below(q, end);
    } else {
      assert Below(q, end) == map[];
    }
  }

  lemma PromotedNothing(x: Account, nonce: nat, balance: nat, maxGas: nat, priced: bool, limit: Option<nat>)
    requires x.queue == map[]
    ensures Promoted(x, nonce, balance, maxGas, priced, limit) == x
  {
    assert Current(x.queue, nonce, balance, maxGas, priced) == map[];
    assert Below(map[], 0) == map[] && From(map[], 0) == map[];
    assert x.pending + map[] == x.pending;
  }

  lemma DemotedNothing(x: Account, nonce: nat, balance: nat, maxGas: nat)
    requires x.pending == map[]
    ensures Demoted(x, nonce, balance, maxGas) == x
  {
    assert From(map[], nonce) == map[];
    assert x.queue + map[] == x.queue;
  }

  /** The virtual nonce of account `a` once `tx` has left the pending list. */
  function LoweredNonce(a: Address, tx: Tx, virtual: nat): (n: nat)
    ensures n <= virtual && (a != tx.sender ==> n == virtual)
  {
    if a == tx.sender && tx.nonce < virtual then tx.nonce else virtual
  }

  // ---- Gapless accounts ----

  /** The pending nonces run from the state nonce up to the virtual nonce, and nothing is
      queued below the virtual nonce. */
  ghost predicate GaplessAt(p: TxMap, q: TxMap, nonce: nat, virtual: nat) {
    nonce <= virtual && Spans(p, nonce, virtual) && forall n :: n in q ==> virtual <= n
  }

  /** Of the known transactions, exactly those of `list` that are not kept are gone. */
  ghost predicate Trimmed(known: set<Tx>, left: set<Tx>, list: TxMap, kept: TxMap) {
    forall t :: t in left <==> t in known && (Has(list, t) ==> Has(kept, t))
  }

  /** The lists after inserting `s` into the list `p` of account `a`. */
  ghost function Inserted(m: AccountLists, a: Address, p: TxMap, s: seq<Tx>): AccountLists {
    if s == [] then m else m[a := Insert(p, s)]
  }

  lemma InsertedNothing(m: AccountLists, a: Address, s: seq<Tx>)
    ensures m == Inserted(m, a, At(m, a), s[..0])
  {
  }

  lemma InsertedStep(m: AccountLists, a: Address, p: TxMap, s: seq<Tx>, ready: TxMap, i: nat, bump: nat)
    requires Enumerates(s, ready) && p.Keys !! ready.Keys && i < |s| && p == At(m, a)
    ensures var now := Inserted(m, a, p, s[..i]);
      && s[i].nonce !in At(now, a) && Accepts(At(now, a), s[i], bump)
      && now[a := With(At(now, a), s[i])] == Inserted(m, a, p, s[..i + 1])
  {
    InsertFree(p, s, ready, i);
    InsertStep(p, s, i);
  }

  lemma OwnedIsKeyed(m: TxMap, a: Address)
    requires Owned(m, a)
    ensures Keyed(m)
  {
  }

  lemma EnumeratedOwner(s: seq<Tx>, m: TxMap, a: Address, i: nat)
    requires Enumerates(s, m) && Owned(m, a) && i < |s|
    ensures s[i].sender == a && Has(m, s[i])
  {
  }

  lemma InsertedJoins(m: AccountLists, a: Address, p: TxMap, s: seq<Tx>, more: TxMap)
    requires (s == [] ==> WellFormed(m)) && p == At(m, a) && Keyed(more) && p.Keys !! more.Keys && Enumerates(s, more)
    ensures Inserted(m, a, p, s) == Put(m, a, p + more) && (more == map[] <==> s == [])
  {
    hide Enumerates, WellFormed;
    InsertJoins(p, s, more);
    EnumeratesNothing(s, more);
    if s == [] {
      assert p + more == p;
      PutPresent(m, a);
    } else {
      assert s[0].nonce in p + more;
    }
  }

  lemma EnumeratesNothing(s: seq<Tx>, m: TxMap)
    requires Enumerates(s, m)
    ensures if s == [] then m == map[] else s[0].nonce in m
  {
    if s == [] {
      assert m.Keys == {};
    }
  }

  lemma InsertedAll(m: AccountLists, a: Address, p: TxMap, s: seq<Tx>, ready: TxMap)
    requires WellFormed(m) && p == At(m, a) && Keyed(ready) && p.Keys !! ready.Keys
    requires Enumerates(s, ready) && Lists(s, ready)
    ensures Inserted(m, a, p, s) == Put(m, a, p + ready)
    ensures (ready == map[] <==> s == []) && (s != [] ==> s[|s| - 1].nonce == Greatest(ready.Keys))
  {
    hide Enumerates, WellFormed, Lists;
    InsertedJoins(m, a, p, s, ready);
    if s != [] {
      ListingEnd(ready, s);
    }
  }

  ghost predicate Within(l: TxMap, m: TxMap) {
    forall n :: n in l ==> n in m && l[n] == m[n]
  }

  lemma QueueParts(p: AccountLists, q: AccountLists, known: set<Tx>, a: Address)
    requires Agree(p, q, known)
    ensures Keyed(At(q, a)) && Owned(At(q, a), a) && At(p, a).Keys !! At(q, a).Keys && WellFormed(p)
    ensures forall t :: Has(At(q, a), t) ==> t in known
    ensures a in q ==> q[a] == At(q, a)
  {
    AgreeAt(p, q, known, a);
  }

  lemma CurrentWithin(q: TxMap, nonce: nat, balance: nat, maxGas: nat, enabled: bool)
    ensures Within(Current(q, nonce, balance, maxGas, enabled), q)
  {
  }

  /** `m` splits into what is kept and what goes. */
  ghost predicate SplitsInto(m: TxMap, gone: TxMap, kept: TxMap) {
    Keyed(gone) && Within(kept, m) && forall t :: Has(m, t) <==> Has(gone, t) != Has(kept, t)
  }

  lemma CurrentIs(q: TxMap, nonce: nat, balance: nat, maxGas: nat, enabled: bool)
    requires Keyed(q)
    ensures SplitsInto(q, Below(q, nonce), From(q, nonce))
    ensures SplitsInto(From(q, nonce), Unpayable(From(q, nonce), balance, maxGas), Kept(false, From(q, nonce), balance, maxGas))
    ensures Keyed(Below(q, nonce)) && Keyed(Unpayable(From(q, nonce), balance, maxGas))
    ensures forall t :: Has(Below(q, nonce), t) || Has(From(q, nonce), t) ==> Has(q, t)
    ensures forall t :: Has(Unpayable(From(q, nonce), balance, maxGas), t) ==> Has(From(q, nonce), t)
    ensures Within(From(q, nonce), q) && Within(Kept(false, From(q, nonce), balance, maxGas), From(q, nonce))
    ensures Current(q, nonce, balance, maxGas, enabled) ==
      if enabled then Kept(false, From(q, nonce), balance, maxGas) else From(q, nonce)
  {
    var young := From(q, nonce);
    LooseKept(young, balance, maxGas);
    forall t ensures Has(q, t) <==> Has(Below(q, nonce), t) != Has(young, t) {
    }
  }

  lemma TrimmedBy(known: set<Tx>, left: set<Tx>, m: TxMap, gone: TxMap, kept: TxMap)
    requires SplitsInto(m, gone, kept)
    requires forall t :: t in left <==> t in known && !Has(gone, t)
    ensures Trimmed(known, left, m, kept)
    ensures forall t :: Has(kept, t) && t in known ==> t in left
  {
  }

  lemma TrimmedTwice(known: set<Tx>, middle: set<Tx>, left: set<Tx>, m: TxMap, l: TxMap, r: TxMap)
    requires Trimmed(known, middle, m, l) && Trimmed(middle, left, l, r) && Within(l, m) && Within(r, l)
    ensures Trimmed(known, left, m, r)
  {
  }

  lemma LimitedWithin(q: TxMap, limit: Option<nat>)
    ensures Within(Limited(q, limit), q)
  {
    if limit.Some? {
      LowestKeeps(q, limit.value);
    }
  }

  lemma ReadyParts(p: TxMap, q: TxMap, c: TxMap, virtual: nat, known: set<Tx>, left: set<Tx>)
    requires Keyed(q) && p.Keys !! q.Keys && Within(c, q) && Trimmed(known, left, q, c)
    requires forall t :: Has(q, t) ==> t in known
    ensures var end := ReadyEnd(c, virtual);
      && Keyed(Below(c, end)) && p.Keys !! Below(c, end).Keys && Keyed(From(c, end))
      && (forall t :: Has(From(c, end), t) ==> t in left)
  {
  }

  lemma ReadyGreatest(c: TxMap, virtual: nat)
    ensures var end := ReadyEnd(c, virtual); Below(c, end) != map[] ==> Greatest(Below(c, end).Keys) + 1 == end
  {
    var end := ReadyEnd(c, virtual);
    if c != map[] && Least(c.Keys) <= virtual {
      assert Least(c.Keys) in c;
      RunIsMaximal(c, Least(c.Keys), end);
      assert end - 1 in Below(c, end).Keys;
    } else {
      assert Below(c, end) == map[];
    }
  }

  lemma PromotionAgrees(p: AccountLists, q: AccountLists, known: set<Tx>, a: Address,
                        c: TxMap, end: nat, left: TxMap, pruned: set<Tx>, known': set<Tx>)
    requires Agree(p, q, known) && Within(c, At(q, a)) && Within(left, From(c, end))
    requires Trimmed(known, pruned, At(q, a), c) && Trimmed(pruned, known', From(c, end), left)
    ensures Agree(Put(p, a, At(p, a) + Below(c, end)), Put(q, a, left), known')
  {
    AgreeAt(p, q, known, a);
    PromotionKnown(At(p, a), At(q, a), known, a, c, end, left, pruned, known');
    AgreeUpdate(p, q, known, a, At(p, a) + Below(c, end), left, known');
  }

  lemma PromotionKnown(p: TxMap, q: TxMap, known: set<Tx>, a: Address,
                       c: TxMap, end: nat, left: TxMap, pruned: set<Tx>, known': set<Tx>)
    requires Owned(p, a) && Owned(q, a) && p.Keys !! q.Keys
    requires forall t: Tx :: t.sender == a ==> (t in known <==> Has(p, t) || Has(q, t))
    requires Within(c, q) && Within(left, From(c, end))
    requires Trimmed(known, pruned, q, c) && Trimmed(pruned, known', From(c, end), left)
    ensures Owned(p + Below(c, end), a) && Owned(left, a) && (p + Below(c, end)).Keys !! left.Keys
    ensures forall t: Tx :: t.sender == a ==> (t in known' <==> Has(p + Below(c, end), t) || Has(left, t))
    ensures forall t: Tx :: t.sender != a ==> (t in known' <==> t in known)
  {
    forall t: Tx ensures t.sender == a ==> (t in known' <==> Has(p + Below(c, end), t) || Has(left, t))
                 ensures t.sender != a ==> (t in known' <==> t in known)
    {
      assert t in pruned <==> t in known && (Has(q, t) ==> Has(c, t));
      assert t in known' <==> t in pruned && (Has(From(c, end), t) ==> Has(left, t));
      assert Has(c, t) <==> Has(Below(c, end), t) || Has(From(c, end), t);
    }
  }

  /** What is promoted was not pending before. */
  lemma PromotionHolds(p: AccountLists, q: AccountLists, known: set<Tx>, a: Address, c: TxMap, end: nat)
    requires Agree(p, q, known) && Within(c, At(q, a))
    ensures var txs := SortByNonce(Below(c, end));
      && (forall t :: Holds(Put(p, a, At(p, a) + Below(c, end)), t) <==> Holds(p, t) || t in txs)
      && (forall t :: t in txs ==> !Holds(p, t))
  {
    hide Put, Agree, SortByNonce;
    var ready := Below(c, end);
    QueueParts(p, q, known, a);
    ListingEnumerates(ready);
    AtPut(p, a, At(p, a) + ready);
    forall t ensures Holds(Put(p, a, At(p, a) + ready), t) <==> Holds(p, t) || Has(ready, t)
             ensures Has(ready, t) ==> !Holds(p, t)
    {
      assert Has(ready, t) ==> t.sender == a;
    }
  }

  /** With a gapless account, what is ready starts exactly at the virtual nonce. */
  lemma PromotionGapless(p: TxMap, q: TxMap, c: TxMap, virtual: nat, left: TxMap, nonce: nat)
    requires GaplessAt(p, q, nonce, virtual) && Within(c, q) && Within(left, From(c, ReadyEnd(c, virtual)))
    ensures var end := ReadyEnd(c, virtual);
      && GaplessAt(p + Below(c, end), left, nonce, if Below(c, end) != map[] then end else virtual)
      && (Below(c, end) != map[] ==> Spans(Below(c, end), virtual, end))
  {
    var end := ReadyEnd(c, virtual);
    if c != map[] && Least(c.Keys) <= virtual {
      assert Least(c.Keys) in c && Least(c.Keys) == virtual;
      RunIsMaximal(c, virtual, end);
      assert Spans(Below(c, end), virtual, end);
      assert end - 1 in Below(c, end).Keys;
    } else {
      assert Below(c, end) == map[];
    }
  }

  lemma LooseKept(m: TxMap, costLimit: nat, gasLimit: nat)
    requires Keyed(m)
    ensures forall t :: Has(Kept(false, m, costLimit, gasLimit), t) <==> Has(m, t) && !Has(Unpayable(m, costLimit, gasLimit), t)
  {
  }

  lemma PutKeeps(m: AccountLists, a: Address, l: TxMap)
    ensures forall b :: b in Put(m, a, l) ==> if b == a then l != map[] && Put(m, a, l)[b] == l else b in m && Put(m, a, l)[b] == m[b]
    ensures forall b :: b in m && b != a ==> b in Put(m, a, l)
  {
  }

  lemma ExecutableStarts(p: TxMap, nonce: nat, balance: nat, maxGas: nat)
    ensures Executable(p, nonce, balance, maxGas) != map[] ==> StartsAt(Executable(p, nonce, balance, maxGas), nonce)
  {
  }

  /** What `demoteUnexecutables` needs to know about the parts of a pending list. */
  lemma DemotionParts(p: AccountLists, q: AccountLists, known: set<Tx>, a: Address, nonce: nat, balance: nat, maxGas: nat)
    requires Agree(p, q, known) && a in p
    ensures var young := From(p[a], nonce);
      && Keyed(Below(p[a], nonce)) && Keyed(young) && Keyed(Unpayable(young, balance, maxGas))
      && Keyed(Invalidated(true, young, balance, maxGas)) && Keyed(Kept(true, young, balance, maxGas))
      && (forall t :: Has(Below(p[a], nonce), t) ==> t in known)
      && (forall t :: Has(Unpayable(young, balance, maxGas), t) ==> t in known && !Has(Below(p[a], nonce), t))
      && WellFormed(q) && Owned(p[a], a) && p[a].Keys !! At(q, a).Keys
  {
    AgreeAt(p, q, known, a);
  }

  /** The lookup after the old and the unpayable transactions are gone. */
  lemma DemotionKnown(p: AccountLists, q: AccountLists, known: set<Tx>, middle: set<Tx>, left: set<Tx>,
                      a: Address, nonce: nat, balance: nat, maxGas: nat)
    requires Agree(p, q, known) && a in p
    requires forall t :: t in middle <==> t in known && !Has(Below(p[a], nonce), t)
    requires forall t :: t in left <==> t in middle && !Has(Unpayable(From(p[a], nonce), balance, maxGas), t)
    ensures var inv := Invalidated(true, From(p[a], nonce), balance, maxGas);
      && Owned(inv, a) && inv.Keys !! At(q, a).Keys && (forall t :: Has(inv, t) ==> t in left)
    ensures var kept := Kept(true, From(p[a], nonce), balance, maxGas);
      Owned(kept, a) && forall t :: Has(kept, t) ==> t in left
    ensures Agree(Put(p, a, Executable(p[a], nonce, balance, maxGas)),
                  Put(q, a, At(q, a) + Postponed(p[a], nonce, balance, maxGas)), left)
  {
    AgreeAt(p, q, known, a);
    DemotionSplit(p[a], nonce, balance, maxGas);
    DemotionKnownAt(p[a], At(q, a), known, middle, left, a, nonce, balance, maxGas);
    AgreeUpdate(p, q, known, a, Executable(p[a], nonce, balance, maxGas),
                At(q, a) + Postponed(p[a], nonce, balance, maxGas), left);
  }

  /** A pending list splits into what is old, unpayable, still executable and postponed. */
  lemma DemotionSplit(l: TxMap, nonce: nat, balance: nat, maxGas: nat)
    requires Keyed(l)
    ensures var young := From(l, nonce);
      var stay, post := Executable(l, nonce, balance, maxGas), Postponed(l, nonce, balance, maxGas);
      && Within(stay, l) && Within(post, l) && Within(young, l) && stay.Keys !! post.Keys
      && Within(Invalidated(true, young, balance, maxGas), l) && Within(Kept(true, young, balance, maxGas), l)
      && (forall t :: Has(stay, t) || Has(post, t) <==>
                      Has(l, t) && !Has(Below(l, nonce), t) && !Has(Unpayable(young, balance, maxGas), t))
      && (forall t :: Has(Invalidated(true, young, balance, maxGas), t) || Has(Kept(true, young, balance, maxGas), t) ==>
                      Has(l, t) && !Has(Below(l, nonce), t) && !Has(Unpayable(young, balance, maxGas), t))
  {
    var young := From(l, nonce);
    StrictSplit(young, balance, maxGas);
    hide Kept;
    forall t ensures Has(l, t) <==> Has(Below(l, nonce), t) != Has(young, t) {
    }
  }

  lemma DemotionKnownAt(l: TxMap, q: TxMap, known: set<Tx>, middle: set<Tx>, left: set<Tx>,
                        a: Address, nonce: nat, balance: nat, maxGas: nat)
    requires Owned(l, a) && Owned(q, a) && l.Keys !! q.Keys
    requires forall t: Tx :: t.sender == a ==> (t in known <==> Has(l, t) || Has(q, t))
    requires forall t :: t in middle <==> t in known && !Has(Below(l, nonce), t)
    requires forall t :: t in left <==> t in middle && !Has(Unpayable(From(l, nonce), balance, maxGas), t)
    ensures var stay, post := Executable(l, nonce, balance, maxGas), Postponed(l, nonce, balance, maxGas);
      && Owned(stay, a) && Owned(q + post, a) && stay.Keys !! (q + post).Keys
      && (forall t: Tx :: t.sender == a ==> (t in left <==> Has(stay, t) || Has(q + post, t)))
      && (forall t: Tx :: t.sender != a ==> (t in left <==> t in known))
  {
    hide Executable, Postponed, Kept;
    DemotionSplit(l, nonce, balance, maxGas);
    var stay, post := Executable(l, nonce, balance, maxGas), Postponed(l, nonce, balance, maxGas);
    forall t: Tx | t.sender == a ensures t in left <==> Has(stay, t) || Has(q + post, t) {
      assert Has(q + post, t) <==> Has(q, t) || Has(post, t);
    }
  }

  lemma StrictSplit(m: TxMap, costLimit: nat, gasLimit: nat)
    requires Keyed(m)
    ensures var kept := Kept(true, m, costLimit, gasLimit);
      && Within(kept, m) && forall n :: n in kept ==> n !in Unpayable(m, costLimit, gasLimit)
  {
    var bad := Unpayable(m, costLimit, gasLimit);
    if bad != map[] {
      assert forall n :: n in bad ==> Least(bad.Keys) <= n;
    }
  }

  lemma PostponeParts(q: AccountLists, a: Address, l: TxMap, nonce: nat, balance: nat, maxGas: nat)
    requires Owned(l, a) && l.Keys !! At(q, a).Keys
    ensures var young := From(l, nonce);
      var kept, inv := Kept(true, young, balance, maxGas), Invalidated(true, young, balance, maxGas);
      && Keyed(l) && Owned(inv, a) && Owned(kept, a) && Keyed(inv) && Keyed(kept)
      && inv.Keys !! At(q, a).Keys && kept.Keys !! At(Put(q, a, At(q, a) + inv), a).Keys
  {
    StrictSplit(From(l, nonce), balance, maxGas);
    AtPut(q, a, At(q, a) + Invalidated(true, From(l, nonce), balance, maxGas));
  }

  lemma EnumeratesSome(s: seq<Tx>, m: TxMap)
    requires Enumerates(s, m) && m != map[]
    ensures s != []
  {
    var n :| n in m.Keys;
  }

  lemma DemotionDone(l: TxMap, nonce: nat, balance: nat, maxGas: nat)
    requires Keyed(l)
    ensures var young := From(l, nonce);
      var kept, inv := Kept(true, young, balance, maxGas), Invalidated(true, young, balance, maxGas);
      if kept == map[] || nonce in kept
      then Executable(l, nonce, balance, maxGas) == kept && Postponed(l, nonce, balance, maxGas) == inv
      else Executable(l, nonce, balance, maxGas) == map[] && Postponed(l, nonce, balance, maxGas) == inv + kept
  {
    var young := From(l, nonce);
    StrictSplit(young, balance, maxGas);
    PostponedWhole(young, Unpayable(young, balance, maxGas), Kept(true, young, balance, maxGas),
                   Invalidated(true, young, balance, maxGas));
    hide Kept, Unpayable, From;
  }

  lemma PutTwice(q: AccountLists, a: Address, l: TxMap, r: TxMap)
    ensures var once := Put(q, a, At(q, a) + l); Put(once, a, At(once, a) + r) == Put(q, a, At(q, a) + (l + r))
  {
    AtPut(q, a, At(q, a) + l);
    assert At(q, a) + l + r == At(q, a) + (l + r);
  }

  lemma PostponedWhole(m: TxMap, bad: TxMap, kept: TxMap, inv: TxMap)
    requires Within(kept, m) && (forall n :: n in kept ==> n !in bad) && inv == m - bad.Keys - kept.Keys
    ensures inv + kept == m - bad.Keys - {}
  {
  }

  lemma CutParts(p: AccountLists, q: AccountLists, known: set<Tx>, a: Address)
    requires Agree(p, q, known) && a in p && |p[a]| > 1
    ensures p[a] != map[] && Greatest(p[a].Keys) in p[a] && p[a] == At(p, a)
    ensures var top := Greatest(p[a].Keys);
      && p[a][top].nonce == top && p[a][top].sender == a && p[a][top] in known
      && Agree(p[a := p[a] - {top}], q, known - {p[a][top]})
      && p[a := p[a] - {top}] == Put(p, a, p[a] - {top})
      && Total(p[a := p[a] - {top}]) == Total(p) - 1
  {
    assert p[a].Keys != {};
    var top := Greatest(p[a].Keys);
    AgreeAt(p, q, known, a);
    LenWithoutGreatest(p[a]);
    TotalUpdate(p, a, p[a] - {top});
    AgreeUpdate(p, q, known, a, p[a] - {top}, At(q, a), known - {p[a][top]});
    PutPresent(q, a);
  }

  lemma CutGapless(l: TxMap, q: TxMap, tx: Tx, nonce: nat, virtual: nat)
    requires l != map[] && GaplessAt(l, q, nonce, virtual) && tx.nonce == Greatest(l.Keys)
    ensures tx.nonce < virtual && GaplessAt(l - {Greatest(l.Keys)}, q, nonce, tx.nonce)
  {
    var top := Greatest(l.Keys);
    assert top in l;
    assert virtual - 1 in l.Keys;
  }

  lemma FairHolds(p0: AccountLists, p: AccountLists, locals: set<Address>, slots: nat, cut: set<Address>, level: nat)
    requires Fair(p0, p, locals, slots, cut, level)
    ensures forall t :: Holds(p, t) ==> Holds(p0, t)
  {
    hide Lowest, At;
    forall t | Holds(p, t) ensures Holds(p0, t) {
      LowestKeeps(At(p0, t.sender), Len(p, t.sender));
    }
  }

  lemma OneLessNone(p: AccountLists)
    ensures forall s: seq<Address> :: OneLess(p, p, s[..0])
  {
  }

  lemma OneLessNext(p0: AccountLists, p: AccountLists, s: seq<Address>, i: nat)
    requires i < |s| && OneLess(p0, p, s[..i]) && Distinct(s) && s[i] in p0 && |p0[s[i]]| > 1
    ensures s[i] in p && p[s[i]] == p0[s[i]] && p[s[i]] != map[]
    ensures OneLess(p0, p[s[i] := p[s[i]] - {Greatest(p[s[i]].Keys)}], s[..i + 1])
  {
    assert s[i] !in s[..i];
    assert s[..i + 1] == s[..i] + [s[i]];
    assert p0[s[i]].Keys != {};
    assert At(p, s[i]) == At(p0, s[i]);
  }

  /** prque.Pop: one of the accounts of highest priority. */
  method PopMost(s: set<Address>, priority: Address -> nat) returns (x: Address)
    requires s != {}
    ensures x in s && forall a :: a in s ==> priority(a) <= priority(x)
  {
    x :| x in s;
    var todo := s - {x};
    while todo != {}
      invariant x in s && todo <= s
      invariant forall a :: a in s && a !in todo ==> priority(a) <= priority(x)
      decreases todo
    {
      var a :| a in todo;
      todo := todo - {a};
      if priority(x) < priority(a) {
        x := a;
      }
    }
  }

  /** Counts the transactions of all accounts. */
  method Count(m: AccountLists) returns (total: nat)
    ensures total == Total(m)
  {
    hide *;
    total := 0;
    var rest := m;
    TotalNone();
    while rest != map[]
      invariant total + Total(rest) == Total(m)
      decreases |rest|
    {
      var a :| a in rest.Keys;
      TotalSplit(rest, a);
      total := total + |rest[a]|;
      assert (rest - {a}).Keys == rest.Keys - {a};
      rest := rest - {a};
    }
  }

  lemma TotalNone()
    ensures Total(map[]) == 0
  {
  }

  lemma GaplessRemoval(p: TxMap, q: TxMap, a: Address, tx: Tx, nonce: nat, virtual: nat)
    requires tx.nonce in p && a == tx.sender
    ensures GaplessAt(p, q, nonce, virtual) ==>
      GaplessAt(Removed(true, p, tx.nonce), q + From(p, tx.nonce + 1), nonce, LoweredNonce(a, tx, virtual))
  {
  }

  /** What `RemoveTx` does to the lists: a pending transaction leaves with all after it, which go
      to the queue; a queued one just leaves. */
  ghost predicate Removal(p0: AccountLists, q0: AccountLists, p: AccountLists, q: AccountLists, tx: Tx) {
    var l, r := At(p0, tx.sender), At(q0, tx.sender);
    if Holds(p0, tx) then p == Put(p0, tx.sender, Removed(true, l, tx.nonce)) && q == Put(q0, tx.sender, r + From(l, tx.nonce + 1))
    else p == p0 && q == if Holds(q0, tx) then Put(q0, tx.sender, r - {tx.nonce as nat}) else q0
  }

  lemma RemovalIs(p0: AccountLists, q0: AccountLists, p: AccountLists, q: AccountLists, tx: Tx)
    ensures var l, r := At(p0, tx.sender), At(q0, tx.sender);
      Removal(p0, q0, p, q, tx) <==>
      if Holds(p0, tx) then p == Put(p0, tx.sender, Removed(true, l, tx.nonce)) && q == Put(q0, tx.sender, r + From(l, tx.nonce + 1))
      else p == p0 && q == if Holds(q0, tx) then Put(q0, tx.sender, r - {tx.nonce as nat}) else q0
  {
  }

  lemma NoneEmpty(p: AccountLists, q: AccountLists, known: set<Tx>)
    requires Agree(p, q, known)
    ensures forall a :: a in p ==> p[a].Keys != {}
  {
  }

  /** A known transaction is where its nonce is found. */
  lemma WhereIs(p: AccountLists, q: AccountLists, known: set<Tx>, tx: Tx)
    requires Agree(p, q, known)
    ensures Holds(p, tx) <==> Has(At(p, tx.sender), tx)
    ensures Holds(q, tx) <==> Has(At(q, tx.sender), tx)
    ensures tx in known <==> Holds(p, tx) || Holds(q, tx)
    ensures Holds(p, tx) ==> tx.sender in p && tx.nonce in p[tx.sender]
    ensures Holds(q, tx) ==> !(tx.sender in p && tx.nonce in p[tx.sender])
  {
    AgreeAt(p, q, known, tx.sender);
  }

  lemma RemovalAgrees(p: AccountLists, q: AccountLists, known: set<Tx>, tx: Tx)
    requires Agree(p, q, known) && Holds(p, tx)
    ensures var l, r := At(p, tx.sender), At(q, tx.sender);
      Agree(Put(p, tx.sender, Below(l, tx.nonce)), Put(q, tx.sender, r + From(l, tx.nonce + 1)), known - {tx})
  {
    hide Agree, Put, WellFormed;
    var l, r := At(p, tx.sender), At(q, tx.sender);
    AgreeAt(p, q, known, tx.sender);
    AgreeUpdate(p, q, known, tx.sender, Below(l, tx.nonce), r + From(l, tx.nonce + 1), known - {tx});
  }

  lemma RemovalParts(p: AccountLists, q: AccountLists, known: set<Tx>, tx: Tx)
    requires Agree(p, q, known) && Holds(p, tx)
    ensures var l, r := At(p, tx.sender), At(q, tx.sender);
      && Owned(l, tx.sender) && tx.nonce in l && l.Keys !! r.Keys && WellFormed(q)
      && (forall t :: Has(From(l, tx.nonce + 1), t) ==> t in known - {tx})
      && Removed(true, l, tx.nonce) == Below(l, tx.nonce)
  {
    AgreeAt(p, q, known, tx.sender);
  }

  lemma QueueRemovalAgrees(p: AccountLists, q: AccountLists, known: set<Tx>, tx: Tx)
    requires Agree(p, q, known) && Holds(q, tx)
    ensures Agree(p, Put(q, tx.sender, At(q, tx.sender) - {tx.nonce as nat}), known - {tx})
  {
    var l, r := At(p, tx.sender), At(q, tx.sender);
    AgreeAt(p, q, known, tx.sender);
    AgreeUpdate(p, q, known, tx.sender, l, r - {tx.nonce as nat}, known - {tx});
    PutPresent(p, tx.sender);
  }

  // ---- Dropping queued transactions one by one ----

  ghost function Drop(m: TxMap, s: seq<Tx>): TxMap {
    if s == [] then m else Drop(m, s[..|s| - 1]) - {s[|s| - 1].nonce as nat}
  }

  /** Each transaction is there when its turn comes. */
  ghost predicate Droppable(m: TxMap, s: seq<Tx>) {
    forall i :: 0 <= i < |s| ==> Has(Drop(m, s[..i]), s[i])
  }

  lemma DropNone(q: AccountLists, a: Address, s: seq<Tx>)
    requires WellFormed(q) && a in q
    ensures q == Put(q, a, Drop(q[a], s[..0]))
  {
  }

  lemma DropStep(q0: AccountLists, a: Address, s: seq<Tx>, i: nat)
    requires WellFormed(q0) && a in q0 && i < |s| && Droppable(q0[a], s)
    ensures var q := Put(q0, a, Drop(q0[a], s[..i]));
      && s[i].sender == a && Holds(q, s[i])
      && Put(q, a, At(q, a) - {s[i].nonce as nat}) == Put(q0, a, Drop(q0[a], s[..i + 1]))
  {
    var m := Drop(q0[a], s[..i]);
    DropWithin(q0[a], s[..i]);
    assert Has(m, s[i]);
    AtPut(q0, a, m);
    assert s[..i + 1][..i] == s[..i];
  }

  lemma {:induction false} DropWithin(m: TxMap, s: seq<Tx>)
    ensures Within(Drop(m, s), m)
  {
    if s != [] {
      DropWithin(m, s[..|s| - 1]);
    }
  }

  /** A listing can be dropped from its front ... */
  lemma {:induction false} DropUp(m: TxMap, s: seq<Tx>, i: nat)
    requires Lists(s, m) && i <= |s|
    ensures Lists(s[i..], Drop(m, s[..i]))
  {
    if i > 0 {
      DropUp(m, s, i - 1);
      assert s[..i][..i - 1] == s[..i - 1];
      var was := Drop(m, s[..i - 1]);
      assert s[i - 1..][0] == s[i - 1] && s[i..] == s[i - 1..][1..];
      assert Has(was, s[i - 1]);
      assert (was - {s[i - 1].nonce as nat}).Keys == was.Keys - {s[i - 1].nonce as nat};
    }
  }

  lemma DropListing(m: TxMap)
    requires Keyed(m)
    ensures Droppable(m, SortByNonce(m)) && Drop(m, SortByNonce(m)) == map[]
  {
    var s := SortByNonce(m);
    SortByNonceLists(m);
    forall i | 0 <= i < |s| ensures Has(Drop(m, s[..i]), s[i]) {
      DropUp(m, s, i);
      assert s[i..][0] == s[i];
    }
    DropUp(m, s, |s|);
    assert s[..|s|] == s;
    assert Drop(m, s).Keys == {};
  }

  /** ... and from its back, which leaves the lowest nonces. */
  lemma {:induction false} DropDown(m: TxMap, s: seq<Tx>, k: nat)
    requires Keyed(m) && Lists(s, m) && k <= |s| && |s| == |m|
    ensures Keyed(Lowest(m, |m| - k)) && Lists(s[..|s| - k], Lowest(m, |m| - k))
    ensures Drop(m, Reversed(s[|s| - k..])) == Lowest(m, |m| - k)
  {
    hide *;
    if k == 0 {
      assert s[..|s|] == s;
      DropNothing(m);
    } else {
      DropDown(m, s, k - 1);
      LowestChain(m, |m| - k);
      CutListing(Lowest(m, |m| - k + 1), s, |s| - k);
      ReversedGrows(s, k);
      DropSnoc(m, Reversed(s[|s| - (k - 1)..]), s[|s| - k]);
    }
  }

  lemma DropNothing(m: TxMap)
    ensures Lowest(m, |m|) == m && Drop(m, Reversed([])) == m
  {
  }

  lemma CutListing(m: TxMap, s: seq<Tx>, j: nat)
    requires Keyed(m) && j < |s| && Lists(s[..j + 1], m)
    ensures m != map[] && s[j].nonce == Greatest(m.Keys)
    ensures Keyed(m - {Greatest(m.Keys)}) && Lists(s[..j], m - {Greatest(m.Keys)})
  {
    assert Has(m, s[..j + 1][j]);
    ListingEnd(m, s[..j + 1]);
    assert s[..j + 1][..j] == s[..j];
  }

  lemma ReversedGrows(s: seq<Tx>, k: nat)
    requires 0 < k <= |s|
    ensures Reversed(s[|s| - k..]) == Reversed(s[|s| - (k - 1)..]) + [s[|s| - k]]
  {
  }

  lemma DropSnoc(m: TxMap, s: seq<Tx>, t: Tx)
    ensures Drop(m, s + [t]) == Drop(m, s) - {t.nonce as nat}
  {
    assert (s + [t])[..|s|] == s;
  }

  lemma DropTail(m: TxMap, count: nat)
    requires Keyed(m) && count <= |m|
    ensures var s := SortByNonce(m); |s| == |m| && var some := Reversed(s[|s| - count..]);
      Droppable(m, some) && Drop(m, some) == Lowest(m, |m| - count)
  {
    var s := SortByNonce(m);
    SortByNonceLists(m);
    DropDown(m, s, count);
    hide Drop, Lowest, SortByNonce, Lists, Keyed;
    var some := Reversed(s[|s| - count..]);
    forall i | 0 <= i < |some| ensures Has(Drop(m, some[..i]), some[i]) {
      DropNext(m, s, count, i);
    }
  }

  lemma DropNext(m: TxMap, s: seq<Tx>, count: nat, i: nat)
    requires Keyed(m) && Lists(s, m) && |s| == |m| && i < count <= |m|
    ensures var some := Reversed(s[|s| - count..]); Has(Drop(m, some[..i]), some[i])
  {
    hide Drop, Lowest;
    DropDown(m, s, i);
    var some := Reversed(s[|s| - count..]);
    assert some[..i] == Reversed(s[|s| - i..]);
    assert s[..|s| - i][|s| - 1 - i] == some[i];
  }

  lemma TotalPut(m: AccountLists, a: Address, l: TxMap)
    requires a in m
    ensures Total(Put(m, a, l)) == Total(m) - |m[a]| + |l|
  {
    hide Total;
    TotalSplit(m, a);
    TotalUpdate(m, a, l);
  }

  lemma DropParts(p: AccountLists, q: AccountLists, known: set<Tx>, a: Address)
    requires Agree(p, q, known) && a in q
    ensures WellFormed(q) && Keyed(q[a]) && Put(q, a, map[]) == q - {a}
  {
  }

  // ---- Truncation of the queue ----

  /** The state of `truncateQueue`: lists are only cut from the top, local accounts and the
      accounts still waiting are untouched, and every non-local account that still has
      queued transactions is waiting, unless nothing more is to be dropped. */
  ghost predicate QueueCut(q0: AccountLists, q: AccountLists, locals: set<Address>, waiting: seq<Address>, drop: nat) {
    && (forall a :: At(q, a) == Lowest(At(q0, a), Len(q, a)))
    && (forall a :: a in locals || a in waiting ==> At(q, a) == At(q0, a))
    && Distinct(waiting) && (forall a :: a in waiting ==> a in q && a !in locals)
    && (drop > 0 ==> forall a :: a in q && a !in locals ==> a in waiting)
  }

  lemma QueueCutStart(q: AccountLists, locals: set<Address>, waiting: seq<Address>, drop: nat)
    requires Distinct(waiting) && forall a :: a in waiting <==> a in q && a !in locals
    ensures QueueCut(q, q, locals, waiting, drop)
  {
    forall a ensures At(q, a) == Lowest(At(q, a), Len(q, a)) {
    }
  }

  /** Cutting the list of the last waiting account down to `k`. */
  lemma QueueCutStep(q0: AccountLists, q: AccountLists, locals: set<Address>, waiting: seq<Address>, drop: nat, k: nat, left: nat)
    requires QueueCut(q0, q, locals, waiting, drop) && waiting != [] && WellFormed(q)
    requires var a := waiting[|waiting| - 1]; a in q && k < |q[a]| && (k > 0 ==> left == 0)
    requires left > 0 ==> drop > 0
    ensures var a := waiting[|waiting| - 1];
      QueueCut(q0, Put(q, a, Lowest(q[a], k)), locals, waiting[..|waiting| - 1], left)
  {
    hide Lowest, Put, WellFormed;
    var a := waiting[|waiting| - 1];
    LowestKeeps(q[a], k);
    assert k == 0 ==> Lowest(q[a], k).Keys == {};
    AtPut(q, a, Lowest(q[a], k));
    PutKeeps(q, a, Lowest(q[a], k));
    var rest := waiting[..|waiting| - 1];
    assert waiting == rest + [a];
    assert forall b :: b in waiting <==> b in rest || b == a;
    assert a !in rest;
  }

  /** In the order of the accounts' last activity. */
  ghost predicate ByBeat(accounts: seq<Address>, beats: Address -> nat) {
    forall i, j :: 0 <= i < j < |accounts| ==> beats(accounts[i]) <= beats(accounts[j])
  }

  /** An account has lost queued transactions only if all non-local accounts that were active later
      have lost all of theirs. */
  ghost predicate LatestFirst(q0: AccountLists, q: AccountLists, locals: set<Address>, beats: Address -> nat) {
    forall a, b :: Len(q, a) < Len(q0, a) && b !in locals && beats(a) < beats(b) ==> b !in q
  }

  lemma LatestFirstStart(q: AccountLists, locals: set<Address>, beats: Address -> nat)
    ensures LatestFirst(q, q, locals, beats)
  {
  }

  lemma LatestFirstStep(q0: AccountLists, q: AccountLists, locals: set<Address>, waiting: seq<Address>, drop: nat, k: nat,
                        beats: Address -> nat)
    requires QueueCut(q0, q, locals, waiting, drop) && drop > 0 && waiting != [] && ByBeat(waiting, beats)
    requires LatestFirst(q0, q, locals, beats) && waiting[|waiting| - 1] in q
    ensures var a := waiting[|waiting| - 1];
      LatestFirst(q0, Put(q, a, Lowest(q[a], k)), locals, beats) && ByBeat(waiting[..|waiting| - 1], beats)
  {
    hide Lowest, Put, At;
    var a := waiting[|waiting| - 1];
    var q' := Put(q, a, Lowest(q[a], k));
    AtPut(q, a, Lowest(q[a], k));
    PutKeeps(q, a, Lowest(q[a], k));
    forall x, b | Len(q', x) < Len(q0, x) && b !in locals && beats(x) < beats(b) ensures b !in q' {
      assert b in q ==> b in waiting;
    }
  }

  lemma QueueCutEnd(q0: AccountLists, q: AccountLists, locals: set<Address>, waiting: seq<Address>, drop: nat)
    requires QueueCut(q0, q, locals, waiting, drop)
    ensures forall a :: At(q, a) == Lowest(At(q0, a), Len(q, a))
    ensures forall a :: a in locals ==> At(q, a) == At(q0, a)
    ensures drop > 0 && waiting == [] ==> forall a :: a in q ==> a in locals
  {
    hide Lowest;
  }

  lemma QueueCutLast(q0: AccountLists, q: AccountLists, locals: set<Address>, waiting: seq<Address>, drop: nat)
    requires QueueCut(q0, q, locals, waiting, drop) && waiting != []
    ensures waiting[|waiting| - 1] in q
  {
    hide Lowest;
  }

  lemma QueueCutStop(q0: AccountLists, q: AccountLists, locals: set<Address>, waiting: seq<Address>, drop: nat)
    requires QueueCut(q0, q, locals, waiting, drop) && (drop == 0 || waiting == [])
    ensures QueueCut(q0, q, locals, [], drop)
  {
    hide Lowest;
  }

  lemma LowestSize(m: TxMap, k: nat)
    requires k <= |m|
    ensures |Lowest(m, k)| == k
  {
    LowestKeeps(m, k);
  }

  lemma QueueTail(p: AccountLists, q: AccountLists, known: set<Tx>, a: Address)
    requires Agree(p, q, known) && a in q
    ensures WellFormed(q) && 0 < |q[a]| && Lowest(q[a], 0) == map[] && Put(q, a, map[]) == q - {a}
  {
    LowestKeeps(q[a], 0);
    assert q[a].Keys != {};
    assert Lowest(q[a], 0).Keys == {};
  }

  // ---- Adding transactions ----

  /** What is left of `known` once `tx` has displaced the transaction in its place. */
  function Displaced(known: set<Tx>, tx: Tx): set<Tx> {
    set u | u in known && !(u.sender == tx.sender && u.nonce == tx.nonce)
  }

  /** A transaction of the same sender with the same nonce is known. */
  ghost predicate Rivalled(known: set<Tx>, tx: Tx) {
    exists u :: u in known && u.sender == tx.sender && u.nonce == tx.nonce
  }

  /** The known rival of `tx`, if there is one, is at most this good: `tx` may replace it. */
  ghost predicate OutbidsRivals(known: set<Tx>, tx: Tx, bump: nat) {
    forall u :: u in known && u.sender == tx.sender && u.nonce == tx.nonce ==> Outbids(tx, u, bump)
  }

  /** The dropped transactions are remote ones, none of them dearer than one that stays. */
  ghost predicate Cheaper(dropped: set<Tx>, remotes: set<Tx>) {
    dropped <= remotes && forall d, t :: d in dropped && t in remotes - dropped ==> d.price <= t.price
  }

  /** Some remote transaction is known and none is cheaper than `tx`. */
  ghost predicate Undercut(tx: Tx, remotes: set<Tx>) {
    remotes != {} && forall t :: t in remotes ==> tx.price <= t.price
  }

  lemma CheaperWithin(dropped: set<Tx>, remotes: set<Tx>)
    requires Cheaper(dropped, remotes)
    ensures dropped <= remotes
  {
  }

  lemma UndercutIs(tx: Tx, remotes: set<Tx>)
    ensures Undercut(tx, remotes) <==> remotes != {} && forall t :: t in remotes ==> tx.price <= t.price
  {
  }

  lemma DropIsCheaper(drop: seq<Tx>, remotes: set<Tx>)
    ensures var dropped := set t | t in drop;
      && (drop == [] <==> dropped == {})
      && ((forall d :: d in drop ==> d in remotes) && (forall d, t :: d in drop && t in remotes && t !in drop ==> d.price <= t.price) ==>
            Cheaper(dropped, remotes))
  {
    var dropped := set t | t in drop;
    if drop == [] {
      assert dropped == {};
    } else {
      assert drop[0] in dropped;
    }
  }

  lemma SingleKept(before: seq<Tx>, heap: seq<Tx>, live: set<Tx>)
    requires Keeps(before, heap, [], live)
    ensures Single(before, live) <==> Single(heap, live)
  {
  }

  /** What dropping `drop` does to the slots in use. */
  lemma RoomMade(known: set<Tx>, remotes: set<Tx>, drop: seq<Tx>, missing: int, force: bool)
    requires remotes <= known && forall d :: d in drop ==> d in remotes
    requires missing <= SeqSlots(drop) || (force && forall t :: t in remotes ==> t in drop)
    ensures var dropped := set t | t in drop;
      && SumSlots(known - dropped) == SumSlots(known) - SumSlots(dropped)
      && (SeqSlots(drop) == SumSlots(dropped) ==> (missing <= SumSlots(dropped) <==> missing <= SumSlots(remotes)))
      && (missing > 0 && remotes != {} ==> drop != [])
  {
    var dropped := set t | t in drop;
    SumSlotsWithout(known, dropped);
    SumSlotsWithin(dropped, remotes);
    if forall t :: t in remotes ==> t in drop {
      assert dropped == remotes;
    }
  }

  lemma DisplacedSlots(known: set<Tx>, tx: Tx)
    ensures SumSlots(Displaced(known, tx) + {tx}) <= SumSlots(known) + tx.slots
  {
    var left := Displaced(known, tx) - {tx};
    SumSlotsAdd(left, tx);
    assert left + {tx} == Displaced(known, tx) + {tx};
    SumSlotsWithin(left, known);
  }

  lemma NothingDropped(remotes: set<Tx>)
    ensures Cheaper({}, remotes)
  {
  }

  lemma RivalAt(p: AccountLists, q: AccountLists, known: set<Tx>, tx: Tx, l: TxMap, bump: nat)
    requires Agree(p, q, known)
    requires l == if tx.nonce in At(p, tx.sender) then At(p, tx.sender) else At(q, tx.sender)
    ensures Rivalled(known, tx) <==> tx.nonce in l
    ensures OutbidsRivals(known, tx, bump) <==> Accepts(l, tx, bump)
    ensures Displaced(known, tx) == known - if tx.nonce in l then {l[tx.nonce]} else {}
    ensures tx.nonce in l ==> l[tx.nonce] in known
  {
    hide Agree, Outbids;
    AgreeAt(p, q, known, tx.sender);
    if tx.nonce in l {
      assert Has(l, l[tx.nonce]);
    }
    forall u | u in known && u.sender == tx.sender && u.nonce == tx.nonce ensures tx.nonce in l && u == l[tx.nonce] {
      assert Has(At(p, tx.sender), u) || Has(At(q, tx.sender), u);
    }
  }

  /** At most one rival is known, and what it takes to replace it, in terms of the prices. */
  lemma RivalPrices(p: AccountLists, q: AccountLists, known: set<Tx>, tx: Tx, bump: nat)
    requires Agree(p, q, known)
    ensures Rivalled(known, tx) <==> exists u :: u in known && u.sender == tx.sender && u.nonce == tx.nonce
    ensures forall u :: u in known && u.sender == tx.sender && u.nonce == tx.nonce ==>
              (OutbidsRivals(known, tx, bump) <==> Outprices(tx, u, bump))
    ensures !Rivalled(known, tx) ==> OutbidsRivals(known, tx, bump)
  {
    hide Agree, Outbids, Outprices;
    AgreeAt(p, q, known, tx.sender);
    forall u | u in known && u.sender == tx.sender && u.nonce == tx.nonce
      ensures OutbidsRivals(known, tx, bump) <==> Outprices(tx, u, bump)
    {
      OutbidsMeans(tx, u, bump);
      forall v | v in known && v.sender == tx.sender && v.nonce == tx.nonce ensures v == u {
        assert Has(At(p, tx.sender), u) || Has(At(q, tx.sender), u);
        assert Has(At(p, tx.sender), v) || Has(At(q, tx.sender), v);
      }
    }
  }

  lemma QueueAddition(p: AccountLists, q: AccountLists, known: set<Tx>, tx: Tx)
    requires Agree(p, q, known) && tx.nonce !in At(p, tx.sender)
    ensures Agree(p, q[tx.sender := With(At(q, tx.sender), tx)], Displaced(known, tx) + {tx})
    ensures q[tx.sender := With(At(q, tx.sender), tx)] == Put(q, tx.sender, With(At(q, tx.sender), tx))
  {
    AgreeAt(p, q, known, tx.sender);
    PutPresent(p, tx.sender);
    var r := With(At(q, tx.sender), tx);
    assert tx.nonce in r;
    AgreeUpdate(p, q, known, tx.sender, At(p, tx.sender), r, Displaced(known, tx) + {tx});
  }

  lemma PendingReplacement(p: AccountLists, q: AccountLists, known: set<Tx>, tx: Tx)
    requires Agree(p, q, known) && tx.nonce in At(p, tx.sender)
    ensures Agree(p[tx.sender := With(At(p, tx.sender), tx)], q, Displaced(known, tx) + {tx})
    ensures p[tx.sender := With(At(p, tx.sender), tx)] == Put(p, tx.sender, With(At(p, tx.sender), tx))
  {
    AgreeAt(p, q, known, tx.sender);
    PutPresent(q, tx.sender);
    var l := With(At(p, tx.sender), tx);
    assert tx.nonce in l;
    AgreeUpdate(p, q, known, tx.sender, l, At(q, tx.sender), Displaced(known, tx) + {tx});
  }

  lemma GaplessAddition(p: TxMap, q: TxMap, tx: Tx, nonce: nat, virtual: nat)
    requires GaplessAt(p, q, nonce, virtual) && nonce <= tx.nonce
    ensures if tx.nonce in p then GaplessAt(With(p, tx), q, nonce, virtual) else GaplessAt(p, With(q, tx), nonce, virtual)
  {
  }
}
