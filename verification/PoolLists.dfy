/** The pool's per-account lists as values, and what it means for the pending lists, the
    queued lists and the lookup of known transactions to agree. */
module PoolLists {
  import opened Transactions
  import opened TxLists

  type AccountLists = map<Address, TxMap>

  function At(m: AccountLists, a: Address): TxMap {
    if a in m then m[a] else map[]
  }

  function Len(m: AccountLists, a: Address): nat {
    |At(m, a)|
  }

  /** Stores a list; an empty list is not kept. */
  function Put(m: AccountLists, a: Address, l: TxMap): AccountLists {
    if l == map[] then m - {a} else m[a := l]
  }

  /** Only transactions of the account, each under its own nonce. */
  ghost predicate Owned(l: TxMap, a: Address) {
    forall n :: n in l ==> l[n].nonce == n && l[n].sender == a
  }

  ghost predicate WellFormed(m: AccountLists) {
    forall a :: a in m ==> m[a] != map[] && Owned(m[a], a)
  }

  ghost predicate Holds(m: AccountLists, t: Tx) {
    Has(At(m, t.sender), t)
  }

  ghost predicate Apart(p: AccountLists, q: AccountLists) {
    forall a :: At(p, a).Keys !! At(q, a).Keys
  }

  /** No account has a nonce both pending and queued, and the known transactions are
      exactly the pending and the queued ones. */
  ghost predicate Agree(p: AccountLists, q: AccountLists, known: set<Tx>) {
    && WellFormed(p) && WellFormed(q) && Apart(p, q)
    && forall t :: t in known <==> Holds(p, t) || Holds(q, t)
  }

  lemma AtPut(m: AccountLists, a: Address, l: TxMap)
    ensures forall b :: At(Put(m, a, l), b) == if b == a then l else At(m, b)
  {
  }

  lemma AtPresent(m: AccountLists, a: Address)
    requires a in m
    ensures At(m, a) == m[a]
  {
  }

  /** Changing one account keeps the agreement if the account's own part agrees. */
  lemma AgreeUpdate(p: AccountLists, q: AccountLists, known: set<Tx>,
                    a: Address, l: TxMap, r: TxMap, known': set<Tx>)
    requires Agree(p, q, known)
    requires Owned(l, a) && Owned(r, a) && l.Keys !! r.Keys
    requires forall t: Tx :: t.sender == a ==> (t in known' <==> Has(l, t) || Has(r, t))
    requires forall t: Tx :: t.sender != a ==> (t in known' <==> t in known)
    ensures Agree(Put(p, a, l), Put(q, a, r), known')
  {
    AtPut(p, a, l);
    AtPut(q, a, r);
    forall t ensures t in known' <==> Holds(Put(p, a, l), t) || Holds(Put(q, a, r), t) {
      if t.sender != a {
        assert t in known <==> Holds(p, t) || Holds(q, t);
      }
    }
  }

  /** What the agreement says about a single account. */
  lemma AgreeAt(p: AccountLists, q: AccountLists, known: set<Tx>, a: Address)
    requires Agree(p, q, known)
    ensures WellFormed(p) && WellFormed(q)
    ensures Owned(At(p, a), a) && Owned(At(q, a), a) && At(p, a).Keys !! At(q, a).Keys
    ensures forall t: Tx :: t.sender == a ==> (t in known <==> Has(At(p, a), t) || Has(At(q, a), t))
  {
    forall t: Tx | t.sender == a ensures t in known <==> Has(At(p, a), t) || Has(At(q, a), t) {
      assert t in known <==> Holds(p, t) || Holds(q, t);
    }
  }

  lemma PutPresent(m: AccountLists, a: Address)
    requires WellFormed(m)
    ensures Put(m, a, At(m, a)) == m
  {
  }

  // ---- Several transactions at once ----

  /** The list after inserting the transactions one by one. */
  function Insert(m: TxMap, s: seq<Tx>): TxMap {
    if s == [] then m else With(Insert(m, s[..|s| - 1]), s[|s| - 1])
  }

  ghost predicate Enumerates(s: seq<Tx>, m: TxMap) {
    && |s| == |m|
    && (forall i :: 0 <= i < |s| ==> Has(m, s[i]))
    && (forall i, j :: 0 <= i < j < |s| ==> s[i].nonce != s[j].nonce)
    && (forall t :: t in s <==> Has(m, t))
  }

  /** Some order of a list's transactions, as a range over a Go map gives it. */
  method Enumerate(m: TxMap) returns (s: seq<Tx>)
    requires Keyed(m)
    ensures Enumerates(s, m)
  {
    s := [];
    var todo := m.Keys;
    while todo != {}
      invariant todo <= m.Keys
      invariant |s| == |m| - |todo|
      invariant forall i :: 0 <= i < |s| ==> Has(m, s[i]) && s[i].nonce !in todo
      invariant forall i, j :: 0 <= i < j < |s| ==> s[i].nonce != s[j].nonce
      invariant forall n :: n in m && n !in todo ==> m[n] in s
      decreases todo
    {
      var n :| n in todo;
      todo := todo - {n};
      s := s + [m[n]];
    }
    forall t ensures t in s <==> Has(m, t) {
      if t in s {
        var i :| 0 <= i < |s| && s[i] == t;
      }
    }
  }

  lemma EnumeratesIs(s: seq<Tx>, m: TxMap)
    requires Enumerates(s, m)
    ensures forall t :: t in s <==> Has(m, t)
  {
  }

  lemma EnumeratedOnce(s: seq<Tx>, m: TxMap, i: nat)
    requires Enumerates(s, m) && i < |s|
    ensures s[i] !in s[..i] && forall t :: t in s[..i + 1] <==> t in s[..i] || t == s[i]
  {
  }

  lemma ListingEnumerates(m: TxMap)
    requires Keyed(m)
    ensures Enumerates(SortByNonce(m), m) && Lists(SortByNonce(m), m)
  {
    SortByNonceLists(m);
    var s := SortByNonce(m);
    forall t ensures t in s <==> Has(m, t) {
      if Has(m, t) {
        ListingIsComplete(s, m, t);
      }
    }
  }

  lemma {:induction false} InsertKeys(m: TxMap, s: seq<Tx>, i: nat)
    requires i <= |s|
    ensures forall n :: n in Insert(m, s[..i]) <==> n in m || exists j :: 0 <= j < i && s[j].nonce == n
    ensures forall n :: n in Insert(m, s[..i]) && n in m && (forall j :: 0 <= j < i ==> s[j].nonce != n) ==> Insert(m, s[..i])[n] == m[n]
  {
    if i > 0 {
      assert s[..i][..i - 1] == s[..i - 1];
      InsertKeys(m, s, i - 1);
    }
  }

  /** Inserting all transactions of a list that shares no nonce with `m` joins the two. */
  lemma {:induction false} InsertJoins(m: TxMap, s: seq<Tx>, r: TxMap)
    requires Enumerates(s, r) && m.Keys !! r.Keys && Keyed(r)
    ensures Insert(m, s) == m + r
    decreases |s|
  {
    if s == [] {
      assert r.Keys == {};
      assert m + r == m;
    } else {
      var last := s[|s| - 1];
      EnumeratesInit(s, r);
      var rest := r - {last.nonce as nat};
      JoinLast(m, r, last);
      hide Enumerates, Has;
      InsertJoins(m, s[..|s| - 1], rest);
    }
  }

  lemma JoinLast(m: TxMap, r: TxMap, last: Tx)
    requires m.Keys !! r.Keys && Has(r, last)
    ensures With(m + (r - {last.nonce as nat}), last) == m + r
  {
  }

  lemma EnumeratesInit(s: seq<Tx>, r: TxMap)
    requires Enumerates(s, r) && s != []
    ensures var last := s[|s| - 1]; Has(r, last) && Enumerates(s[..|s| - 1], r - {last.nonce as nat})
  {
    var last, init := s[|s| - 1], s[..|s| - 1];
    var r' := r - {last.nonce as nat};
    assert r'.Keys == r.Keys - {last.nonce as nat};
    forall t ensures t in init <==> Has(r', t) {
      assert s == init + [last];
      assert t in s <==> t in init || t == last;
      if t in init {
        var i :| 0 <= i < |init| && init[i] == t;
        assert s[i] == t;
      }
    }
  }

  /** None of the transactions still to come is in the way of the others. */
  lemma InsertFree(m: TxMap, s: seq<Tx>, r: TxMap, i: nat)
    requires Enumerates(s, r) && m.Keys !! r.Keys && i < |s|
    ensures s[i].nonce !in Insert(m, s[..i])
  {
    InsertKeys(m, s, i);
    assert s[i].nonce in r.Keys;
  }

  lemma InsertStep(m: TxMap, s: seq<Tx>, i: nat)
    requires i < |s|
    ensures Insert(m, s[..i + 1]) == With(Insert(m, s[..i]), s[i])
  {
    assert s[..i + 1][..i] == s[..i];
  }

  // ---- Totals ----

  function Total(m: AccountLists): nat {
    if m == map[] then 0 else
      var a := Least(m.Keys);
      |m[a]| + Total(m - {a})
  }

  lemma TotalUnfolds(m: AccountLists)
    requires m != map[]
    ensures var a := Least(m.Keys); a in m && Total(m) == |m[a]| + Total(m - {a})
  {
  }

  lemma {:induction false} TotalSplit(m: AccountLists, a: Address)
    requires a in m
    ensures Total(m) == |m[a]| + Total(m - {a})
    decreases |m|
  {
    hide Total, Least;
    var b := Least(m.Keys);
    TotalUnfolds(m);
    if a != b {
      assert (m - {b}).Keys == m.Keys - {b};
      TotalSplit(m - {b}, a);
      assert (m - {a}).Keys == m.Keys - {a};
      TotalSplit(m - {a}, b);
      assert m - {b} - {a} == m - {a} - {b};
    }
  }

  lemma TotalUpdate(m: AccountLists, a: Address, l: TxMap)
    requires a in m
    ensures Total(m[a := l]) == Total(m) - |m[a]| + |l|
  {
    hide Total, Least;
    TotalSplit(m, a);
    TotalSplit(m[a := l], a);
    assert m[a := l] - {a} == m - {a};
  }
}
