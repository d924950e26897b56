/** Transactions as the pool sees them, and the nonce-keyed collections its lists hold.

    A transaction hash identifies its transaction, so the transaction itself stands for
    its hash; `id` tells apart transactions that agree on everything else. */
module Transactions {

  type Address = nat

  const MAX_UINT64: nat := 0xFFFF_FFFF_FFFF_FFFF

  /** Account nonces stay below 2^64-1, so that the successor of a nonce is a uint64. */
  type Nonce = n: nat | n < MAX_UINT64

  datatype Tx = Tx(id: nat, sender: Address, nonce: Nonce, price: nat, gas: nat, cost: nat, slots: nat)

  datatype Option<+T> = None | Some(value: T)

  /** The contents of one account's list: nonce -> transaction. */
  type TxMap = map<nat, Tx>

  predicate Keyed(m: TxMap) {
    forall n :: n in m ==> m[n].nonce == n
  }

  /** `t` is one of the transactions of `m`. */
  predicate Has(m: TxMap, t: Tx) {
    t.nonce in m && m[t.nonce] == t
  }

  /** The two transactions cannot both be executed: same sender, same nonce. */
  ghost predicate SamePlace(t: Tx, u: Tx) {
    t.sender == u.sender && t.nonce == u.nonce
  }

  /** The list with `t` stored under its nonce. */
  function With(m: TxMap, t: Tx): TxMap {
    m[t.nonce := t]
  }

  function Below(m: TxMap, k: int): TxMap {
    map n | n in m && n < k :: m[n]
  }

  function From(m: TxMap, k: int): TxMap {
    map n | n in m && k <= n :: m[n]
  }

  function Without(m: TxMap, p: Tx -> bool): TxMap {
    map n | n in m && !p(m[n]) :: m[n]
  }

  // ---- Least and greatest keys ----

  lemma {:induction false} LeastFrom(s: set<nat>, x: nat)
    requires x in s
    ensures exists m :: m in s && forall k :: k in s ==> m <= k
    decreases x
  {
    if y :| y in s && y < x {
      LeastFrom(s, y);
    }
  }

  lemma {:induction false} GreatestFrom(s: set<nat>, x: nat)
    requires x in s
    ensures exists m :: m in s && forall k :: k in s ==> k <= m
    decreases Above(s, x)
  {
    if y :| y in s && x < y {
      assert y in Above(s, x) && y !in Above(s, y) && Above(s, y) <= Above(s, x);
      GreatestFrom(s, y);
    }
  }

  ghost function Above(s: set<nat>, x: nat): set<nat> {
    set y | y in s && x < y
  }

  function Least(s: set<nat>): (m: nat)
    requires s != {}
  {
    assert exists m :: m in s && forall k :: k in s ==> m <= k by {
      var x :| x in s;
      LeastFrom(s, x);
    }
    var m :| m in s && forall k :: k in s ==> m <= k;
    m
  }

  function Greatest(s: set<nat>): (m: nat)
    requires s != {}
  {
    assert exists m :: m in s && forall k :: k in s ==> k <= m by {
      var x :| x in s;
      GreatestFrom(s, x);
    }
    var m :| m in s && forall k :: k in s ==> k <= m;
    m
  }

  /** The `k` transactions with the lowest nonces, or all if there are fewer. */
  function Lowest(m: TxMap, k: nat): (r: TxMap)
    decreases |m|
  {
    if |m| <= k then m else
      var top := Greatest(m.Keys);
      assert (m - {top}).Keys == m.Keys - {top};
      Lowest(m - {top}, k)
  }

  lemma {:induction false} LowestKeeps(m: TxMap, k: nat)
    ensures var r := Lowest(m, k);
      && r.Keys <= m.Keys && (forall n :: n in r ==> r[n] == m[n])
      && |r| == (if |m| <= k then |m| else k)
      && (forall n, d :: n in r && d in m && d !in r ==> n < d)
    decreases |m|
  {
    if |m| > k {
      var top := Greatest(m.Keys);
      assert (m - {top}).Keys == m.Keys - {top};
      LowestKeeps(m - {top}, k);
    }
  }

  // ---- The nonce-sorted listing ----

  ghost predicate Increasing(s: seq<Tx>) {
    forall i, j :: 0 <= i < j < |s| ==> s[i].nonce < s[j].nonce
  }

  /** `s` lists the transactions of `m`, each once, by increasing nonce. */
  ghost predicate Lists(s: seq<Tx>, m: TxMap) {
    |s| == |m| && Increasing(s) && forall i :: 0 <= i < |s| ==> Has(m, s[i])
  }

  /** sort.Sort(types.TxByNonce(..)) over the stored transactions. */
  function SortByNonce(m: TxMap): (s: seq<Tx>)
    decreases |m|
  {
    if m == map[] then [] else
      var least := Least(m.Keys);
      assert (m - {least}).Keys == m.Keys - {least};
      [m[least]] + SortByNonce(m - {least})
  }

  lemma {:induction false} SortByNonceLists(m: TxMap)
    requires Keyed(m)
    ensures Lists(SortByNonce(m), m)
    decreases |m|
  {
    if m != map[] {
      var least := Least(m.Keys);
      assert (m - {least}).Keys == m.Keys - {least};
      SortByNonceLists(m - {least});
    }
  }

  /** A listing leaves nothing out. */
  lemma {:induction false} ListingIsComplete(s: seq<Tx>, m: TxMap, t: Tx)
    requires Lists(s, m) && Has(m, t)
    ensures t in s
    decreases |s|
  {
    assert t.nonce in m.Keys;
    var last := s[|s| - 1];
    if last != t {
      var rest := m - {last.nonce as nat};
      assert rest.Keys == m.Keys - {last.nonce as nat};
      ListingIsComplete(s[..|s| - 1], rest, t);
    }
  }

  /** There is only one listing, so any listing is what sorting from scratch gives. */
  lemma {:induction false} ListingIsUnique(s: seq<Tx>, r: seq<Tx>, m: TxMap)
    requires Lists(s, m) && Lists(r, m)
    ensures s == r
    decreases |s|
  {
    if s != [] {
      ListingIsComplete(s, m, r[0]);
      ListingIsComplete(r, m, s[0]);
      assert s[0] == r[0];
      var rest := m - {s[0].nonce as nat};
      assert rest.Keys == m.Keys - {s[0].nonce as nat};
      ListingIsUnique(s[1..], r[1..], rest);
    }
  }

  /** Listings of the parts below and from `k` make up a listing of the whole. */
  lemma ListingJoins(m: TxMap, k: int, lo: seq<Tx>, hi: seq<Tx>)
    requires Lists(lo, Below(m, k)) && Lists(hi, From(m, k))
    ensures Lists(lo + hi, m)
  {
    PartSizes(m, k);
  }

  /** Cutting a listing where the part below `k` ends leaves a listing of the rest. */
  lemma ListingCuts(m: TxMap, k: int, s: seq<Tx>)
    requires Keyed(m) && Lists(s, m)
    ensures var cut := |Below(m, k)|; cut <= |s| && Lists(s[..cut], Below(m, k)) && Lists(s[cut..], From(m, k))
  {
    PartSizes(m, k);
    var lo, hi := SortByNonce(Below(m, k)), SortByNonce(From(m, k));
    SortByNonceLists(Below(m, k));
    SortByNonceLists(From(m, k));
    ListingJoins(m, k, lo, hi);
    ListingIsUnique(s, lo + hi, m);
    assert s[..|lo|] == lo && s[|lo|..] == hi;
  }

  lemma PartSizes(m: TxMap, k: int)
    ensures |Below(m, k)| + |From(m, k)| == |m|
  {
    var lo, hi := Below(m, k), From(m, k);
    assert lo.Keys + hi.Keys == m.Keys && lo.Keys !! hi.Keys;
    assert |lo.Keys + hi.Keys| == |lo.Keys| + |hi.Keys|;
  }

  /** The last transaction of a listing is the one with the greatest nonce. */
  lemma ListingEnd(m: TxMap, s: seq<Tx>)
    requires Keyed(m) && Lists(s, m) && m != map[]
    ensures var top := Greatest(m.Keys);
      s != [] && s[|s| - 1] == m[top] && Lists(s[..|s| - 1], m - {top}) && |m - {top}| == |m| - 1
  {
    var top := Greatest(m.Keys);
    ListingIsComplete(s, m, m[top]);
    assert (m - {top}).Keys == m.Keys - {top};
  }
}
