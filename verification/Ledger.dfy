/** Account balances and their total. */
module Ledgers {
  import opened Transactions

  type Balances = map<Address, nat>

  function Balance(b: Balances, a: Address): nat {
    if a in b then b[a] else 0
  }

  function Credit(b: Balances, a: Address, amount: nat): Balances {
    b[a := Balance(b, a) + amount]
  }

  function Debit(b: Balances, a: Address, amount: nat): Balances
    requires amount <= Balance(b, a)
  {
    b[a := Balance(b, a) - amount]
  }

  ghost function Total(b: Balances): nat {
    if b == map[] then 0 else
      var a :| a in b.Keys;
      b[a] + Total(b - {a})
  }

  lemma {:induction false} TotalSplit(b: Balances, a: Address)
    requires a in b
    ensures Total(b) == b[a] + Total(b - {a})
    decreases |b|
  {
    var c :| c in b.Keys && Total(b) == b[c] + Total(b - {c});
    if c != a {
      TotalSplit(b - {c}, a);
      TotalSplit(b - {a}, c);
      assert b - {c} - {a} == b - {a} - {c};
    }
  }

  lemma TotalSet(b: Balances, a: Address, amount: nat)
    ensures Total(b[a := amount]) == Total(b) - Balance(b, a) + amount
  {
    var c := b[a := amount];
    TotalSplit(c, a);
    assert c - {a} == b - {a};
    if a in b {
      TotalSplit(b, a);
    } else {
      assert b - {a} == b;
    }
  }

  /** Money moves, it is neither made nor lost. */
  lemma TotalMoves(b: Balances, a: Address, amount: nat)
    ensures Total(Credit(b, a, amount)) == Total(b) + amount
    ensures amount <= Balance(b, a) ==> Total(Debit(b, a, amount)) == Total(b) - amount
  {
    TotalSet(b, a, Balance(b, a) + amount);
    if amount <= Balance(b, a) {
      TotalSet(b, a, Balance(b, a) - amount);
    }
  }
}
