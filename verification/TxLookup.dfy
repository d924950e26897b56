/** txLookup of core/tx_pool.go: every transaction the pool knows, split into local and
    remote ones, with the number of slots they use. */
module TxLookups {
  import opened Transactions

  ghost function SumSlots(s: set<Tx>): nat {
    if s == {} then 0 else
      var t :| t in s;
      t.slots + SumSlots(s - {t})
  }

  lemma {:induction false} SumSlotsSplit(s: set<Tx>, t: Tx)
    requires t in s
    ensures SumSlots(s) == t.slots + SumSlots(s - {t})
    decreases |s|
  {
    var u :| u in s && SumSlots(s) == u.slots + SumSlots(s - {u});
    if u != t {
      SumSlotsSplit(s - {u}, t);
      SumSlotsSplit(s - {t}, u);
      assert s - {u} - {t} == s - {t} - {u};
    }
  }

  lemma SumSlotsAdd(s: set<Tx>, t: Tx)
    requires t !in s
    ensures SumSlots(s + {t}) == SumSlots(s) + t.slots
  {
    SumSlotsSplit(s + {t}, t);
    assert s + {t} - {t} == s;
  }

  lemma {:induction false} SumSlotsWithin(s: set<Tx>, r: set<Tx>)
    requires s <= r
    ensures SumSlots(s) <= SumSlots(r)
    decreases |s|
  {
    if s != {} {
      var t :| t in s;
      SumSlotsWithin(s - {t}, r - {t});
      SumSlotsSplit(s, t);
      SumSlotsSplit(r, t);
    }
  }

  lemma {:induction false} SumSlotsWithout(s: set<Tx>, r: set<Tx>)
    requires r <= s
    ensures SumSlots(s - r) == SumSlots(s) - SumSlots(r)
    decreases |r|
  {
    if r == {} {
      assert s - r == s;
    } else {
      var t :| t in r;
      SumSlotsWithout(s, r - {t});
      SumSlotsSplit(r, t);
      SumSlotsSplit(s - (r - {t}), t);
      assert s - (r - {t}) - {t} == s - r;
    }
  }

  class TxLookup {
    var locals: set<Tx>
    var remotes: set<Tx>
    var slots: int

    ghost predicate Valid()
      reads this
    {
      locals !! remotes && slots == SumSlots(Known())
    }

    function Known(): set<Tx>
      reads this
    {
      locals + remotes
    }

    constructor ()
      ensures Valid() && Known() == {} && remotes == {}
    {
      locals, remotes, slots := {}, {}, 0;
    }

    /** The lookup stays sound exactly if the transaction is new; a known one would be counted
        twice, and one that uses no slots could still end up on both sides. */
    method Add(tx: Tx, local: bool)
      modifies this
      ensures Known() == old(Known()) + {tx} && slots == old(slots) + tx.slots
      ensures remotes == if local then old(remotes) else old(remotes) + {tx}
      ensures locals == if local then old(locals) + {tx} else old(locals)
      ensures old(Valid()) ==>
                (Valid() <==> tx !in old(Known()) || (tx.slots == 0 && tx !in if local then old(remotes) else old(locals)))
    {
      if tx !in Known() {
        SumSlotsAdd(Known(), tx);
      } else {
        assert Known() + {tx} == Known();
      }
      slots := slots + tx.slots;
      if local {
        locals := locals + {tx};
      } else {
        remotes := remotes + {tx};
      }
      assert Known() == old(Known()) + {tx};
    }

    /** Reports whether there was anything to remove. */
    method Remove(tx: Tx) returns (found: bool)
      requires Valid()
      modifies this
      ensures Valid() && Known() == old(Known()) - {tx} && remotes == old(remotes) - {tx}
      ensures found <==> tx in old(Known())
    {
      if tx !in locals && tx !in remotes {
        return false;
      }
      SumSlotsSplit(Known(), tx);
      slots := slots - tx.slots;
      locals, remotes := locals - {tx}, remotes - {tx};
      assert Known() == old(Known()) - {tx};
      return true;
    }

    /** Moves the transactions of the given accounts to the local ones. */
    method RemoteToLocals(accounts: set<Address>) returns (migrated: nat)
      requires Valid()
      modifies this
      ensures Valid() && Known() == old(Known())
      ensures remotes == set t | t in old(remotes) && t.sender !in accounts
      ensures migrated == |old(remotes)| - |remotes|
    {
      migrated := 0;
      var todo := remotes;
      while todo != {}
        invariant todo <= remotes <= old(remotes) && locals !! remotes && Known() == old(Known())
        invariant slots == old(slots)
        invariant forall t :: t in old(remotes) && t !in todo ==> (t in remotes <==> t.sender !in accounts)
        invariant migrated == |old(remotes)| - |remotes|
        decreases todo
      {
        var t :| t in todo;
        todo := todo - {t};
        if t.sender in accounts {
          locals, remotes := locals + {t}, remotes - {t};
          assert Known() == old(Known());
          migrated := migrated + 1;
        }
      }
    }
  }
}
