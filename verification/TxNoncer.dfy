/** txNoncer of core/tx_noncer.go: virtual account nonces over a fixed state. */
module TxNoncers {
  import opened Transactions

  class TxNoncer {
    const fallback: Address -> nat
    var nonces: map<Address, nat>

    /** The nonce the pool sees for an account. */
    function Virtual(addr: Address): nat
      reads this
    {
      if addr in nonces then nonces[addr] else fallback(addr)
    }

    constructor (fallback: Address -> nat)
      ensures this.fallback == fallback && forall a :: Virtual(a) == fallback(a)
    {
      this.fallback := fallback;
      nonces := map[];
    }

    /** Caches the fallback; no virtual nonce changes. */
    method Get(addr: Address) returns (nonce: nat)
      modifies this
      ensures nonce == Virtual(addr) && forall a :: Virtual(a) == old(Virtual(a))
    {
      if addr !in nonces {
        nonces := nonces[addr := fallback(addr)];
      }
      nonce := nonces[addr];
    }

    method Set(addr: Address, nonce: nat)
      modifies this
      ensures forall a :: Virtual(a) == if a == addr then nonce else old(Virtual(a))
    {
      nonces := nonces[addr := nonce];
    }

    method SetIfLower(addr: Address, nonce: nat)
      modifies this
      ensures forall a :: Virtual(a) == if a == addr && nonce < old(Virtual(addr)) then nonce else old(Virtual(a))
    {
      if addr !in nonces {
        nonces := nonces[addr := fallback(addr)];
      }
      if nonces[addr] <= nonce {
        return;
      }
      nonces := nonces[addr := nonce];
    }
  }
}
