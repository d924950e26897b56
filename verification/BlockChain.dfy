/** The canonical chain of core/blockchain.go: the number index and the transaction lookup
    under adoption of blocks and reorganisation. */
module BlockChains {
  import opened Transactions
  import opened Headers

  type TxHash = nat
  type TxIndex = map<TxHash, nat>

  /** The transactions of a block; a block's hash determines its body. */
  type Bodies = Header -> seq<TxHash>

  /** No transaction is in two blocks of the branch that ends in `h`. */
  ghost predicate NoRepeat(txs: Bodies, h: Header) {
    forall m: nat, n: nat, t :: m < n <= Number(h) && t in txs(Ancestor(h, n)) ==> t !in txs(Ancestor(h, m))
  }

  /** The lookup maps exactly the transactions of the branch of `h` to their block numbers. */
  ghost predicate Indexes(lookup: TxIndex, txs: Bodies, h: Header) {
    && (forall n: nat, t :: n <= Number(h) && t in txs(Ancestor(h, n)) ==> t in lookup && lookup[t] == n)
    && (forall t :: t in lookup ==> lookup[t] <= Number(h) && t in txs(Ancestor(h, lookup[t])))
  }

  /** `next` is `lookup` with the transactions of the blocks from `lo + 1` to `hi` on the
      branch of `h` entered. */
  ghost predicate Entered(lookup: TxIndex, next: TxIndex, txs: Bodies, h: Header, lo: nat, hi: nat)
    requires hi <= Number(h)
  {
    && (forall n: nat, t :: lo < n <= hi && t in txs(Ancestor(h, n)) ==> t in next && next[t] == n)
    && (forall t :: t in lookup ==> t in next)
    && (forall t :: t in next ==> (lo < next[t] <= hi && t in txs(Ancestor(h, next[t]))) || (t in lookup && next[t] == lookup[t]))
  }

  /** The index agrees with `index` but for the numbers from `lo + 1` to `hi`, where it has
      the ancestors of `h`. */
  ghost predicate Overwritten(index: NumberIndex, next: NumberIndex, h: Header, lo: nat, hi: nat)
    requires hi <= Number(h)
  {
    && (forall n: nat :: lo < n <= hi ==> n in next && next[n] == Ancestor(h, n))
    && (forall n: nat :: !(lo < n <= hi) ==> (n in next <==> n in index) && (n in index ==> next[n] == index[n]))
  }

  /** The last common block of two branches has number `n`. */
  ghost predicate ForksAt(a: Header, b: Header, n: nat) {
    && n <= Number(a) && n <= Number(b) && Ancestor(a, n) == Ancestor(b, n)
    && (n < Number(a) && n < Number(b) ==> Ancestor(a, n + 1) != Ancestor(b, n + 1))
  }

  /** The blocks of the branch of `h` above number `n`, the newest first. */
  ghost predicate IsBranch(chain: seq<Header>, h: Header, n: nat)
    requires n <= Number(h)
  {
    |chain| == Number(h) - n && forall i :: 0 <= i < |chain| ==> chain[i] == Ancestor(h, Number(h) - i)
  }

  /** The transactions in `s` are those of the branch of `h` from `lo + 1` to `hi`. */
  ghost predicate Gathers(s: seq<TxHash>, txs: Bodies, h: Header, lo: nat, hi: nat)
    requires hi <= Number(h)
  {
    && (forall n: nat, t :: lo < n <= hi && t in txs(Ancestor(h, n)) ==> t in s)
    && (forall t :: t in s ==> exists n: nat :: lo < n <= hi && t in txs(Ancestor(h, n)))
  }

  /** Adopting `block` in place of the head leaves entries above it in the index. */
  ghost predicate Stranded(block: Header, head: Header) {
    Number(block) < Number(head) && (block.Genesis? || Descends(head, block.parent))
  }

  lemma ParentStored(blocks: set<Header>, genesis: Header, b: Header)
    requires Rooted(blocks, genesis)
    ensures genesis.Genesis? && (b in blocks && b.Genesis? ==> b == genesis) && (b in blocks && b.Child? ==> b.parent in blocks)
  {
  }

  /** Two different blocks of the same number, one of them stored: if a parent is missing, the
      other branch is not rooted in the stored blocks. */
  lemma Unrooted(blocks: set<Header>, genesis: Header, newBlock: Header, x: Header, y: Header)
    requires Rooted(blocks, genesis) && x in blocks && x != y && Number(x) == Number(y) && Descends(newBlock, y)
    requires y == newBlock || (newBlock.Child? && newBlock.parent in blocks && y in blocks)
    ensures x.Child? && x.parent in blocks && y.Child? && y.parent in blocks <==>
            newBlock == genesis || (newBlock.Child? && newBlock.parent in blocks)
  {
    if newBlock.Child? && newBlock.parent in blocks && y.Child? {
      AncestorStored(blocks, genesis, newBlock.parent, 0);
    }
  }

  lemma NoBranch(h: Header)
    ensures IsBranch([], h, Number(h)) && Descends(h, h)
  {
  }

  lemma BranchStep(chain: seq<Header>, h: Header, a: Header)
    requires Descends(h, a) && Number(a) > 0 && IsBranch(chain, h, Number(a))
    ensures a.Child? && IsBranch(chain + [a], h, Number(a) - 1) && Descends(h, a.parent)
  {
    hide Ancestor, Number, IsBranch;
    ParentIs(a);
    AncestorOfAncestor(h, Number(a), Number(a) - 1);
    BranchGrows(chain, h, Number(a));
  }

  lemma BranchGrows(chain: seq<Header>, h: Header, n: nat)
    requires 0 < n <= Number(h) && IsBranch(chain, h, n)
    ensures IsBranch(chain + [Ancestor(h, n)], h, n - 1)
  {
    hide Ancestor, Number;
    var next := chain + [Ancestor(h, n)];
    forall i | 0 <= i < |next| ensures next[i] == Ancestor(h, Number(h) - i) {
      if i < |chain| {
        assert next[i] == chain[i];
      }
    }
  }

  lemma ParentIs(a: Header)
    requires Number(a) > 0
    ensures a.Child? && Number(a.parent) == Number(a) - 1 && Ancestor(a, Number(a) - 1) == a.parent
  {
  }

  // ---- The transaction lookup ----

  lemma EnteredNone(lookup: TxIndex, txs: Bodies, h: Header, n: nat)
    requires n <= Number(h)
    ensures Entered(lookup, lookup, txs, h, n, n)
  {
  }

  lemma EnteredMore(lookup: TxIndex, next: TxIndex, after: TxIndex, txs: Bodies, h: Header, lo: nat, hi: nat)
    requires lo <= hi < Number(h) && NoRepeat(txs, h) && Entered(lookup, next, txs, h, lo, hi)
    requires var b := Ancestor(h, hi + 1);
      && (forall t :: t in after <==> t in next || t in txs(b))
      && (forall t :: t in after ==> after[t] == if t in txs(b) then hi + 1 else next[t])
    ensures Entered(lookup, after, txs, h, lo, hi + 1)
  {
    hide Ancestor, Number;
  }

  lemma GathersMore(s: seq<TxHash>, txs: Bodies, h: Header, lo: nat, hi: nat)
    requires lo <= hi < Number(h) && Gathers(s, txs, h, lo, hi)
    ensures Gathers(s + txs(Ancestor(h, hi + 1)), txs, h, lo, hi + 1)
  {
    var more := s + txs(Ancestor(h, hi + 1));
    forall t | t in more ensures exists n: nat :: lo < n <= hi + 1 && t in txs(Ancestor(h, n)) {
      if t in s {
        var n: nat :| lo < n <= hi && t in txs(Ancestor(h, n));
      }
    }
  }

  lemma GathersBelow(s: seq<TxHash>, txs: Bodies, h: Header, lo: nat)
    requires 0 < lo <= Number(h) && Gathers(s, txs, h, lo, Number(h))
    ensures Gathers(s + txs(Ancestor(h, lo)), txs, h, lo - 1, Number(h))
  {
    var more := s + txs(Ancestor(h, lo));
    forall t | t in more ensures exists n: nat :: lo - 1 < n <= Number(h) && t in txs(Ancestor(h, n)) {
      if t in s {
        var n: nat :| lo < n <= Number(h) && t in txs(Ancestor(h, n));
      }
    }
  }

  /** Entering the new branch up to `hi`, deleting what was only on the old branch and then
      entering the new head gives exactly the lookup of the new branch. */
  lemma LookupExact(l0: TxIndex, l1: TxIndex, l2: TxIndex, l3: TxIndex, txs: Bodies, head: Header, block: Header,
                    fork: nat, hi: nat, deleted: seq<TxHash>, added: seq<TxHash>)
    requires Indexes(l0, txs, head) && ForksAt(head, block, fork) && NoRepeat(txs, block)
    requires hi == (if fork < Number(block) then Number(block) - 1 else fork) && Entered(l0, l1, txs, block, fork, hi)
    requires Gathers(deleted, txs, head, fork, Number(head)) && Gathers(added, txs, block, fork, hi)
    requires forall t :: t in l2 <==> t in l1 && !(t in deleted && t !in added)
    requires forall t :: t in l2 ==> l2[t] == l1[t]
    requires forall t :: t in l3 <==> t in l2 || t in txs(block)
    requires forall t :: t in l3 ==> l3[t] == if t in txs(block) then Number(block) else l2[t]
    ensures Indexes(l3, txs, block)
  {
    hide Ancestor, Number, Entered, Gathers, NoRepeat, Indexes;
    BlockItself(block);
    forall n: nat, t | n <= Number(block) && t in txs(Ancestor(block, n)) ensures t in l3 && l3[t] == n {
      LookupFinds(l0, l1, l2, txs, head, block, fork, hi, deleted, added, n, t);
    }
    forall t | t in l3 && t !in txs(block) ensures l3[t] <= Number(block) && t in txs(Ancestor(block, l3[t])) {
      LookupHolds(l0, l1, l2, txs, head, block, fork, hi, deleted, added, t);
    }
    IndexesBy(l3, txs, block);
  }

  lemma IndexesBy(lookup: TxIndex, txs: Bodies, h: Header)
    requires forall n: nat, t :: n <= Number(h) && t in txs(Ancestor(h, n)) ==> t in lookup && lookup[t] == n
    requires forall t :: t in lookup ==> lookup[t] <= Number(h) && t in txs(Ancestor(h, lookup[t]))
    ensures Indexes(lookup, txs, h)
  {
    hide Ancestor, Number;
  }

  lemma IndexesAt(lookup: TxIndex, txs: Bodies, h: Header, n: nat, t: TxHash)
    requires Indexes(lookup, txs, h)
    ensures n <= Number(h) && t in txs(Ancestor(h, n)) ==> t in lookup && lookup[t] == n
    ensures t in lookup ==> lookup[t] <= Number(h) && t in txs(Ancestor(h, lookup[t]))
  {
    hide Ancestor, Number;
  }

  lemma BlockItself(block: Header)
    ensures Ancestor(block, Number(block)) == block
  {
  }

  lemma LookupFinds(l0: TxIndex, l1: TxIndex, l2: TxIndex, txs: Bodies, head: Header, block: Header,
                    fork: nat, hi: nat, deleted: seq<TxHash>, added: seq<TxHash>, n: nat, t: TxHash)
    requires Indexes(l0, txs, head) && ForksAt(head, block, fork) && NoRepeat(txs, block)
    requires hi == (if fork < Number(block) then Number(block) - 1 else fork) && Entered(l0, l1, txs, block, fork, hi)
    requires Gathers(deleted, txs, head, fork, Number(head)) && Gathers(added, txs, block, fork, hi)
    requires forall t :: t in l2 <==> t in l1 && !(t in deleted && t !in added)
    requires forall t :: t in l2 ==> l2[t] == l1[t]
    requires n <= Number(block) && t in txs(Ancestor(block, n))
    ensures n == Number(block) || (t in l2 && l2[t] == n && t !in txs(block))
  {
    hide Ancestor, Number;
    BlockItself(block);
    if n == Number(block) {
      return;
    }
    assert t !in txs(block);
    if n <= fork {
      AncestorOfAncestor(head, fork, n);
      AncestorOfAncestor(block, fork, n);
      assert l0[t] == n;
      assert l1[t] == n;
      assert t !in deleted;
    }
  }

  lemma LookupHolds(l0: TxIndex, l1: TxIndex, l2: TxIndex, txs: Bodies, head: Header, block: Header,
                    fork: nat, hi: nat, deleted: seq<TxHash>, added: seq<TxHash>, t: TxHash)
    requires Indexes(l0, txs, head) && ForksAt(head, block, fork)
    requires fork <= hi <= Number(block) && Entered(l0, l1, txs, block, fork, hi)
    requires Gathers(deleted, txs, head, fork, Number(head)) && Gathers(added, txs, block, fork, hi)
    requires forall t :: t in l2 <==> t in l1 && !(t in deleted && t !in added)
    requires forall t :: t in l2 ==> l2[t] == l1[t]
    requires t in l2
    ensures l2[t] <= Number(block) && t in txs(Ancestor(block, l2[t]))
  {
    if t in l0 && l1[t] == l0[t] {
      if l0[t] > fork {
        assert t in deleted;
        var m: nat :| fork < m <= hi && t in txs(Ancestor(block, m));
      } else {
        AncestorOfAncestor(head, fork, l0[t]);
        AncestorOfAncestor(block, fork, l0[t]);
      }
    }
  }

  // ---- The number index ----

  lemma OverwrittenNone(index: NumberIndex, h: Header, n: nat)
    requires n <= Number(h)
    ensures Overwritten(index, index, h, n, n)
  {
  }

  lemma OverwrittenMore(index: NumberIndex, next: NumberIndex, h: Header, lo: nat, hi: nat)
    requires lo <= hi < Number(h) && Overwritten(index, next, h, lo, hi)
    ensures Overwritten(index, next[hi + 1 := Ancestor(h, hi + 1)], h, lo, hi + 1)
  {
  }

  /** Exactly if the block is not stranded, the index is its path afterwards. */
  lemma IndexExact(i0: NumberIndex, i1: NumberIndex, i2: NumberIndex, head: Header, block: Header, fork: nat, hi: nat)
    requires IsPath(i0, head) && ForksAt(head, block, fork)
    requires hi == (if fork < Number(block) then Number(block) - 1 else fork) && Overwritten(i0, i1, block, fork, hi)
    requires var top := if hi > fork then hi else Number(head);
      forall n: nat :: (n in i2 <==> n in i1 && n <= top) && (n in i2 ==> i2[n] == i1[n])
    ensures IsPath(i2[Number(block) := block], block) <==> !Stranded(block, head)
  {
    var i3 := i2[Number(block) := block];
    StrandedAt(block, head, fork);
    if hi == fork && Number(block) < Number(head) {
      assert Number(head) in i3;
    } else {
      forall n: nat | n < Number(block) ensures n in i3 && i3[n] == Ancestor(block, n) {
        if n <= fork {
          AncestorOfAncestor(head, fork, n);
          AncestorOfAncestor(block, fork, n);
        }
      }
    }
  }

  lemma StrandedAt(block: Header, head: Header, fork: nat)
    requires ForksAt(head, block, fork)
    ensures Stranded(block, head) <==> Number(block) < Number(head) && Number(block) <= fork + 1
    ensures Number(block) <= fork + 1 ==> Number(block) <= Number(head) + 1
  {
    if block.Child? && Number(block) < Number(head) {
      var n := Number(block) - 1;
      if fork < n {
        AncestorOfAncestor(head, n, fork + 1);
        AncestorOfAncestor(block, n, fork + 1);
      } else {
        AncestorOfAncestor(head, fork, n);
        AncestorOfAncestor(block, fork, n);
      }
    }
  }

  class BlockChain {
    const genesis: Header
    const txs: Bodies
    var blocks: set<Header>
    var canonical: NumberIndex
    var lookup: TxIndex
    var current: Header

    ghost predicate Valid()
      reads this
    {
      Rooted(blocks, genesis) && current in blocks
    }

    constructor (genesis: Header, txs: Bodies)
      requires genesis.Genesis? && txs(genesis) == []
      ensures Valid() && IsPath(canonical, current) && Indexes(lookup, txs, current)
      ensures this.genesis == genesis && this.txs == txs
    {
      this.genesis, this.txs, current := genesis, txs, genesis;
      blocks, canonical, lookup := {genesis}, map[0 := genesis], map[];
    }

    /** Enters the transactions of a block into the lookup. */
    method IndexBlock(b: Header) returns (next: TxIndex)
      ensures forall t :: t in next <==> t in lookup || t in txs(b)
      ensures forall t :: t in next ==> next[t] == if t in txs(b) then Number(b) else lookup[t]
    {
      next := lookup;
      var body := txs(b);
      for i := 0 to |body|
        invariant forall t :: t in next <==> t in lookup || t in body[..i]
        invariant forall t :: t in next ==> next[t] == if t in body[..i] then Number(b) else lookup[t]
      {
        next := next[body[i] := Number(b)];
        assert body[..i + 1] == body[..i] + [body[i]];
      }
      assert body[..|body|] == body;
    }

    method WriteHeadBlock(b: Header)
      modifies this`canonical, this`lookup, this`current
      ensures canonical == old(canonical)[Number(b) := b] && current == b
      ensures forall t :: t in lookup <==> t in old(lookup) || t in txs(b)
      ensures forall t :: t in lookup ==> lookup[t] == if t in txs(b) then Number(b) else old(lookup)[t]
    {
      var next := IndexBlock(b);
      canonical := canonical[Number(b) := b];
      lookup := next;
      current := b;
    }

    /** The block with the given hash, unless it is missing. */
    function GetParent(b: Header): Option<Header>
      reads this`blocks
    {
      if b.Child? && b.parent in blocks then Some(b.parent) else None
    }

    /** Walks back to number `n`, unless a block on the way is missing. */
    method Descend(from: Header, n: nat) returns (end: Option<Header>, chain: seq<Header>)
      requires Valid() && n <= Number(from)
      ensures end == if n == Number(from) || GetParent(from).Some? then Some(Ancestor(from, n)) else None
      ensures end.Some? ==> IsBranch(chain, from, n) && (n < Number(from) ==> end.value in blocks)
    {
      hide Rooted;
      end, chain := Some(from), [];
      while end.Some? && Number(end.value) != n
        invariant end.None? ==> n < Number(from) && GetParent(from).None?
        invariant end.Some? ==> n <= Number(end.value) <= Number(from) && IsBranch(chain, from, Number(end.value))
        invariant end.Some? ==> end.value == Ancestor(from, Number(end.value)) && (end.value == from || GetParent(from).Some?)
        invariant end.Some? && end.value != from ==> end.value in blocks
        decreases if end.Some? then 1 + Number(end.value) else 0
      {
        var b := end.value;
        BranchStep(chain, from, b);
        ParentStored(blocks, genesis, b);
        chain := chain + [b];
        end := GetParent(b);
      }
    }

    /** The first part of `reorg`: walks both branches back to their last common block. */
    method FindFork(newBlock: Header) returns (found: bool, oldChain: seq<Header>, newChain: seq<Header>, ghost fork: nat)
      requires Valid()
      ensures found <==> newBlock == genesis || GetParent(newBlock).Some?
      ensures found ==> ForksAt(current, newBlock, fork) && IsBranch(oldChain, current, fork) && IsBranch(newChain, newBlock, fork)
    {
      hide Rooted, IsBranch;
      NoBranch(current);
      NoBranch(newBlock);
      ParentStored(blocks, genesis, current);
      var a, b := Some(current), Some(newBlock);
      oldChain, newChain, fork := [], [], 0;
      if Number(current) > Number(newBlock) {
        a, oldChain := Descend(current, Number(newBlock));
      } else {
        b, newChain := Descend(newBlock, Number(current));
      }
      if a.None? || b.None? {
        return false, [], [], 0;
      }
      var x, y := a.value, b.value;
      AncestorStored(blocks, genesis, current, Number(x));
      found, oldChain, newChain, fork := Meet(newBlock, x, y, oldChain, newChain);
    }

    /** The loop of `reorg` that walks both branches back, block by block. */
    method Meet(newBlock: Header, a0: Header, b0: Header, olds: seq<Header>, news: seq<Header>)
      returns (found: bool, oldChain: seq<Header>, newChain: seq<Header>, ghost fork: nat)
      requires Valid() && Number(a0) == Number(b0) && a0 in blocks && Descends(current, a0) && Descends(newBlock, b0)
      requires b0 == newBlock || (GetParent(newBlock).Some? && b0 in blocks)
      requires IsBranch(olds, current, Number(a0)) && IsBranch(news, newBlock, Number(a0))
      requires Number(a0) == Number(current) || Number(a0) == Number(newBlock)
      ensures found <==> newBlock == genesis || GetParent(newBlock).Some?
      ensures found ==> ForksAt(current, newBlock, fork) && IsBranch(oldChain, current, fork) && IsBranch(newChain, newBlock, fork)
    {
      hide Rooted, IsBranch;
      var x, y := a0, b0;
      oldChain, newChain, fork := olds, news, 0;
      while x != y
        invariant Number(x) == Number(y) && x in blocks && Descends(current, x) && Descends(newBlock, y)
        invariant y == newBlock || (GetParent(newBlock).Some? && y in blocks)
        invariant IsBranch(oldChain, current, Number(x)) && IsBranch(newChain, newBlock, Number(x))
        invariant Number(x) < Number(current) && Number(x) < Number(newBlock) ==>
                    Ancestor(current, Number(x) + 1) != Ancestor(newBlock, Number(x) + 1)
        decreases Number(x)
      {
        if Number(x) > 0 {
          BranchStep(oldChain, current, x);
          BranchStep(newChain, newBlock, y);
        }
        oldChain, newChain := oldChain + [x], newChain + [y];
        var a, b := GetParent(x), GetParent(y);
        Unrooted(blocks, genesis, newBlock, x, y);
        if a.None? || b.None? {
          return false, [], [], 0;
        }
        x, y := a.value, b.value;
      }
      ParentStored(blocks, genesis, newBlock);
      found, fork := true, Number(x);
    }

    /** All transactions of the abandoned blocks. */
    method GatherDeleted(oldChain: seq<Header>, ghost fork: nat) returns (deleted: seq<TxHash>)
      requires fork <= Number(current) && IsBranch(oldChain, current, fork)
      ensures Gathers(deleted, txs, current, fork, Number(current))
    {
      hide Gathers;
      deleted := [];
      GathersNone(txs, current, Number(current));
      for i := 0 to |oldChain|
        invariant Gathers(deleted, txs, current, Number(current) - i, Number(current))
      {
        GathersBelow(deleted, txs, current, Number(current) - i);
        deleted := deleted + txs(oldChain[i]);
      }
    }

    /** Writes the new branch, except its head, from the fork upwards. */
    method Replay(newChain: seq<Header>, ghost block: Header, ghost fork: nat) returns (added: seq<TxHash>)
      requires fork <= Number(block) && IsBranch(newChain, block, fork) && NoRepeat(txs, block)
      modifies this`canonical, this`lookup, this`current
      ensures var hi := Top(block, fork);
              && Overwritten(old(canonical), canonical, block, fork, hi)
              && Entered(old(lookup), lookup, txs, block, fork, hi) && Gathers(added, txs, block, fork, hi)
              && current == if hi > fork then Ancestor(block, hi) else old(current)
    {
      hide Gathers, Entered, NoRepeat, Overwritten, Ancestor;
      added := [];
      var i := |newChain| - 1;
      ghost var hi := fork;
      GathersNone(txs, block, fork);
      EnteredNone(lookup, txs, block, fork);
      OverwrittenNone(canonical, block, fork);
      while i >= 1
        invariant -1 <= i < |newChain| && fork <= hi <= Number(block)
        invariant if i < 0 then fork == hi == Number(block) else hi == Number(block) - i - 1
        invariant Overwritten(old(canonical), canonical, block, fork, hi)
        invariant Entered(old(lookup), lookup, txs, block, fork, hi) && Gathers(added, txs, block, fork, hi)
        invariant current == if hi > fork then Ancestor(block, hi) else old(current)
        decreases i
      {
        ghost var before := lookup;
        assert newChain[i] == Ancestor(block, hi + 1);
        OverwrittenMore(old(canonical), canonical, block, fork, hi);
        WriteHeadBlock(newChain[i]);
        EnteredMore(old(lookup), before, lookup, txs, block, fork, hi);
        GathersMore(added, txs, block, fork, hi);
        added := added + txs(newChain[i]);
        i, hi := i - 1, hi + 1;
      }
    }

    /** Deletes the lookup entries of transactions that are in `deleted` but not in `added`. */
    method Unindex(deleted: seq<TxHash>, added: seq<TxHash>)
      modifies this`lookup
      ensures forall t :: t in lookup <==> t in old(lookup) && !(t in deleted && t !in added)
      ensures forall t :: t in lookup ==> lookup[t] == old(lookup)[t]
    {
      for i := 0 to |deleted|
        invariant forall t :: t in lookup <==> t in old(lookup) && !(t in deleted[..i] && t !in added)
        invariant forall t :: t in lookup ==> lookup[t] == old(lookup)[t]
      {
        if deleted[i] !in added {
          lookup := lookup - {deleted[i]};
        }
        assert deleted[..i + 1] == deleted[..i] + [deleted[i]];
      }
      assert deleted[..|deleted|] == deleted;
    }

    /** Deletes the index entries from `n` on, up to the first gap. */
    method ClearAbove(n: nat)
      modifies this`canonical
      ensures forall k: nat :: k in canonical ==> k in old(canonical) && canonical[k] == old(canonical)[k]
      ensures forall k: nat :: k in old(canonical) && k < n ==> k in canonical
      ensures (forall k: nat, m: nat :: n <= k <= m && m in old(canonical) ==> k in old(canonical)) ==> forall k: nat :: k in canonical ==> k < n
    {
      var i := n;
      var index := canonical;
      ghost var rest := set k: nat | k in index && k >= n;
      while i in index
        invariant i >= n && forall k: nat :: k in canonical <==> k in index && !(n <= k < i)
        invariant forall k: nat :: k in canonical ==> canonical[k] == index[k]
        invariant forall k: nat :: k in rest <==> k in index && k >= i
        decreases rest
      {
        rest := rest - {i};
        canonical := canonical - {i};
        i := i + 1;
      }
    }

    /** reorg: switches the indexes to the branch of `block`, but for the block itself. On
        failure nothing has changed. */
    method Reorg(block: Header) returns (ok: bool, ghost steps: Steps)
      requires Valid() && NoRepeat(txs, block)
      modifies this`canonical, this`lookup, this`current
      ensures ok <==> block == genesis || GetParent(block).Some?
      ensures !ok ==> unchanged(this)
      ensures ok ==> Reorged(steps, txs, old(current), block, old(canonical), canonical, old(lookup), lookup)
    {
      hide Rooted, NoRepeat, Gathers, Entered, Overwritten, IsBranch, IsPath;
      steps := Steps(0, map[], map[], [], []);
      var oldChain, newChain;
      ghost var fork;
      ok, oldChain, newChain, fork := FindFork(block);
      if !ok {
        return;
      }
      var deleted := GatherDeleted(oldChain, fork);
      var added := Replay(newChain, block, fork);
      steps := Steps(fork, canonical, lookup, deleted, added);
      Unindex(deleted, added);
      ClearAbove(Number(current) + 1);
      if IsPath(old(canonical), old(current)) {
        Contiguous(old(canonical), old(current), steps.index, block, fork);
      }
    }

    /** writeKnownBlock: makes a block the head, reorganising first if it does not continue the
        old head. The lookup is then exactly that of the new branch, and so is the index,
        exactly if the block is not stranded. */
    method WriteKnownBlock(block: Header) returns (ok: bool)
      requires Valid() && NoRepeat(txs, block) && Indexes(lookup, txs, current)
      modifies this`canonical, this`lookup, this`current
      ensures ok <==> block == genesis || GetParent(block).Some?
      ensures !ok ==> unchanged(this)
      ensures ok ==> current == block && Indexes(lookup, txs, block)
      ensures ok && IsPath(old(canonical), old(current)) ==> (IsPath(canonical, block) <==> !Stranded(block, old(current)))
    {
      hide Rooted, NoRepeat, Gathers, Entered, Overwritten, IsBranch, IsPath, Indexes, Stranded;
      if !(block.Child? && block.parent == current) {
        ghost var steps;
        ok, steps := Reorg(block);
        if !ok {
          return;
        }
        ghost var l2, i2 := lookup, canonical;
        WriteHeadBlock(block);
        LookupExact(old(lookup), steps.entries, l2, lookup, txs, old(current), block, steps.fork, Top(block, steps.fork),
                    steps.deleted, steps.added);
        if IsPath(old(canonical), old(current)) {
          IndexExact(old(canonical), steps.index, i2, old(current), block, steps.fork, Top(block, steps.fork));
        }
      } else {
        ok := true;
        WriteHeadBlock(block);
        ExtendedLookup(old(lookup), lookup, txs, block);
        if IsPath(old(canonical), old(current)) {
          ExtendedIndex(old(canonical), block);
        }
      }
    }

    /** The fork choice of `writeBlockWithState`: stores the block and adopts it if it is heavier
        than the head; at equal weight the lower one wins, and at equal height a block to be
        preserved, or else a coin, decides. */
    method WriteBlock(block: Header, keepCurrent: bool, keepBlock: bool, coin: bool) returns (status: Option<bool>)
      requires Valid() && NoRepeat(txs, block) && Indexes(lookup, txs, current)
      modifies this
      ensures Valid() && Indexes(lookup, txs, current)
      ensures status.None? <==> old(GetParent(block)).None?
      ensures status.None? ==> unchanged(this)
      ensures status.Some? ==>
                && blocks == old(blocks) + {block}
                && status.value == Prevails(block, old(current), keepCurrent, keepBlock, coin)
                && current == (if status.value then block else old(current))
                && (!status.value ==> canonical == old(canonical))
      ensures status.Some? ==>
                var head := old(current);
                && (TotalDifficulty(block) > TotalDifficulty(head) ==> status.value)
                && (TotalDifficulty(block) < TotalDifficulty(head) ==> !status.value)
                && (TotalDifficulty(block) == TotalDifficulty(head) && Number(block) != Number(head) ==>
                      (status.value <==> Number(block) < Number(head)))
                && (TotalDifficulty(block) == TotalDifficulty(head) && Number(block) == Number(head) ==>
                      (status.value <==> !keepCurrent && (keepBlock || coin)))
      ensures status == Some(true) && IsPath(old(canonical), old(current)) ==> (IsPath(canonical, current) <==> !Stranded(block, old(current)))
    {
      hide Rooted, NoRepeat, IsPath, Indexes, Stranded;
      if GetParent(block).None? {
        return None;
      }
      StoredBlock(blocks, genesis, block);
      blocks := blocks + {block};
      var externTd, localTd := TotalDifficulty(block), TotalDifficulty(current);
      var reorg := externTd > localTd;
      if externTd == localTd {
        if Number(block) < Number(current) {
          reorg := true;
        } else if Number(block) == Number(current) {
          reorg := !keepCurrent && (keepBlock || coin);
        }
      }
      if reorg {
        var ok := WriteKnownBlock(block);
        return Some(true);
      }
      return Some(false);
    }

    ghost function Now(): Stage
      reads this
    {
      Stage(blocks, canonical, current)
    }

    /** Any run of block imports: the lookup always is exactly that of the head's branch. `stages` is
        the chain before, between and after the imports; a right index stays right exactly as long
        as no adopted block is stranded. Under an engine that gives every block difficulty 1 that
        never happens, and the head is a highest stored block. */
    method Import(imports: seq<Header>, choices: seq<Choice>) returns (ghost stages: seq<Stage>)
      requires Valid() && Indexes(lookup, txs, current) && |choices| == |imports| && forall b :: b in imports ==> NoRepeat(txs, b)
      modifies this
      ensures Valid() && Indexes(lookup, txs, current)
      ensures Staged(stages, imports, choices) && stages[0] == old(Now()) && stages[|imports|] == Now()
      ensures old(IsPath(canonical, current)) && (forall i :: 0 <= i < |imports| ==> Harmless(imports[i], choices[i], stages[i])) ==>
                IsPath(canonical, current)
      ensures old(IsPath(canonical, current) && UnitDifficulty(blocks) && Highest(blocks, current)) ==>
                (forall b :: b in imports && b.Child? ==> b.difficulty == 1) ==> IsPath(canonical, current) && Highest(blocks, current)
    {
      hide Rooted, NoRepeat, IsPath, Indexes, Stranded, UnitDifficulty, Highest, Prevails, Follows, Harmless;
      stages := [Now()];
      ghost var unit := IsPath(canonical, current) && UnitDifficulty(blocks) && Highest(blocks, current)
        && forall b :: b in imports && b.Child? ==> b.difficulty == 1;
      for i := 0 to |imports|
        invariant Valid() && Indexes(lookup, txs, current)
        invariant |stages| == i + 1 && stages[0] == old(Now()) && stages[i] == Now()
        invariant forall j :: 0 <= j < i ==> Follows(stages[j], imports[j], choices[j], stages[j + 1])
        invariant unit ==> IsPath(canonical, current) && UnitDifficulty(blocks) && Highest(blocks, current)
      {
        var block := imports[i];
        assert block in imports;
        if unit && block.Child? && block.parent in blocks {
          UnitPrevails(blocks, genesis, current, block, choices[i].keepCurrent, choices[i].keepBlock, choices[i].coin);
        }
        var status := WriteBlock(block, choices[i].keepCurrent, choices[i].keepBlock, choices[i].coin);
        FollowsIs(stages[i], block, choices[i], Now());
        stages := stages + [Now()];
      }
      if old(IsPath(canonical, current)) && forall i :: 0 <= i < |imports| ==> Harmless(imports[i], choices[i], stages[i]) {
        StaysCanonical(stages, imports, choices, |imports|);
      }
    }
  }

  // ---- Runs of imports ----

  /** What else decides about a block: whether the head or the block is to be preserved, and a coin. */
  datatype Choice = Choice(keepCurrent: bool, keepBlock: bool, coin: bool)

  datatype Stage = Stage(blocks: set<Header>, canonical: NumberIndex, current: Header)

  /** The block is stored and becomes the head. */
  ghost predicate Adopted(block: Header, c: Choice, s: Stage) {
    block.Child? && block.parent in s.blocks && Prevails(block, s.current, c.keepCurrent, c.keepBlock, c.coin)
  }

  ghost predicate Harmless(block: Header, c: Choice, s: Stage) {
    Adopted(block, c, s) ==> !Stranded(block, s.current)
  }

  /** What importing the block makes of the chain. */
  ghost predicate Follows(s: Stage, block: Header, c: Choice, t: Stage) {
    && t.blocks == (if block.Child? && block.parent in s.blocks then s.blocks + {block} else s.blocks)
    && t.current == (if Adopted(block, c, s) then block else s.current)
    && (IsPath(s.canonical, s.current) ==> (IsPath(t.canonical, t.current) <==> Harmless(block, c, s)))
  }

  lemma FollowsIs(s: Stage, block: Header, c: Choice, t: Stage)
    requires !(block.Child? && block.parent in s.blocks) ==> t == s
    requires block.Child? && block.parent in s.blocks ==>
      var prevails := Prevails(block, s.current, c.keepCurrent, c.keepBlock, c.coin);
      && t.blocks == s.blocks + {block} && t.current == (if prevails then block else s.current)
      && (!prevails ==> t.canonical == s.canonical)
      && (prevails && IsPath(s.canonical, s.current) ==> (IsPath(t.canonical, t.current) <==> !Stranded(block, s.current)))
    ensures Follows(s, block, c, t)
  {
    hide IsPath, Prevails, Stranded;
  }

  ghost predicate Staged(stages: seq<Stage>, imports: seq<Header>, choices: seq<Choice>)
    requires |choices| == |imports|
  {
    |stages| == |imports| + 1 && forall i :: 0 <= i < |imports| ==> Follows(stages[i], imports[i], choices[i], stages[i + 1])
  }

  lemma {:induction false} StaysCanonical(stages: seq<Stage>, imports: seq<Header>, choices: seq<Choice>, k: nat)
    requires |choices| == |imports| && Staged(stages, imports, choices) && k <= |imports|
    requires IsPath(stages[0].canonical, stages[0].current)
    requires forall i :: 0 <= i < k ==> Harmless(imports[i], choices[i], stages[i])
    ensures IsPath(stages[k].canonical, stages[k].current)
  {
    hide IsPath, Harmless;
    if k > 0 {
      StaysCanonical(stages, imports, choices, k - 1);
      assert Follows(stages[k - 1], imports[k - 1], choices[k - 1], stages[k]);
    }
  }

  ghost predicate UnitDifficulty(blocks: set<Header>) {
    forall b :: b in blocks && b.Child? ==> b.difficulty == 1
  }

  ghost predicate Highest(blocks: set<Header>, head: Header) {
    forall b :: b in blocks ==> Number(b) <= Number(head)
  }

  lemma {:induction false} UnitWeight(blocks: set<Header>, genesis: Header, b: Header)
    requires Rooted(blocks, genesis) && UnitDifficulty(blocks) && b in blocks
    ensures TotalDifficulty(b) == genesis.difficulty + Number(b)
    decreases b
  {
    if b.Child? {
      UnitWeight(blocks, genesis, b.parent);
    }
  }

  /** With unit difficulties only a block at least as high as the head prevails, so it is not
      stranded. */
  lemma UnitPrevails(blocks: set<Header>, genesis: Header, head: Header, block: Header, keepHead: bool, keepBlock: bool, coin: bool)
    requires Rooted(blocks, genesis) && UnitDifficulty(blocks) && Highest(blocks, head) && head in blocks
    requires block.Child? && block.difficulty == 1 && block.parent in blocks
    ensures UnitDifficulty(blocks + {block})
    ensures Prevails(block, head, keepHead, keepBlock, coin) ==> !Stranded(block, head) && Highest(blocks + {block}, block)
    ensures !Prevails(block, head, keepHead, keepBlock, coin) ==> Highest(blocks + {block}, head)
  {
    UnitWeight(blocks, genesis, block.parent);
    UnitWeight(blocks, genesis, head);
    assert TotalDifficulty(block) == TotalDifficulty(block.parent) + 1;
  }

  /** With other difficulties a lower block whose parent is canonical can prevail; it strands. */
  lemma HeavierBlockStrands(head: Header, block: Header, keepHead: bool, keepBlock: bool, coin: bool)
    requires head.Child? && head.parent.Child? && block.Child? && block.parent == head.parent.parent
    requires block.difficulty > head.parent.difficulty + head.difficulty
    ensures Prevails(block, head, keepHead, keepBlock, coin) && Stranded(block, head)
  {
    assert Ancestor(head.parent, Number(block.parent)) == block.parent;
  }

  /** Whether a stored block becomes the head. */
  ghost predicate Prevails(block: Header, head: Header, keepHead: bool, keepBlock: bool, coin: bool) {
    || TotalDifficulty(block) > TotalDifficulty(head)
    || (TotalDifficulty(block) == TotalDifficulty(head)
        && (Number(block) < Number(head) || (Number(block) == Number(head) && !keepHead && (keepBlock || coin))))
  }

  /** What `reorg` went through: the last common block, the index and the lookup with the new
      branch written, and the transactions of the old and of the new branch. */
  datatype Steps = Steps(fork: nat, index: NumberIndex, entries: TxIndex, deleted: seq<TxHash>, added: seq<TxHash>)

  /** The highest number `reorg` writes on the branch of `block`. */
  function Top(block: Header, fork: nat): nat {
    if fork < Number(block) then Number(block) - 1 else fork
  }

  ghost predicate Reorged(s: Steps, txs: Bodies, head: Header, block: Header,
                          index0: NumberIndex, index: NumberIndex, lookup0: TxIndex, lookup: TxIndex)
  {
    var hi := Top(block, s.fork);
    && ForksAt(head, block, s.fork) && Overwritten(index0, s.index, block, s.fork, hi)
    && Entered(lookup0, s.entries, txs, block, s.fork, hi)
    && Gathers(s.deleted, txs, head, s.fork, Number(head)) && Gathers(s.added, txs, block, s.fork, hi)
    && (forall t :: t in lookup <==> t in s.entries && !(t in s.deleted && t !in s.added))
    && (forall t :: t in lookup ==> lookup[t] == s.entries[t])
    && (IsPath(index0, head) ==>
          forall n: nat :: (n in index <==> n in s.index && n <= if hi > s.fork then hi else Number(head)) && (n in index ==> index[n] == s.index[n]))
  }

  lemma GathersNone(txs: Bodies, h: Header, n: nat)
    requires n <= Number(h)
    ensures Gathers([], txs, h, n, n)
  {
  }

  /** The rewritten index has no gaps, so clearing it from some number on clears all above. */
  lemma Contiguous(index0: NumberIndex, head: Header, index: NumberIndex, block: Header, fork: nat)
    requires IsPath(index0, head) && ForksAt(head, block, fork) && Overwritten(index0, index, block, fork, Top(block, fork))
    ensures forall k: nat, m: nat :: k <= m && m in index ==> k in index
  {
  }

  lemma ExtendedLookup(lookup0: TxIndex, lookup: TxIndex, txs: Bodies, block: Header)
    requires block.Child? && Indexes(lookup0, txs, block.parent) && NoRepeat(txs, block)
    requires forall t :: t in lookup <==> t in lookup0 || t in txs(block)
    requires forall t :: t in lookup ==> lookup[t] == if t in txs(block) then Number(block) else lookup0[t]
    ensures Indexes(lookup, txs, block)
  {
    hide Ancestor, Number, NoRepeat, Indexes;
    forall n: nat, t | n <= Number(block) && t in txs(Ancestor(block, n)) ensures t in lookup && lookup[t] == n {
      OnBranch(txs, block, n, t);
      IndexesAt(lookup0, txs, block.parent, n, t);
    }
    forall t | t in lookup ensures lookup[t] <= Number(block) && t in txs(Ancestor(block, lookup[t])) {
      OnBranch(txs, block, Number(block), t);
      if t !in txs(block) {
        IndexesAt(lookup0, txs, block.parent, 0, t);
        OnBranch(txs, block, lookup0[t], t);
      }
    }
    IndexesBy(lookup, txs, block);
  }

  lemma OnBranch(txs: Bodies, block: Header, n: nat, t: TxHash)
    requires block.Child? && NoRepeat(txs, block) && n <= Number(block)
    ensures Number(block) == Number(block.parent) + 1
    ensures n == Number(block) ==> Ancestor(block, n) == block
    ensures n < Number(block) ==> Ancestor(block, n) == Ancestor(block.parent, n)
    ensures n < Number(block) && t in txs(Ancestor(block, n)) ==> t !in txs(block)
  {
    assert Ancestor(block, Number(block)) == block;
  }

  lemma ExtendedIndex(index: NumberIndex, block: Header)
    requires block.Child? && IsPath(index, block.parent)
    ensures IsPath(index[Number(block) := block], block) && !Stranded(block, block.parent)
  {
  }

  lemma StoredBlock(blocks: set<Header>, genesis: Header, block: Header)
    requires Rooted(blocks, genesis) && block.Child? && block.parent in blocks
    ensures Rooted(blocks + {block}, genesis)
  {
  }
}
