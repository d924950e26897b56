/** How `reset` of core/tx_pool.go finds the transactions to add again: it walks back from the
    old and from the new head to their last common block. */
module HeadWalks {
  import opened Transactions
  import opened Headers

  /** What each block contains. */
  type Bodies = Header -> seq<Tx>

  /** Number `f` is that of the last common block of the two branches. */
  ghost predicate Forks(a: Header, b: Header, f: nat) {
    && f <= Number(a) && f <= Number(b) && Ancestor(a, f) == Ancestor(b, f)
    && forall k: nat :: f < k <= Number(a) && k <= Number(b) ==> Ancestor(a, k) != Ancestor(b, k)
  }

  /** The ancestors of `h` are stored down to number `n`. */
  ghost predicate Stored(blocks: set<Header>, h: Header, n: nat) {
    forall k: nat :: n <= k <= Number(h) ==> Ancestor(h, k) in blocks
  }

  /** The two branches meet in a stored block, and all blocks above it are stored. */
  ghost predicate Meets(blocks: set<Header>, a: Header, b: Header, f: nat) {
    Forks(a, b, f) && Stored(blocks, a, f) && Stored(blocks, b, f)
  }

  /** The transactions of `h` and its ancestors above number `n`, from the head down. */
  function Gathered(bodies: Bodies, h: Header, n: nat): seq<Tx> {
    if Number(h) <= n then [] else bodies(h) + Gathered(bodies, h.parent, n)
  }

  /** types.TxDifference: what is in `a` and not in `b`, in order. */
  function Difference(a: seq<Tx>, b: seq<Tx>): seq<Tx> {
    if a == [] then []
    else Difference(a[..|a| - 1], b) + if a[|a| - 1] in b then [] else [a[|a| - 1]]
  }

  lemma {:induction false} DifferenceHas(a: seq<Tx>, b: seq<Tx>, t: Tx)
    ensures t in Difference(a, b) <==> t in a && t !in b
    decreases |a|
  {
    if a != [] {
      DifferenceHas(a[..|a| - 1], b, t);
      assert a == a[..|a| - 1] + [a[|a| - 1]];
    }
  }

  lemma {:induction false} GatheredFrom(bodies: Bodies, h: Header, n: nat, t: Tx) returns (k: nat)
    requires t in Gathered(bodies, h, n)
    ensures n < k <= Number(h) && t in bodies(Ancestor(h, k))
    decreases h
  {
    if t in bodies(h) {
      k := Number(h);
    } else {
      k := GatheredFrom(bodies, h.parent, n, t);
    }
  }

  lemma {:induction false} GatheredAt(bodies: Bodies, h: Header, n: nat, t: Tx, k: nat)
    requires n < k <= Number(h) && t in bodies(Ancestor(h, k))
    ensures t in Gathered(bodies, h, n)
    decreases h
  {
    if k < Number(h) {
      GatheredAt(bodies, h.parent, n, t, k);
    }
  }

  /** What is added again: exactly what a block of the old branch holds and none of the new one. */
  lemma AddedAgain(bodies: Bodies, a: Header, b: Header, f: nat, t: Tx)
    ensures t in Difference(Gathered(bodies, a, f), Gathered(bodies, b, f)) <==>
      && (exists k: nat :: f < k <= Number(a) && t in bodies(Ancestor(a, k)))
      && (forall k: nat :: f < k <= Number(b) ==> t !in bodies(Ancestor(b, k)))
  {
    hide Gathered, Difference;
    DifferenceHas(Gathered(bodies, a, f), Gathered(bodies, b, f), t);
    if k: nat :| f < k <= Number(a) && t in bodies(Ancestor(a, k)) {
      GatheredAt(bodies, a, f, t, k);
    }
    if k: nat :| f < k <= Number(b) && t in bodies(Ancestor(b, k)) {
      GatheredAt(bodies, b, f, t, k);
    }
    if t in Gathered(bodies, a, f) {
      var k := GatheredFrom(bodies, a, f, t);
    }
    if t in Gathered(bodies, b, f) {
      var k := GatheredFrom(bodies, b, f, t);
    }
  }

  lemma {:induction false} GatheredNext(bodies: Bodies, h: Header, n: nat)
    requires 0 < n <= Number(h)
    ensures Gathered(bodies, h, n - 1) == Gathered(bodies, h, n) + bodies(Ancestor(h, n))
    decreases h
  {
    if n < Number(h) {
      GatheredNext(bodies, h.parent, n);
    }
  }

  /** Branches that differ at a number differ at all higher ones. */
  lemma StayApart(a: Header, b: Header, n: nat, k: nat)
    requires n <= k <= Number(a) && k <= Number(b) && Ancestor(a, n) != Ancestor(b, n)
    ensures Ancestor(a, k) != Ancestor(b, k)
  {
    AncestorOfAncestor(a, k, n);
    AncestorOfAncestor(b, k, n);
  }

  /** What the walk knows: `h`, an ancestor of `head`, has been reached, and what lies above it has
      been gathered. */
  ghost predicate Reached(blocks: set<Header>, bodies: Bodies, head: Header, h: Header, gathered: seq<Tx>) {
    Descends(head, h) && Stored(blocks, head, Number(h)) && gathered == Gathered(bodies, head, Number(h))
  }

  lemma ReachedNext(blocks: set<Header>, bodies: Bodies, head: Header, h: Header, gathered: seq<Tx>)
    requires Reached(blocks, bodies, head, h, gathered) && h.Child?
    ensures h.parent in blocks ==> Reached(blocks, bodies, head, h.parent, gathered + bodies(h))
    ensures h.parent !in blocks ==> forall n: nat :: n < Number(h) ==> !Stored(blocks, head, n)
  {
    AncestorOfAncestor(head, Number(h), Number(h) - 1);
    GatheredNext(bodies, head, Number(h));
    assert Ancestor(head, Number(h) - 1) == h.parent;
  }

  /** The loop that steps back on one branch until it is no higher than `n`. */
  method StepDown(blocks: set<Header>, bodies: Bodies, head: Header, n: nat) returns (h: Option<Header>, gathered: seq<Tx>)
    requires head in blocks
    ensures h.Some? ==>
              && Reached(blocks, bodies, head, h.value, gathered)
              && Number(h.value) == if Number(head) < n then Number(head) else n
    ensures h.None? ==> forall k: nat :: k <= n ==> !Stored(blocks, head, k)
  {
    hide Stored, Gathered;
    StoredHere(blocks, bodies, head);
    var at := head;
    gathered := [];
    while Number(at) > n
      invariant Reached(blocks, bodies, head, at, gathered) && (Number(at) >= n || at == head)
      decreases Number(at)
    {
      ReachedNext(blocks, bodies, head, at, gathered);
      gathered := gathered + bodies(at);
      if at.parent !in blocks {
        return None, gathered;
      }
      at := at.parent;
    }
    h := Some(at);
  }

  lemma StoredHere(blocks: set<Header>, bodies: Bodies, head: Header)
    requires head in blocks
    ensures Reached(blocks, bodies, head, head, [])
  {
  }

  /** The three loops of `reset`. They succeed exactly if the branches meet in a stored block; then
      the transactions of the old branch above it are returned that the new branch lacks. */
  method Walk(blocks: set<Header>, bodies: Bodies, oldHead: Header, newHead: Header) returns (reinject: Option<seq<Tx>>)
    requires oldHead in blocks && newHead in blocks
    ensures reinject.Some? <==> exists f: nat :: Meets(blocks, oldHead, newHead, f)
    ensures forall f: nat :: Meets(blocks, oldHead, newHead, f) ==>
              reinject == Some(Difference(Gathered(bodies, oldHead, f), Gathered(bodies, newHead, f)))
  {
    hide Stored, Gathered, Difference, Forks;
    ForksBelow(oldHead, newHead);
    var rem, discarded := StepDown(blocks, bodies, oldHead, Number(newHead));
    if rem.None? {
      return None;
    }
    var add, included := StepDown(blocks, bodies, newHead, Number(rem.value));
    if add.None? {
      return None;
    }
    reinject := Meet(blocks, bodies, oldHead, newHead, rem.value, add.value, discarded, included);
  }

  lemma ForksBelow(a: Header, b: Header)
    ensures forall f: nat :: Forks(a, b, f) ==> f <= Number(a) && f <= Number(b)
  {
  }

  /** The last loop: both branches step back together. */
  method Meet(blocks: set<Header>, bodies: Bodies, oldHead: Header, newHead: Header, rem0: Header, add0: Header,
              discarded0: seq<Tx>, included0: seq<Tx>) returns (reinject: Option<seq<Tx>>)
    requires Reached(blocks, bodies, oldHead, rem0, discarded0) && Reached(blocks, bodies, newHead, add0, included0)
    requires Number(rem0) == Number(add0) && (rem0 == oldHead || add0 == newHead)
    ensures reinject.Some? <==> exists f: nat :: Meets(blocks, oldHead, newHead, f)
    ensures forall f: nat :: Meets(blocks, oldHead, newHead, f) ==>
              reinject == Some(Difference(Gathered(bodies, oldHead, f), Gathered(bodies, newHead, f)))
  {
    hide Stored, Gathered, Difference, Forks, Reached;
    var rem, add, discarded, included := rem0, add0, discarded0, included0;
    OnlyBelow(oldHead, newHead, rem, add);
    while rem != add
      invariant Reached(blocks, bodies, oldHead, rem, discarded) && Reached(blocks, bodies, newHead, add, included)
      invariant Number(rem) == Number(add) && NoneAbove(oldHead, newHead, Number(rem))
      decreases Number(rem)
    {
      Differ(blocks, bodies, oldHead, newHead, rem, add, discarded, included);
      if rem.Genesis? {
        return None;
      }
      ReachedNext(blocks, bodies, oldHead, rem, discarded);
      ReachedNext(blocks, bodies, newHead, add, included);
      discarded := discarded + bodies(rem);
      if rem.parent !in blocks {
        return None;
      }
      included := included + bodies(add);
      if add.parent !in blocks {
        return None;
      }
      rem, add := rem.parent, add.parent;
    }
    Met(blocks, bodies, oldHead, newHead, rem, discarded, included);
    var keep := TxDifference(discarded, included);
    reinject := Some(keep);
  }

  /** Above number `n` the branches have no block in common. */
  ghost predicate NoneAbove(a: Header, b: Header, n: nat) {
    forall k: nat :: n < k <= Number(a) && k <= Number(b) ==> Ancestor(a, k) != Ancestor(b, k)
  }

  lemma OnlyBelow(a: Header, b: Header, x: Header, y: Header)
    requires Number(x) == Number(y) && (x == a || y == b)
    ensures NoneAbove(a, b, Number(x))
  {
  }

  lemma Differ(blocks: set<Header>, bodies: Bodies, a: Header, b: Header, x: Header, y: Header, xs: seq<Tx>, ys: seq<Tx>)
    requires Reached(blocks, bodies, a, x, xs) && Reached(blocks, bodies, b, y, ys)
    requires Number(x) == Number(y) && x != y && NoneAbove(a, b, Number(x))
    ensures forall f: nat :: Forks(a, b, f) ==> f < Number(x)
    ensures x.Child? <==> y.Child?
    ensures x.Child? ==> NoneAbove(a, b, Number(x) - 1)
  {
    hide Stored, Gathered;
    forall k: nat | Number(x) <= k <= Number(a) && k <= Number(b) ensures Ancestor(a, k) != Ancestor(b, k) {
      StayApart(a, b, Number(x), k);
    }
  }

  lemma Met(blocks: set<Header>, bodies: Bodies, a: Header, b: Header, x: Header, xs: seq<Tx>, ys: seq<Tx>)
    requires Reached(blocks, bodies, a, x, xs) && Reached(blocks, bodies, b, x, ys) && NoneAbove(a, b, Number(x))
    ensures Meets(blocks, a, b, Number(x)) && xs == Gathered(bodies, a, Number(x)) && ys == Gathered(bodies, b, Number(x))
    ensures forall f: nat :: Meets(blocks, a, b, f) ==> f == Number(x)
  {
  }

  /** types.TxDifference */
  method TxDifference(a: seq<Tx>, b: seq<Tx>) returns (keep: seq<Tx>)
    ensures keep == Difference(a, b)
  {
    var remove := set t | t in b;
    keep := [];
    for i := 0 to |a|
      invariant keep == Difference(a[..i], b)
    {
      assert a[..i + 1][..i] == a[..i];
      if a[i] !in remove {
        keep := keep + [a[i]];
      }
    }
    assert a[..|a|] == a;
  }

  const MAX_DEPTH: nat := 64

  /** The branches are not compared: there was no head, the new head continues the old one, or the
      heights differ too much. */
  ghost predicate Skipped(oldHead: Option<Header>, newHead: Header) {
    || oldHead.None?
    || (newHead.Child? && newHead.parent == oldHead.value)
    || Number(oldHead.value) - Number(newHead) > 64 || Number(newHead) - Number(oldHead.value) > 64
  }

  /** The first part of `reset`: the transactions to add again, or none at all if the pool cannot
      follow the change. */
  method Abandoned(blocks: set<Header>, bodies: Bodies, oldHead: Option<Header>, newHead: Header) returns (reinject: Option<seq<Tx>>)
    requires newHead in blocks
    ensures Skipped(oldHead, newHead) ==> reinject == Some([])
    ensures !Skipped(oldHead, newHead) && oldHead.value !in blocks ==>
              reinject == if Number(newHead) < Number(oldHead.value) then Some([]) else None
    ensures !Skipped(oldHead, newHead) && oldHead.value in blocks ==>
              && (reinject.Some? <==> exists f: nat :: Meets(blocks, oldHead.value, newHead, f))
              && forall f: nat :: Meets(blocks, oldHead.value, newHead, f) ==>
                   reinject == Some(Difference(Gathered(bodies, oldHead.value, f), Gathered(bodies, newHead, f)))
  {
    hide Meets, Gathered, Difference;
    if oldHead.None? || (newHead.Child? && newHead.parent == oldHead.value) {
      return Some([]);
    }
    var oldNum, newNum := Number(oldHead.value), Number(newHead);
    if (if oldNum < newNum then newNum - oldNum else oldNum - newNum) > MAX_DEPTH {
      return Some([]);
    }
    if oldHead.value !in blocks {
      return if newNum >= oldNum then None else Some([]);
    }
    reinject := Walk(blocks, bodies, oldHead.value, newHead);
  }

  /** In a chain with one genesis block any two stored blocks meet. */
  lemma {:induction false} RootedMeet(blocks: set<Header>, genesis: Header, a: Header, b: Header, n: nat) returns (f: nat)
    requires Rooted(blocks, genesis) && a in blocks && b in blocks && n <= Number(a) && n <= Number(b)
    requires forall k: nat :: n < k <= Number(a) && k <= Number(b) ==> Ancestor(a, k) != Ancestor(b, k)
    ensures Meets(blocks, a, b, f)
    decreases n
  {
    AncestorStored(blocks, genesis, a, n);
    AncestorStored(blocks, genesis, b, n);
    if Ancestor(a, n) == Ancestor(b, n) {
      f := n;
      forall k: nat | f <= k <= Number(a) ensures Ancestor(a, k) in blocks {
        AncestorStored(blocks, genesis, a, k);
      }
      forall k: nat | f <= k <= Number(b) ensures Ancestor(b, k) in blocks {
        AncestorStored(blocks, genesis, b, k);
      }
    } else {
      f := RootedMeet(blocks, genesis, a, b, n - 1);
    }
  }
}
