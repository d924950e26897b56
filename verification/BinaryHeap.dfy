/** The slice-based binary min-heap of Go's container/heap, which the nonce index
    and the price index of the transaction pool are built on.

    The order is given by a rank: `rank(x) < rank(y)` is the `Less` of the source. */
module BinaryHeap {

  function Parent(i: nat): (p: nat)
    requires 0 < i
    ensures p < i
  {
    (i - 1) / 2
  }

  /** The edge from slot `i` to its parent is in order. */
  ghost predicate Ordered<T>(h: seq<T>, rank: T -> int, i: nat) {
    0 < i < |h| ==> rank(h[Parent(i)]) <= rank(h[i])
  }

  ghost predicate IsHeap<T>(h: seq<T>, rank: T -> int) {
    forall i: nat :: Ordered(h, rank, i)
  }

  /** Every edge is in order except those that touch slot `at`, and the children of
      `at` are no smaller than its parent: what holds while an element is being moved. */
  ghost predicate HeapAround<T>(h: seq<T>, rank: T -> int, at: nat) {
    && (forall i: nat :: i == at || (0 < i && Parent(i) == at) || Ordered(h, rank, i))
    && (forall i: nat :: 0 < at < |h| && 0 < i < |h| && Parent(i) == at ==> rank(h[Parent(at)]) <= rank(h[i]))
  }

  /** Children of `at` are no smaller than `at` itself. */
  ghost predicate AboveChildren<T>(h: seq<T>, rank: T -> int, at: nat) {
    forall i: nat :: 0 < i && Parent(i) == at ==> Ordered(h, rank, i)
  }

  /** The root of a heap has the least rank of all. */
  lemma {:induction false} RootIsLeast<T>(h: seq<T>, rank: T -> int, i: nat)
    requires IsHeap(h, rank) && i < |h|
    ensures rank(h[0]) <= rank(h[i])
    decreases i
  {
    if i > 0 {
      assert Ordered(h, rank, i);
      RootIsLeast(h, rank, Parent(i));
    }
  }

  lemma RootIsLeastElement<T>(h: seq<T>, rank: T -> int)
    requires IsHeap(h, rank)
    ensures forall x :: x in multiset(h) ==> rank(h[0]) <= rank(x)
  {
    forall x | x in multiset(h) ensures rank(h[0]) <= rank(x) {
      var i :| 0 <= i < |h| && h[i] == x;
      RootIsLeast(h, rank, i);
    }
  }

  lemma SwapKeepsElements<T>(h: seq<T>, i: nat, j: nat)
    requires i < |h| && j < |h|
    ensures multiset(h[i := h[j]][j := h[i]]) == multiset(h)
  {
  }

  /** `up`: moves the element at `start` towards the root until its parent is no larger. */
  method Up<T>(h: seq<T>, rank: T -> int, start: nat) returns (r: seq<T>)
    requires start < |h| && HeapAround(h, rank, start) && AboveChildren(h, rank, start)
    ensures IsHeap(r, rank) && |r| == |h| && multiset(r) == multiset(h)
  {
    r := h;
    var at: nat := start;
    while at > 0 && rank(r[at]) < rank(r[Parent(at)])
      invariant at < |r| == |h|
      invariant HeapAround(r, rank, at) && AboveChildren(r, rank, at)
      invariant multiset(r) == multiset(h)
      decreases at
    {
      var p := Parent(at);
      ghost var before := r;
      SwapKeepsElements(r, at, p);
      r := r[at := r[p]][p := r[at]];
      UpStep(before, r, rank, at);
      at := p;
    }
  }

  lemma UpStep<T>(h: seq<T>, r: seq<T>, rank: T -> int, at: nat)
    requires 0 < at < |h| && HeapAround(h, rank, at) && AboveChildren(h, rank, at)
    requires rank(h[at]) < rank(h[Parent(at)])
    requires r == h[at := h[Parent(at)]][Parent(at) := h[at]]
    ensures HeapAround(r, rank, Parent(at)) && AboveChildren(r, rank, Parent(at))
  {
    var p := Parent(at);
    forall i: nat | 0 < i < |r| && i != p
      ensures Ordered(r, rank, i)
    {
      assert i == at || Parent(i) == at || Ordered(h, rank, i);
      assert Parent(i) == at ==> Ordered(h, rank, i);
    }
    forall i: nat | 0 < p < |r| && 0 < i < |r| && Parent(i) == p
      ensures rank(r[Parent(p)]) <= rank(r[i])
    {
      assert Ordered(h, rank, p);
      assert i == at || Ordered(h, rank, i);
    }
  }

  /** The smaller of the two children of `at`, if it has any. */
  function SmallerChild<T>(h: seq<T>, rank: T -> int, at: nat): (c: nat)
    requires 2 * at + 1 < |h|
    ensures at < c < |h| && Parent(c) == at
    ensures forall i: nat :: 0 < i < |h| && Parent(i) == at ==> rank(h[c]) <= rank(h[i])
  {
    if 2 * at + 2 < |h| && rank(h[2 * at + 2]) < rank(h[2 * at + 1]) then 2 * at + 2 else 2 * at + 1
  }

  /** `down`: moves the element at `start` away from the root until no child is smaller.
      `moved` reports whether it moved at all, in which case the whole slice is a heap. */
  method Down<T>(h: seq<T>, rank: T -> int, start: nat) returns (r: seq<T>, moved: bool)
    requires start < |h| && HeapAround(h, rank, start)
    ensures |r| == |h| && multiset(r) == multiset(h)
    ensures moved ==> IsHeap(r, rank)
    ensures !moved ==> r == h && AboveChildren(h, rank, start)
  {
    r := h;
    var at := start;
    while 2 * at + 1 < |r| && rank(r[SmallerChild(r, rank, at)]) < rank(r[at])
      invariant start <= at < |r| == |h|
      invariant HeapAround(r, rank, at)
      invariant at > start ==> Ordered(r, rank, at)
      invariant at == start ==> r == h
      invariant multiset(r) == multiset(h)
      decreases |r| - at
    {
      var c := SmallerChild(r, rank, at);
      ghost var before := r;
      SwapKeepsElements(r, at, c);
      r := r[at := r[c]][c := r[at]];
      DownStep(before, r, rank, at, c);
      at := c;
    }
    moved := at > start;
    assert AboveChildren(r, rank, at) by {
      forall i: nat | 0 < i && Parent(i) == at ensures Ordered(r, rank, i) {
        if i < |r| {
          assert 2 * at + 1 < |r|;
        }
      }
    }
    if moved {
      forall i: nat ensures Ordered(r, rank, i) {
        assert i == at || (0 < i && Parent(i) == at) || Ordered(r, rank, i);
      }
    }
  }

  lemma DownStep<T>(h: seq<T>, r: seq<T>, rank: T -> int, at: nat, c: nat)
    requires 2 * at + 1 < |h| && HeapAround(h, rank, at)
    requires c == SmallerChild(h, rank, at) && rank(h[c]) < rank(h[at])
    requires r == h[at := h[c]][c := h[at]]
    ensures HeapAround(r, rank, c) && Ordered(r, rank, c)
  {
    forall i: nat | 0 < i < |r| && Parent(i) != c
      ensures Ordered(r, rank, i)
    {
      if i != at && Parent(i) != at {
        assert Ordered(h, rank, i);
      }
    }
    forall i: nat | 0 < c < |r| && 0 < i < |r| && Parent(i) == c
      ensures rank(r[Parent(c)]) <= rank(r[i])
    {
      assert Ordered(h, rank, i);
    }
  }

  /** heap.Push */
  method Push<T>(h: seq<T>, rank: T -> int, x: T) returns (r: seq<T>)
    requires IsHeap(h, rank)
    ensures IsHeap(r, rank) && multiset(r) == multiset(h) + multiset{x} && |r| == |h| + 1
  {
    var s := h + [x];
    forall i: nat | i != |h| ensures Ordered(s, rank, i) {
      assert Ordered(h, rank, i);
    }
    r := Up(s, rank, |h|);
  }

  /** heap.Remove: the last element takes the place of the removed one and is then
      moved down or, if it does not move, up. */
  method Remove<T>(h: seq<T>, rank: T -> int, at: nat) returns (r: seq<T>)
    requires IsHeap(h, rank) && at < |h|
    ensures IsHeap(r, rank) && multiset(h) == multiset(r) + multiset{h[at]} && |r| == |h| - 1
  {
    var n := |h| - 1;
    assert h == h[..n] + [h[n]];
    if at == n {
      r := h[..n];
      forall i: nat ensures Ordered(r, rank, i) {
        assert Ordered(h, rank, i);
      }
    } else {
      var s := h[..n][at := h[n]];
      assert h[..n] == h[..at] + [h[at]] + h[at + 1..n];
      assert s == h[..at] + [h[n]] + h[at + 1..n];
      RemovedAround(h, s, rank, at);
      var moved;
      r, moved := Down(s, rank, at);
      if !moved {
        r := Up(s, rank, at);
      }
    }
  }

  lemma RemovedAround<T>(h: seq<T>, s: seq<T>, rank: T -> int, at: nat)
    requires IsHeap(h, rank) && at < |h| - 1 && s == h[..|h| - 1][at := h[|h| - 1]]
    ensures HeapAround(s, rank, at)
  {
    forall i: nat | i != at && !(0 < i && Parent(i) == at) ensures Ordered(s, rank, i) {
      assert Ordered(h, rank, i);
    }
    forall i: nat | 0 < at < |s| && 0 < i < |s| && Parent(i) == at
      ensures rank(s[Parent(at)]) <= rank(s[i])
    {
      assert Ordered(h, rank, i) && Ordered(h, rank, at);
    }
  }

  /** heap.Pop: removes the root, which has the least rank. */
  method Pop<T>(h: seq<T>, rank: T -> int) returns (x: T, r: seq<T>)
    requires IsHeap(h, rank) && h != []
    ensures x == h[0] && x in multiset(h) && forall y :: y in multiset(h) ==> rank(x) <= rank(y)
    ensures IsHeap(r, rank) && multiset(h) == multiset(r) + multiset{x} && |r| == |h| - 1
  {
    RootIsLeastElement(h, rank);
    x := h[0];
    r := Remove(h, rank, 0);
  }

  /** heap.Init: heapifies from the last inner node to the root. */
  method Init<T>(h: seq<T>, rank: T -> int) returns (r: seq<T>)
    ensures IsHeap(r, rank) && multiset(r) == multiset(h) && |r| == |h|
  {
    r := h;
    var i := |h| / 2;
    while i > 0
      invariant 0 <= i <= |h| / 2 && |r| == |h|
      invariant forall k: nat :: 0 < k && Parent(k) >= i ==> Ordered(r, rank, k)
      invariant multiset(r) == multiset(h)
    {
      i := i - 1;
      r := SiftSubtree(r, rank, i);
    }
  }

  /** The subtrees rooted at `root` and above are heaps, except perhaps at `at`, which has been
      swapped down from `root`. */
  ghost predicate SubtreesAround<T>(h: seq<T>, rank: T -> int, root: nat, at: nat) {
    && root <= at < |h| && (at > root ==> Parent(at) >= root)
    && (forall k: nat :: 0 < k && Parent(k) >= root && Parent(k) != at ==> Ordered(h, rank, k))
    && (forall k: nat :: 0 < k < |h| && Parent(k) == at && at > root ==> rank(h[Parent(at)]) <= rank(h[k]))
  }

  lemma SubtreesSwapped<T>(h: seq<T>, rank: T -> int, root: nat, at: nat, c: nat)
    requires SubtreesAround(h, rank, root, at) && 0 < c < |h| && Parent(c) == at && rank(h[c]) < rank(h[at])
    requires forall k: nat :: 0 < k < |h| && Parent(k) == at ==> rank(h[c]) <= rank(h[k])
    ensures SubtreesAround(h[at := h[c]][c := h[at]], rank, root, c)
  {
    var r := h[at := h[c]][c := h[at]];
    forall k: nat | 0 < k && Parent(k) >= root && Parent(k) != c ensures Ordered(r, rank, k) {
      assert Parent(k) != at ==> Ordered(h, rank, k);
    }
    forall k: nat | 0 < k < |r| && Parent(k) == c ensures rank(r[Parent(c)]) <= rank(r[k]) {
      assert Ordered(h, rank, k);
    }
  }

  /** One `down` of heap.Init: makes the subtrees rooted at `root` and above heaps, given
      that those rooted above `root` are. */
  method SiftSubtree<T>(h: seq<T>, rank: T -> int, root: nat) returns (r: seq<T>)
    requires root < |h|
    requires forall k: nat :: 0 < k && Parent(k) > root ==> Ordered(h, rank, k)
    ensures forall k: nat :: 0 < k && Parent(k) >= root ==> Ordered(r, rank, k)
    ensures |r| == |h| && multiset(r) == multiset(h)
  {
    r := h;
    var at: nat := root;
    while 2 * at + 1 < |r| && rank(r[SmallerChild(r, rank, at)]) < rank(r[at])
      invariant SubtreesAround(r, rank, root, at) && |r| == |h| && multiset(r) == multiset(h)
      decreases |r| - at
    {
      hide SubtreesAround;
      var c := SmallerChild(r, rank, at);
      SwapKeepsElements(r, at, c);
      SubtreesSwapped(r, rank, root, at, c);
      r := r[at := r[c]][c := r[at]];
      at := c;
    }
    forall k: nat | 0 < k && Parent(k) >= root ensures Ordered(r, rank, k) {
      if Parent(k) == at && k < |r| {
        assert 2 * at + 1 < |r|;
      }
    }
  }
}
