/** The header chain of core/headerchain.go: stored headers with their total difficulties,
    the canonical number index and the current head. */
module HeaderChains {
  import opened Transactions
  import opened Headers

  datatype WriteStatus = NonStatTy | CanonStatTy | SideStatTy

  datatype WriteResult = Written(status: WriteStatus, ignored: nat, imported: nat) | UnknownAncestor

  /** Whether `last` displaces `head`. At equal difficulty and height a coin decides. */
  ghost predicate Wins(last: Header, head: Header, coin: bool) {
    || TotalDifficulty(last) > TotalDifficulty(head)
    || (TotalDifficulty(last) == TotalDifficulty(head)
        && (Number(last) < Number(head) || (Number(last) == Number(head) && coin)))
  }

  /** Whether adopting the batch leaves the index right: a batch that continues the head must
      be new from its first header on; any other batch must hold something new or lie on the
      canonical chain already. */
  ghost predicate Remarks(batch: seq<Header>, headers: set<Header>, head: Header)
    requires batch != [] && batch[0].Child?
  {
    if batch[0].parent == head then batch[0] !in headers
    else batch[|batch| - 1] !in headers || Descends(head, batch[|batch| - 1])
  }

  /** Every entry is a stored header with that number. */
  ghost predicate Entries(index: NumberIndex, headers: set<Header>) {
    forall k: nat :: k in index ==> index[k] in headers && Number(index[k]) == k
  }

  lemma OneEntry(index: NumberIndex, headers: set<Header>, h: Header)
    requires h in headers
    ensures Entries(index, headers) ==> Entries(index[Number(h) := h], headers)
  {
  }

  lemma GenesisStored(headers: set<Header>, genesis: Header, h: Header)
    requires Rooted(headers, genesis) && h in headers
    ensures h.Child? || (h == genesis && Number(h) == 0)
  {
  }

  lemma {:induction false} MarkEntries(index: NumberIndex, s: seq<Header>, headers: set<Header>)
    requires Entries(index, headers) && forall h :: h in s ==> h in headers
    ensures Entries(Mark(index, s), headers)
    decreases |s|
  {
    if s != [] {
      MarkEntries(index, s[..|s| - 1], headers);
    }
  }

  /** The index with the headers of `s` entered at their numbers. */
  function Mark(index: NumberIndex, s: seq<Header>): NumberIndex {
    if s == [] then index else Mark(index, s[..|s| - 1])[Number(s[|s| - 1]) := s[|s| - 1]]
  }

  lemma {:induction false} MarkLookup(index: NumberIndex, s: seq<Header>, n: nat)
    requires Linked(s) && s != []
    ensures var i := n - Number(s[0]);
      if 0 <= i < |s| then n in Mark(index, s) && Mark(index, s)[n] == s[i]
      else (n in Mark(index, s) <==> n in index) && (n in index ==> Mark(index, s)[n] == index[n])
    decreases |s|
  {
    var init := s[..|s| - 1];
    LinkedAncestors(s, 0, |s| - 1);
    if init != [] {
      MarkLookup(index, init, n);
    }
  }

  lemma {:induction false} MarkJoins(index: NumberIndex, s: seq<Header>, i: nat)
    requires i <= |s|
    ensures Mark(Mark(index, s[..i]), s[i..]) == Mark(index, s)
    decreases |s| - i
  {
    if i == |s| {
      assert s[..i] == s;
    } else {
      MarkStep(index, s, i);
      MarkPrepend(Mark(index, s[..i]), s[i..]);
      assert s[i..][1..] == s[i + 1..] && s[i..][0] == s[i];
      MarkJoins(index, s, i + 1);
    }
  }

  lemma MarkStep(index: NumberIndex, s: seq<Header>, i: nat)
    requires i < |s|
    ensures Mark(index, s[..i + 1]) == Mark(index, s[..i])[Number(s[i]) := s[i]]
  {
    assert s[..i + 1][..i] == s[..i];
  }

  lemma {:induction false} MarkPrepend(index: NumberIndex, s: seq<Header>)
    requires s != []
    ensures Mark(index, s) == Mark(index[Number(s[0]) := s[0]], s[1..])
    decreases |s|
  {
    if |s| > 1 {
      MarkPrepend(index, s[..|s| - 1]);
      assert s[1..][..|s| - 2] == s[..|s| - 1][1..];
    }
  }

  /** Enters headers into the index one by one. */
  method MarkEach(index: NumberIndex, s: seq<Header>) returns (marked: NumberIndex)
    ensures marked == Mark(index, s)
  {
    marked := index;
    for i := 0 to |s|
      invariant marked == Mark(index, s[..i])
    {
      MarkStep(index, s, i);
      marked := marked[Number(s[i]) := s[i]];
    }
    assert s[..|s|] == s;
  }

  /** Marking a whole batch on top of its parent's path gives the path of its last header. */
  lemma MarkedPath(index: NumberIndex, batch: seq<Header>)
    requires Linked(batch) && batch != [] && batch[0].Child?
    requires forall k: nat :: k in index ==> k <= Number(batch[|batch| - 1])
    requires forall k: nat :: k < Number(batch[0]) ==> k in index && index[k] == Ancestor(batch[0].parent, k)
    ensures IsPath(Mark(index, batch), batch[|batch| - 1])
  {
    hide Mark;
    var last := batch[|batch| - 1];
    LinkedAncestors(batch, 0, |batch| - 1);
    forall k: nat
      ensures k in Mark(index, batch) <==> k <= Number(last)
      ensures k <= Number(last) ==> Mark(index, batch)[k] == Ancestor(last, k)
    {
      MarkLookup(index, batch, k);
      if k < Number(batch[0]) {
        LinkedBelow(batch, |batch| - 1, k);
      } else if k <= Number(last) {
        LinkedAncestors(batch, k - Number(batch[0]), |batch| - 1);
        LinkedAncestors(batch, 0, k - Number(batch[0]));
      }
    }
  }

  /** If the first header of a batch is not marked and the index ends at its parent, the
      result is not a path. */
  lemma UnmarkedPath(index: NumberIndex, batch: seq<Header>, f: nat)
    requires Linked(batch) && batch != [] && batch[0].Child? && 0 < f <= |batch|
    requires Number(batch[0]) !in index
    ensures !IsPath(Mark(index, batch[f..]), batch[|batch| - 1])
  {
    hide Mark;
    LinkedAncestors(batch, 0, |batch| - 1);
    if f < |batch| {
      LinkedAncestors(batch, 0, f);
      assert Linked(batch[f..]);
      MarkLookup(index, batch[f..], Number(batch[0]));
    } else {
      assert batch[f..] == [];
      MarkNothing(index);
    }
  }

  lemma MarkNothing(index: NumberIndex)
    ensures Mark(index, []) == index
  {
  }

  /** Without marks, a batch ends up on the path exactly if it was there before. */
  lemma OldPath(canonical: NumberIndex, head: Header, index: NumberIndex, last: Header)
    requires IsPath(canonical, head) && last.Child?
    requires forall k: nat :: k in index ==> k <= Number(last)
    requires Number(last) in index <==> Number(last) in canonical
    requires Number(last) in canonical ==> index[Number(last)] == canonical[Number(last)]
    requires Descends(head, last) ==> forall k: nat :: k < Number(last) ==> k in index && index[k] == Ancestor(last, k)
    ensures IsPath(index, last) <==> Descends(head, last)
  {
    hide Ancestor, Number, IsPath;
    LastOfPath(index, last);
    PathAt(canonical, head, Number(last));
    if Descends(head, last) {
      PathBy(index, last);
    }
  }

  lemma PathAt(path: NumberIndex, h: Header, n: nat)
    requires IsPath(path, h)
    ensures n in path <==> n <= Number(h)
    ensures n in path ==> path[n] == Ancestor(h, n)
  {
  }

  lemma PathBy(index: NumberIndex, h: Header)
    requires Number(h) in index && index[Number(h)] == h && forall k: nat :: k in index ==> k <= Number(h)
    requires forall k: nat :: k < Number(h) ==> k in index && index[k] == Ancestor(h, k)
    ensures IsPath(index, h)
  {
    hide Number;
    LastOfPath(index, h);
  }

  lemma LastOfPath(index: NumberIndex, last: Header)
    ensures Ancestor(last, Number(last)) == last
    ensures IsPath(index, last) ==> Number(last) in index && index[Number(last)] == last
  {
  }

  lemma ParentStored(headers: set<Header>, genesis: Header, h: Header)
    requires Rooted(headers, genesis) && h.Child?
    ensures h in headers ==> h.parent in headers
    ensures TotalDifficulty(h) == TotalDifficulty(h.parent) + h.difficulty
  {
  }

  lemma InsertedIsNew(headers: set<Header>, batch: seq<Header>, firstInserted: int, inserted: seq<Header>)
    requires -1 <= firstInserted < |batch|
    requires forall j :: 0 <= j < |batch| && (firstInserted < 0 || j < firstInserted) ==> batch[j] in headers
    requires inserted == if firstInserted < 0 then [] else batch[firstInserted..]
    ensures headers + (set h | h in inserted) == headers + set h | h in batch
  {
    forall h | h in batch && h !in headers ensures h in inserted {
      var j :| 0 <= j < |batch| && batch[j] == h;
      assert firstInserted >= 0 && j >= firstInserted ==> inserted[j - firstInserted] == h;
    }
  }

  /** A stored batch keeps the store rooted. */
  lemma StoredRooted(headers: set<Header>, genesis: Header, batch: seq<Header>)
    requires Rooted(headers, genesis) && Linked(batch) && batch != [] && batch[0].Child? && batch[0].parent in headers
    ensures Rooted(headers + (set h | h in batch), genesis)
  {
    forall h | h in batch && h.Child? ensures h.parent in headers + set x | x in batch {
      var i :| 0 <= i < |batch| && batch[i] == h;
      assert i > 0 ==> batch[i - 1] in batch;
    }
    forall h | h in batch ensures h.Child? {
      var i :| 0 <= i < |batch| && batch[i] == h;
    }
  }

  // ---- Runs of imports ----

  datatype Stage = Stage(headers: set<Header>, canonical: NumberIndex, current: Header)

  ghost predicate Attached(batch: seq<Header>, headers: set<Header>) {
    batch != [] && batch[0].Child? && batch[0].parent in headers
  }

  /** The batch does not mislead the index: it is not adopted, or it is entered completely. */
  ghost predicate Harmless(batch: seq<Header>, coin: bool, s: Stage) {
    Attached(batch, s.headers) && Wins(batch[|batch| - 1], s.current, coin) ==> Remarks(batch, s.headers, s.current)
  }

  /** What importing the batch makes of the chain. */
  ghost predicate Follows(s: Stage, batch: seq<Header>, coin: bool, t: Stage) {
    && t.headers == (if Attached(batch, s.headers) then s.headers + (set h | h in batch) else s.headers)
    && t.current == (if Attached(batch, s.headers) && Wins(batch[|batch| - 1], s.current, coin) then batch[|batch| - 1] else s.current)
    && (IsPath(s.canonical, s.current) ==> (IsPath(t.canonical, t.current) <==> Harmless(batch, coin, s)))
  }

  ghost predicate Staged(stages: seq<Stage>, batches: seq<seq<Header>>, coins: seq<bool>)
    requires |coins| == |batches|
  {
    |stages| == |batches| + 1 && forall i :: 0 <= i < |batches| ==> Follows(stages[i], batches[i], coins[i], stages[i + 1])
  }

  lemma {:induction false} StaysCanonical(stages: seq<Stage>, batches: seq<seq<Header>>, coins: seq<bool>, k: nat)
    requires |coins| == |batches| && Staged(stages, batches, coins) && k <= |batches|
    requires IsPath(stages[0].canonical, stages[0].current)
    requires forall i :: 0 <= i < k ==> Harmless(batches[i], coins[i], stages[i])
    ensures IsPath(stages[k].canonical, stages[k].current)
  {
    hide IsPath, Harmless;
    if k > 0 {
      StaysCanonical(stages, batches, coins, k - 1);
      assert Follows(stages[k - 1], batches[k - 1], coins[k - 1], stages[k]);
    }
  }

  class HeaderChain {
    const genesis: Header
    var headers: set<Header>
    var td: map<Header, nat>
    var canonical: NumberIndex
    var current: Header

    /** What holds after every operation. */
    ghost predicate Valid()
      reads this
    {
      && Rooted(headers, genesis) && current in headers
      && td.Keys == headers && (forall h :: h in headers ==> td[h] == TotalDifficulty(h))
      && 0 in canonical && canonical[0] == genesis && Entries(canonical, headers)
    }

    /** The index is the ancestor path of the head, with nothing above it. */
    ghost predicate Canonical()
      reads this
    {
      IsPath(canonical, current)
    }

    ghost predicate Heaviest()
      reads this
    {
      forall h :: h in headers ==> TotalDifficulty(h) <= TotalDifficulty(current)
    }

    constructor (genesis: Header)
      requires genesis.Genesis?
      ensures Valid() && Canonical() && Heaviest() && this.genesis == genesis == current && headers == {genesis}
    {
      this.genesis, current := genesis, genesis;
      headers, td, canonical := {genesis}, map[genesis := genesis.difficulty], map[0 := genesis];
    }

    /** The first loop of `writeHeaders`: finds what is not known yet. The known headers of a
        linked batch come first. */
    method Sift(batch: seq<Header>) returns (newTD: nat, inserted: seq<Header>, firstInserted: int, tds: map<Header, nat>)
      requires Valid() && Linked(batch) && batch != [] && batch[0].Child? && batch[0].parent in headers
      ensures newTD == TotalDifficulty(batch[|batch| - 1]) && -1 <= firstInserted < |batch|
      ensures firstInserted < 0 ==> inserted == [] && forall j :: 0 <= j < |batch| ==> batch[j] in headers
      ensures firstInserted >= 0 ==>
                inserted == batch[firstInserted..] && forall j :: 0 <= j < |batch| ==> (batch[j] in headers <==> j < firstInserted)
      ensures tds.Keys == headers + set h | h in batch
      ensures forall h :: h in tds ==> tds[h] == TotalDifficulty(h)
    {
      hide Rooted, TotalDifficulty, Number;
      newTD, inserted, firstInserted, tds := td[batch[0].parent], [], -1, td;
      for i := 0 to |batch|
        invariant newTD == TotalDifficulty(if i == 0 then batch[0].parent else batch[i - 1])
        invariant -1 <= firstInserted < i
        invariant firstInserted < 0 ==> inserted == [] && forall j :: 0 <= j < i ==> batch[j] in headers
        invariant firstInserted >= 0 ==>
                    inserted == batch[firstInserted..i] && forall j :: 0 <= j < i ==> (batch[j] in headers <==> j < firstInserted)
        invariant forall h :: h in tds <==> h in headers || h in batch[..i]
        invariant forall h :: h in tds ==> tds[h] == TotalDifficulty(h)
      {
        var header := batch[i];
        ParentStored(headers, genesis, header);
        newTD := newTD + header.difficulty;
        if header !in headers {
          tds := tds[header := newTD];
          inserted := inserted + [header];
          if firstInserted < 0 {
            firstInserted := i;
          }
        }
        assert batch[..i + 1] == batch[..i] + [header];
      }
      assert batch[..|batch|] == batch;
    }

    /** Stores the new headers of a batch. */
    method StoreHeaders(batch: seq<Header>) returns (newTD: nat, inserted: seq<Header>, firstInserted: int)
      requires Valid() && Linked(batch) && batch != [] && batch[0].Child? && batch[0].parent in headers
      modifies this`headers, this`td
      ensures Valid() && headers == old(headers) + set h | h in batch
      ensures newTD == TotalDifficulty(batch[|batch| - 1]) && -1 <= firstInserted < |batch|
      ensures firstInserted < 0 ==> inserted == [] && batch[|batch| - 1] in old(headers)
      ensures firstInserted >= 0 ==> inserted == batch[firstInserted..] && batch[|batch| - 1] !in old(headers)
      ensures firstInserted == 0 <==> batch[0] !in old(headers)
      ensures forall j :: 0 <= j < |batch| ==> (batch[j] in old(headers) <==> j < |batch| - |inserted|)
    {
      hide Rooted, TotalDifficulty, Number;
      var tds;
      newTD, inserted, firstInserted, tds := Sift(batch);
      StoredRooted(headers, genesis, batch);
      InsertedIsNew(headers, batch, firstInserted, inserted);
      headers, td := headers + (set h | h in inserted), tds;
    }

    /** The index without the entries from `n` on. */
    method ClearAbove(n: nat) returns (marked: NumberIndex)
      requires Valid() && n > 0
      ensures forall k: nat :: k in marked ==> k in canonical && marked[k] == canonical[k]
      ensures forall k: nat :: k in canonical && k < n ==> k in marked
      ensures Canonical() ==> forall k: nat :: k in marked ==> k < n
    {
      hide Rooted, TotalDifficulty;
      marked := canonical;
      var i := n;
      ghost var rest := set k: nat | k in canonical && k >= n;
      while i in canonical
        invariant i >= n && forall k: nat :: k in marked <==> k in canonical && !(n <= k < i)
        invariant forall k: nat :: k in marked ==> marked[k] == canonical[k]
        invariant forall k: nat :: k in rest <==> k in canonical && k >= i
        decreases rest
      {
        rest := rest - {i};
        marked := marked - {i};
        i := i + 1;
      }
      if Canonical() {
        assert forall k: nat :: k in marked && k >= n ==> k >= i && k <= Number(current);
      }
    }

    /** Rewrites stale entries going back from `parent` to where it joins the index. */
    method RewriteBelow(parent: Header, index: NumberIndex) returns (marked: NumberIndex)
      requires Valid() && parent in headers
      requires forall k: nat :: k <= Number(parent) && k in canonical ==> k in index && index[k] == canonical[k]
      ensures forall k: nat :: k > Number(parent) ==> (k in marked <==> k in index) && (k in index ==> marked[k] == index[k])
      ensures Canonical() ==> forall k: nat :: k <= Number(parent) ==> k in marked && marked[k] == Ancestor(parent, k)
      ensures 0 in marked && marked[0] == genesis && (Entries(index, headers) ==> Entries(marked, headers))
    {
      hide TotalDifficulty, Entries, Rooted;
      marked := index;
      var h := parent;
      AncestorStored(headers, genesis, parent, 0);
      while !(Number(h) in canonical && canonical[Number(h)] == h)
        invariant h in headers && Descends(parent, h) && (Entries(index, headers) ==> Entries(marked, headers))
        invariant forall k: nat :: Number(h) < k <= Number(parent) ==> k in marked && marked[k] == Ancestor(parent, k)
        invariant forall k: nat :: !(Number(h) < k <= Number(parent)) ==> (k in marked <==> k in index) && (k in index ==> marked[k] == index[k])
        decreases Number(h)
      {
        GenesisStored(headers, genesis, h);
        ParentStored(headers, genesis, h);
        OneEntry(marked, headers, h);
        AncestorOfAncestor(parent, Number(h), Number(h) - 1);
        marked := marked[Number(h) := h];
        h := h.parent;
      }
      if Canonical() {
        forall k: nat | k <= Number(h) ensures k in marked && marked[k] == Ancestor(parent, k) {
          AncestorOfAncestor(parent, Number(h), k);
          AncestorOfAncestor(current, Number(h), k);
        }
      }
    }

    /** The part of `writeHeaders` that makes the batch canonical. */
    method Adopt(batch: seq<Header>, inserted: seq<Header>, firstInserted: int, ghost before: set<Header>)
      requires Valid() && Linked(batch) && batch != [] && batch[0].Child? && batch[0].parent in headers
      requires (forall h :: h in batch ==> h in headers) && -1 <= firstInserted < |batch|
      requires firstInserted < 0 ==> inserted == [] && batch[|batch| - 1] in before
      requires firstInserted >= 0 ==> inserted == batch[firstInserted..] && batch[|batch| - 1] !in before
      requires firstInserted == 0 <==> batch[0] !in before
      modifies this`canonical, this`current
      ensures Valid() && current == batch[|batch| - 1]
      ensures old(Canonical()) ==> (Canonical() <==> Remarks(batch, before, old(current)))
    {
      var last := batch[|batch| - 1];
      if batch[0].parent == current {
        Pile(batch, inserted, if firstInserted < 0 then |batch| else firstInserted);
      } else {
        Switch(batch, inserted, firstInserted);
      }
      current := last;
    }

    /** The batch continues the head: its new headers are piled onto the index. */
    method Pile(batch: seq<Header>, inserted: seq<Header>, ghost known: nat)
      requires Valid() && Linked(batch) && batch != [] && batch[0].Child? && batch[0].parent == current
      requires known <= |batch| && inserted == batch[known..] && forall h :: h in batch ==> h in headers
      modifies this`canonical
      ensures Valid()
      ensures old(Canonical()) ==> (IsPath(canonical, batch[|batch| - 1]) <==> known == 0)
    {
      hide Mark, Rooted, IsPath;
      if Canonical() {
        PathEnds(canonical, current);
        LinkedAncestors(batch, 0, |batch| - 1);
        if known == 0 {
          assert batch[0..] == batch;
          MarkedPath(canonical, batch);
        } else {
          UnmarkedPath(canonical, batch, known);
        }
      }
      MarkedRoot(canonical, batch, known);
      MarkEntries(canonical, inserted, headers);
      canonical := MarkEach(canonical, inserted);
    }

    /** The batch is on another branch: the index is cleared above its last header and
        rewritten below its first one. */
    method Switch(batch: seq<Header>, inserted: seq<Header>, firstInserted: int)
      requires Valid() && Linked(batch) && batch != [] && batch[0].Child? && batch[0].parent in headers
      requires -1 <= firstInserted < |batch|
      requires inserted == (if firstInserted < 0 then [] else batch[firstInserted..]) && forall h :: h in batch ==> h in headers
      modifies this`canonical
      ensures Valid()
      ensures old(Canonical()) ==> (IsPath(canonical, batch[|batch| - 1]) <==> firstInserted >= 0 || Descends(current, batch[|batch| - 1]))
    {
      hide Mark, Rooted, IsPath;
      var last, parent := batch[|batch| - 1], batch[0].parent;
      LinkedAncestors(batch, 0, |batch| - 1);
      var marked := ClearAbove(Number(last) + 1);
      marked := RewriteBelow(parent, marked);
      ghost var base := marked;
      var known := if firstInserted < 0 then 0 else firstInserted;
      marked := MarkEach(marked, batch[..known]);
      marked := MarkEach(marked, inserted);
      MarkJoins(base, batch, known);
      MarkNothing(base);
      MarkedRoot(base, batch, 0);
      MarkEntries(base, batch, headers);
      assert batch[0..] == batch && batch[..0] == [];
      if Canonical() {
        if firstInserted >= 0 {
          MarkedPath(base, batch);
        } else {
          if Descends(current, last) {
            BelowOldPath(canonical, current, base, batch);
          }
          OldPath(canonical, current, base, last);
        }
      }
      canonical := marked;
    }

    /** Whether the parent of the first header is stored. */
    predicate ParentKnown(batch: seq<Header>)
      requires batch != []
      reads this`headers
    {
      batch[0].Child? && batch[0].parent in headers
    }

    /** writeHeaders: stores a linked batch and adopts it if it wins over the current head. */
    method WriteHeaders(batch: seq<Header>, coin: bool) returns (result: WriteResult)
      requires Valid() && Linked(batch)
      modifies this
      ensures Valid() && (old(Heaviest()) ==> Heaviest())
      ensures batch == [] ==> result == Written(NonStatTy, 0, 0)
      ensures result.UnknownAncestor? <==> batch != [] && !old(ParentKnown(batch))
      ensures batch == [] || result.UnknownAncestor? ==> unchanged(this)
      ensures batch != [] && result.Written? ==>
                var last := batch[|batch| - 1];
                var wins := Wins(last, old(current), coin);
                && headers == old(headers) + (set h | h in batch)
                && current == (if wins then last else old(current)) && (!wins ==> canonical == old(canonical))
                && (old(Canonical()) ==> (Canonical() <==> !wins || Remarks(batch, old(headers), old(current))))
                && result.ignored + result.imported == |batch|
                && (forall j :: 0 <= j < |batch| ==> (batch[j] in old(headers) <==> j < result.ignored))
                && result.status == if last in old(headers) then NonStatTy else if wins then CanonStatTy else SideStatTy
      ensures batch != [] && result.Written? ==>
                var last, head := batch[|batch| - 1], old(current);
                && (TotalDifficulty(last) > TotalDifficulty(head) ==> current == last)
                && (TotalDifficulty(last) < TotalDifficulty(head) ==> current == head)
                && (TotalDifficulty(last) == TotalDifficulty(head) && Number(last) != Number(head) ==>
                      current == if Number(last) < Number(head) then last else head)
                && (TotalDifficulty(last) == TotalDifficulty(head) && Number(last) == Number(head) ==>
                      current == if coin then last else head)
    {
      hide Rooted, TotalDifficulty, Number, IsPath, Remarks;
      if batch == [] {
        return Written(NonStatTy, 0, 0);
      }
      if !ParentKnown(batch) {
        return UnknownAncestor;
      }
      var last := batch[|batch| - 1];
      var newTD, inserted, firstInserted := StoreHeaders(batch);
      assert last in batch;
      var localTD := td[current];
      var wins := newTD > localTD;
      if newTD == localTD {
        wins := Number(last) < Number(current) || (Number(last) == Number(current) && coin);
      }
      LastIsHeaviest(batch, current, coin);
      if wins {
        Adopt(batch, inserted, firstInserted, old(headers));
      }
      var status := if inserted == [] then NonStatTy else if wins then CanonStatTy else SideStatTy;
      result := Written(status, |batch| - |inserted|, |inserted|);
    }

    ghost function Now(): Stage
      reads this
    {
      Stage(headers, canonical, current)
    }

    /** Any run of imports, whatever the batches: the total difficulties are right and a heaviest
        head stays heaviest. `stages` is the chain before, between and after the batches; a right
        index stays right exactly as long as no batch misleads it. With positive difficulties it
        is enough that every batch that could be attached brought something new. */
    method Import(batches: seq<seq<Header>>, coins: seq<bool>) returns (results: seq<WriteResult>, ghost stages: seq<Stage>)
      requires Valid() && |coins| == |batches| && forall b :: b in batches ==> Linked(b)
      modifies this
      ensures Valid() && |results| == |batches| && (old(Heaviest()) ==> Heaviest())
      ensures Staged(stages, batches, coins) && stages[0] == old(Now()) && stages[|batches|] == Now()
      ensures forall i :: 0 <= i < |batches| ==>
                (results[i].UnknownAncestor? <==> batches[i] != [] && !Attached(batches[i], stages[i].headers))
      ensures old(Canonical()) && (forall i :: 0 <= i < |batches| ==> Harmless(batches[i], coins[i], stages[i])) ==> Canonical()
      ensures old(Canonical() && Heaviest() && Positive(headers)) && (forall b :: b in batches ==> Positive(set h | h in b)) ==>
                (forall i :: 0 <= i < |results| ==> BroughtNews(batches[i], results[i])) ==> Canonical()
    {
      hide Rooted, TotalDifficulty, Number, IsPath, Wins, Positive, Linked, Entries, Harmless, Follows, Attached;
      results, stages := [], [Now()];
      ghost var positive := Canonical() && Heaviest() && Positive(headers) && forall b :: b in batches ==> Positive(set h | h in b);
      for i := 0 to |batches|
        invariant Valid() && |results| == i == |stages| - 1 && (old(Heaviest()) ==> Heaviest()) && (positive ==> Positive(headers))
        invariant stages[0] == old(Now()) && stages[i] == Now()
        invariant forall j :: 0 <= j < i ==> Follows(stages[j], batches[j], coins[j], stages[j + 1])
        invariant forall j :: 0 <= j < i ==>
                    (results[j].UnknownAncestor? <==> batches[j] != [] && !Attached(batches[j], stages[j].headers))
        invariant positive && (forall j :: 0 <= j < i ==> BroughtNews(batches[j], results[j])) ==> Canonical()
      {
        var batch := batches[i];
        assert batch in batches;
        label before:
        var result := WriteHeaders(batch, coins[i]);
        OneImport@before(batch, coins[i], result, positive);
        results, stages := results + [result], stages + [Now()];
      }
      if old(Canonical()) && forall i :: 0 <= i < |batches| ==> Harmless(batches[i], coins[i], stages[i]) {
        StaysCanonical(stages, batches, coins, |batches|);
      }
    }

    /** One batch of a run. */
    twostate lemma OneImport(new batch: seq<Header>, new coin: bool, new result: WriteResult, new positive: bool)
      requires old(Valid()) && Valid() && Linked(batch)
      requires result.UnknownAncestor? <==> batch != [] && !old(ParentKnown(batch))
      requires batch == [] || result.UnknownAncestor? ==> unchanged(this)
      requires batch != [] && result.Written? ==>
                 var last := batch[|batch| - 1];
                 var wins := Wins(last, old(current), coin);
                 && headers == old(headers) + (set h | h in batch)
                 && current == (if wins then last else old(current))
                 && (old(Canonical()) ==> (Canonical() <==> !wins || Remarks(batch, old(headers), old(current))))
                 && result.ignored + result.imported == |batch|
                 && (forall j :: 0 <= j < |batch| ==> (batch[j] in old(headers) <==> j < result.ignored))
      ensures result.UnknownAncestor? <==> batch != [] && !Attached(batch, old(headers))
      ensures Follows(old(Now()), batch, coin, Now())
      ensures positive && old(Heaviest() && Positive(headers)) && Positive(set h | h in batch) ==>
                Positive(headers) && (old(Canonical()) && BroughtNews(batch, result) ==> Canonical())
    {
      hide Rooted, TotalDifficulty, Number, IsPath, Wins, Positive, Linked, Entries, Remarks;
      if batch != [] && result.Written? && old(Heaviest() && Positive(headers)) && Positive(set h | h in batch) {
        PositiveJoin(old(headers), batch);
        if Wins(batch[|batch| - 1], old(current), coin) {
          RemarksUnlessKnown(batch, old(headers), genesis, old(current), coin);
        }
      }
    }

    // ---- Rewinding ----

    /** All stored headers with the given number, on whatever fork. */
    function AllHashes(n: nat): set<Header>
      reads this`headers
    {
      set h | h in headers && Number(h) == n
    }

    /** The numbers above `num` that have headers. */
    method Leftovers(num: nat) returns (nums: seq<nat>)
      requires Valid()
      ensures forall n :: n in nums ==> n > num
      ensures forall h :: h in headers && Number(h) > num ==> Number(h) in nums
    {
      hide TotalDifficulty;
      nums := [];
      var n := num + 1;
      ghost var rest := set h | h in headers && Number(h) >= n;
      while AllHashes(n) != {}
        invariant n > num && rest == set h | h in headers && Number(h) >= n
        invariant forall k: nat :: k in nums <==> num < k < n
        decreases rest
      {
        ghost var h :| h in AllHashes(n);
        rest := rest - AllHashes(n);
        nums, n := [n] + nums, n + 1;
      }
      assert forall h :: h in headers && Number(h) == n ==> h in AllHashes(n);
      NothingAbove(headers, genesis, n);
    }

    /** Collects what is stored under the given numbers. */
    method Doomed(nums: seq<nat>, hdr: Header) returns (gone: set<Header>)
      requires hdr in headers && Number(hdr) in nums
      ensures forall h :: h in gone <==> h in headers && Number(h) in nums
    {
      gone := {};
      for i := 0 to |nums|
        invariant forall h :: h in gone ==> h == hdr || (h in headers && Number(h) in nums[..i])
        invariant forall h :: h in headers && Number(h) in nums[..i] ==> h in gone
      {
        var hashes := AllHashes(nums[i]);
        if hashes == {} {
          hashes := {hdr};
        }
        gone := gone + hashes;
        assert nums[..i + 1] == nums[..i] + [nums[i]];
        assert forall h :: h in headers && Number(h) == nums[i] ==> h in AllHashes(nums[i]);
      }
      assert nums[..|nums|] == nums;
    }

    /** SetHead without a forced deeper rewind: everything above `n` goes, on all forks. */
    method SetHead(n: nat)
      requires Valid()
      modifies this
      ensures Valid() && (old(Canonical()) ==> Canonical())
      ensures Number(old(current)) <= n ==> unchanged(this)
      ensures Number(old(current)) > n ==>
                && current == Ancestor(old(current), n)
                && headers == (set h | h in old(headers) && Number(h) <= n)
                && td == (map h | h in old(td) && Number(h) <= n :: old(td)[h])
                && canonical == map k | k in old(canonical) && k <= n :: old(canonical)[k]
    {
      hide TotalDifficulty, Ancestor, Rooted, Wiped, IsPath, Entries;
      if Number(current) <= n {
        return;
      }
      var gone, numbers := Rewind(n);
      WipedStore(headers, genesis, old(current), n, gone, numbers);
      WipedIndex(canonical, headers, n, gone, numbers);
      if IsPath(canonical, old(current)) {
        WipedPath(canonical, old(current), n);
      }
      headers := headers - gone;
      td := td - gone;
      canonical := canonical - numbers;
    }

    /** The loop of `SetHead`; the deletions are only collected. */
    method Rewind(n: nat) returns (gone: set<Header>, numbers: set<nat>)
      requires Valid() && Number(current) > n
      modifies this`current
      ensures current == Ancestor(old(current), n) && Wiped(headers, n, gone, numbers)
    {
      hide TotalDifficulty, Rooted, Wiped;
      gone, numbers := {}, {};
      var origin := true;
      while Number(current) > n
        invariant Valid() && n <= Number(current) <= Number(old(current)) && current == Ancestor(old(current), Number(current))
        invariant origin <==> Number(current) == Number(old(current))
        invariant if origin then gone == {} && numbers == {} else Wiped(headers, Number(current), gone, numbers)
        decreases Number(current)
      {
        var hdr := current;
        AncestorOfAncestor(old(current), Number(hdr), Number(hdr) - 1);
        ParentStored(headers, genesis, hdr);
        current := if hdr.parent in headers then hdr.parent else genesis;
        var nums := [];
        if origin {
          nums := Leftovers(Number(hdr));
        }
        nums := nums + [Number(hdr)];
        var doomed := Doomed(nums, hdr);
        WipeMore(headers, Number(hdr), gone, numbers, nums, doomed);
        gone, numbers, origin := gone + doomed, numbers + (set k | k in nums), false;
      }
    }

    // ---- Ancestors ----

    /** Walks back `ancestor` blocks. As soon as it meets the canonical chain the index gives
        the answer; every step before that costs one unit of `budget`. */
    method GetAncestor(hash: Header, number: nat, ancestor: nat, budget: nat) returns (found: Option<(Header, nat)>, left: nat)
      requires Valid() && Canonical()
      ensures left <= budget
      ensures ancestor > number ==> found.None? && left == budget
      ensures ancestor == 0 ==> found == Some((hash, number)) && left == budget
      ensures found.Some? && ancestor > 0 ==>
                hash in headers && Number(hash) == number && found.value == (Ancestor(hash, number - ancestor), number - ancestor)
      ensures 0 < ancestor <= number && hash in headers && Number(hash) == number ==>
                var cost := if ancestor == 1 then 0 else Detour(hash, current, ancestor);
                && (found.Some? <==> cost <= budget) && left == if cost <= budget then budget - cost else 0
      ensures 0 < ancestor <= number && !(hash in headers && Number(hash) == number) ==>
                found.None? && left == if ancestor == 1 || budget == 0 then budget else budget - 1
    {
      hide Rooted, TotalDifficulty, Detour, IsPath;
      if ancestor > number {
        return None, budget;
      }
      if ancestor == 1 {
        if hash in headers && Number(hash) == number {
          return Some((hash.parent, number - 1)), budget;
        }
        return None, budget;
      }
      found, left := Walk(hash, number, ancestor, budget);
    }

    /** The loop of `GetAncestor`. */
    method Walk(hash: Header, number: nat, ancestor: nat, budget: nat) returns (found: Option<(Header, nat)>, left: nat)
      requires Valid() && Canonical() && ancestor <= number
      ensures ancestor == 0 ==> found == Some((hash, number)) && left == budget
      ensures ancestor > 0 && hash in headers && Number(hash) == number ==>
                var cost := Detour(hash, current, ancestor);
                if cost <= budget then found == Some((Ancestor(hash, number - ancestor), number - ancestor)) && left == budget - cost
                else found.None? && left == 0
      ensures ancestor > 0 && !(hash in headers && Number(hash) == number) ==>
                found.None? && left == if budget == 0 then 0 else budget - 1
    {
      hide Rooted, TotalDifficulty;
      var h, at, todo := hash, number, ancestor;
      left := budget;
      ghost var stored := hash in headers && Number(hash) == number;
      while todo != 0
        invariant 0 <= todo <= ancestor && at - todo == number - ancestor && at >= todo && left <= budget
        invariant !stored ==> h == hash && at == number && todo == ancestor && left == budget
        invariant stored ==> h in headers && Number(h) == at && Descends(hash, h)
        invariant stored ==> Detour(hash, current, ancestor) + left == Detour(h, current, todo) + budget
        decreases todo
      {
        if at in canonical && canonical[at] == h {
          OnPath(headers, genesis, current, at, at - todo);
          if stored {
            AncestorOfAncestor(hash, at, at - todo);
          }
          return Some((canonical[at - todo], at - todo)), left;
        }
        if left == 0 {
          return None, 0;
        }
        left, todo := left - 1, todo - 1;
        if !(h in headers && Number(h) == at) {
          return None, left;
        }
        AncestorOfAncestor(hash, at, at - 1);
        ParentStored(headers, genesis, h);
        h, at := h.parent, at - 1;
      }
      found := Some((h, at));
    }
  }

  /** How many steps back from `h`, at most `ancestor`, lead to an ancestor of `head`. */
  ghost function Detour(h: Header, head: Header, ancestor: nat): nat
    requires ancestor <= Number(h)
  {
    if ancestor == 0 || (Number(h) <= Number(head) && Ancestor(head, Number(h)) == h) then 0
    else 1 + Detour(h.parent, head, ancestor - 1)
  }

  /** No fewer steps lead to an ancestor of `head`. */
  lemma {:induction false} DetourIsLeast(h: Header, head: Header, ancestor: nat, steps: nat)
    requires steps <= ancestor <= Number(h)
    ensures steps < Detour(h, head, ancestor) ==> !Descends(head, Ancestor(h, Number(h) - steps))
    ensures steps == Detour(h, head, ancestor) ==> steps == ancestor || Descends(head, Ancestor(h, Number(h) - steps))
    ensures Detour(h, head, ancestor) <= ancestor
    decreases h
  {
    if Detour(h, head, ancestor) > 0 {
      DetourIsLeast(h.parent, head, ancestor - 1, if steps == 0 then 0 else steps - 1);
    }
  }

  lemma OnPath(headers: set<Header>, genesis: Header, head: Header, m: nat, n: nat)
    requires Rooted(headers, genesis) && head in headers && n <= m <= Number(head)
    ensures Ancestor(head, m) in headers && Ancestor(Ancestor(head, m), n) == Ancestor(head, n)
  {
    AncestorStored(headers, genesis, head, m);
    AncestorOfAncestor(head, m, n);
  }

  /** `gone` are all headers above `n`, and `numbers` includes their numbers, but none up to `n`. */
  ghost predicate Wiped(headers: set<Header>, n: nat, gone: set<Header>, numbers: set<nat>) {
    && (forall h :: h in gone <==> h in headers && Number(h) > n)
    && (forall h :: h in gone ==> Number(h) in numbers)
    && (forall k :: k in numbers ==> k > n)
  }

  lemma WipeMore(headers: set<Header>, m: nat, gone: set<Header>, numbers: set<nat>, nums: seq<nat>, doomed: set<Header>)
    requires m > 0 && m in nums && forall k :: k in nums ==> k >= m
    requires forall h :: h in doomed <==> h in headers && Number(h) in nums
    requires Wiped(headers, m, gone, numbers) ||
             (gone == {} && numbers == {} && forall h :: h in headers && Number(h) > m ==> Number(h) in nums)
    ensures Wiped(headers, m - 1, gone + doomed, numbers + set k | k in nums)
  {
  }

  /** Since all ancestors are stored, a number without headers has none above it. */
  lemma NothingAbove(headers: set<Header>, genesis: Header, n: nat)
    requires Rooted(headers, genesis) && forall h :: h in headers ==> Number(h) != n
    ensures forall h :: h in headers ==> Number(h) < n
  {
    forall h | h in headers ensures Number(h) < n {
      if Number(h) >= n {
        AncestorStored(headers, genesis, h, n);
      }
    }
  }

  lemma WipedStore(headers: set<Header>, genesis: Header, head: Header, n: nat, gone: set<Header>, numbers: set<nat>)
    requires Rooted(headers, genesis) && head in headers && n <= Number(head) && Wiped(headers, n, gone, numbers)
    ensures Rooted(headers - gone, genesis) && Ancestor(head, n) in headers - gone
    ensures forall h :: h in headers ==> (h in gone <==> Number(h) > n)
    ensures genesis !in gone && 0 !in numbers
  {
    AncestorStored(headers, genesis, head, n);
  }

  lemma WipedIndex(index: NumberIndex, headers: set<Header>, n: nat, gone: set<Header>, numbers: set<nat>)
    requires Entries(index, headers) && Wiped(headers, n, gone, numbers)
    ensures index - numbers == map k | k in index && k <= n :: index[k]
    ensures Entries(index - numbers, headers - gone)
  {
    forall k: nat | k in index && k > n ensures k in numbers {
      assert index[k] in gone;
    }
  }

  lemma WipedPath(index: NumberIndex, head: Header, n: nat)
    requires IsPath(index, head) && n <= Number(head)
    ensures IsPath(map k | k in index && k <= n :: index[k], Ancestor(head, n))
  {
    forall k: nat | k <= n ensures index[k] == Ancestor(Ancestor(head, n), k) {
      AncestorOfAncestor(head, n, k);
    }
  }

  /** Every header below the genesis adds to the difficulty. */
  ghost predicate Positive(headers: set<Header>) {
    forall h :: h in headers && h.Child? ==> h.difficulty > 0
  }

  lemma PositiveJoin(headers: set<Header>, batch: seq<Header>)
    requires Positive(headers) && Positive(set h | h in batch)
    ensures Positive(headers + set h | h in batch)
  {
    forall h | h in headers + (set x | x in batch) && h.Child? ensures h.difficulty > 0 {
      assert h in headers || h in (set x | x in batch);
    }
  }

  /** A batch that was stored had at least one new header. */
  predicate BroughtNews(batch: seq<Header>, result: WriteResult) {
    batch == [] || result.UnknownAncestor? || result.imported > 0
  }

  /** A linked batch has its heaviest header at the end. */
  lemma LastIsHeaviest(batch: seq<Header>, head: Header, coin: bool)
    requires Linked(batch) && batch != []
    ensures var last := batch[|batch| - 1];
      && (forall h :: h in batch ==> TotalDifficulty(h) <= TotalDifficulty(last))
      && (Wins(last, head, coin) ==> TotalDifficulty(head) <= TotalDifficulty(last))
      && (!Wins(last, head, coin) ==> TotalDifficulty(last) <= TotalDifficulty(head))
  {
    forall h | h in batch ensures TotalDifficulty(h) <= TotalDifficulty(batch[|batch| - 1]) {
      var i :| 0 <= i < |batch| && batch[i] == h;
      LinkedAncestors(batch, i, |batch| - 1);
      DifficultyGrows(batch[|batch| - 1], Number(h));
    }
  }

  lemma {:induction false} DifficultyGrowsStrictly(headers: set<Header>, genesis: Header, h: Header, n: nat)
    requires Rooted(headers, genesis) && Positive(headers) && h in headers && n < Number(h)
    ensures TotalDifficulty(Ancestor(h, n)) < TotalDifficulty(h)
    decreases h
  {
    if n < Number(h.parent) {
      DifficultyGrowsStrictly(headers, genesis, h.parent, n);
    }
  }

  /** With positive difficulties, a winning batch leaves the index right unless all of it was
      known and it ends in another header than the head, which then is exactly as heavy. */
  lemma RemarksUnlessKnown(batch: seq<Header>, headers: set<Header>, genesis: Header, head: Header, coin: bool)
    requires Linked(batch) && batch != [] && batch[0].Child? && batch[0].parent in headers && Rooted(headers, genesis)
    requires head in headers && forall h :: h in headers ==> TotalDifficulty(h) <= TotalDifficulty(head)
    requires Positive(headers) && Positive(set h | h in batch) && Wins(batch[|batch| - 1], head, coin)
    ensures var last := batch[|batch| - 1];
      Remarks(batch, headers, head) <==> last !in headers || last == head
  {
    var last := batch[|batch| - 1];
    LinkedAncestors(batch, 0, |batch| - 1);
    assert batch[0] in (set h | h in batch);
    assert TotalDifficulty(batch[0]) == TotalDifficulty(batch[0].parent) + batch[0].difficulty;
    if last in headers {
      AncestorStored(headers, genesis, last, Number(batch[0]));
      if Descends(head, last) && last != head {
        DifficultyGrowsStrictly(headers, genesis, head, Number(last));
      }
    }
  }

  /** Two headers with the same parent and the same difficulty. */
  ghost predicate Tie(a: Header, b: Header) {
    a.Child? && b.Child? && a.parent == b.parent && a.parent.Genesis? && a != b && a.difficulty == b.difficulty > 0
  }

  lemma TieWins(a: Header, b: Header, headers: set<Header>)
    requires Tie(a, b)
    ensures Wins(a, a.parent, false) && !Wins(b, a, false) && Wins(b, a, true)
    ensures Remarks([a], {a.parent}, a.parent) && (b in headers ==> !Remarks([b], headers, a))
  {
    assert Number(a) == Number(b) == 1;
  }

  /** The other direction really fails: the second header of a tie is stored, and when it comes again
      and the coin favours it, it becomes the head without being entered into the index. */
  method KnownTieBreaksIndex(a: Header, b: Header) returns (chain: HeaderChain)
    requires Tie(a, b)
    ensures chain.Valid() && chain.current == b && !chain.Canonical()
  {
    hide HeaderChain.Valid, HeaderChain.Canonical, HeaderChain.Heaviest, Wins, Remarks, Number, TotalDifficulty;
    chain := new HeaderChain(a.parent);
    TieWins(a, b, {a.parent, a, b});
    var result := chain.WriteHeaders([a], false);
    assert chain.current == a && chain.headers == {a.parent, a};
    result := chain.WriteHeaders([b], false);
    assert chain.current == a && chain.headers == {a.parent, a, b};
    result := chain.WriteHeaders([b], true);
  }

  lemma BelowOldPath(canonical: NumberIndex, head: Header, index: NumberIndex, batch: seq<Header>)
    requires Linked(batch) && batch != [] && batch[0].Child? && IsPath(canonical, head)
    requires Descends(head, batch[|batch| - 1])
    requires forall k: nat :: k < Number(batch[0]) ==> k in index && index[k] == Ancestor(batch[0].parent, k)
    requires forall k: nat :: Number(batch[0]) <= k <= Number(batch[|batch| - 1]) && k in canonical ==> k in index && index[k] == canonical[k]
    ensures forall k: nat :: k < Number(batch[|batch| - 1]) ==> k in index && index[k] == Ancestor(batch[|batch| - 1], k)
  {
    var last := batch[|batch| - 1];
    forall k: nat | k < Number(last) ensures k in index && index[k] == Ancestor(last, k) {
      AncestorOfAncestor(head, Number(last), k);
      if k < Number(batch[0]) {
        LinkedBelow(batch, |batch| - 1, k);
      }
    }
  }

  lemma PathEnds(index: NumberIndex, h: Header)
    requires IsPath(index, h)
    ensures Number(h) + 1 !in index && forall k: nat :: k in index ==> k <= Number(h)
    ensures forall k: nat :: k <= Number(h) ==> k in index && index[k] == Ancestor(h, k)
  {
  }

  lemma MarkedRoot(index: NumberIndex, batch: seq<Header>, known: nat)
    requires Linked(batch) && batch != [] && batch[0].Child? && known <= |batch| && 0 in index
    ensures 0 in Mark(index, batch[known..]) && Mark(index, batch[known..])[0] == index[0]
  {
    hide Mark;
    if known < |batch| {
      LinkedAncestors(batch, 0, known);
      assert Linked(batch[known..]);
      MarkLookup(index, batch[known..], 0);
    } else {
      assert batch[known..] == [];
      MarkNothing(index);
    }
  }
}
