/** The section indexer of core/chain_indexer.go. Its lock is released while a section is
    processed, and the chain may be reorganised in the middle; so the update loop is cut into
    the steps between which anything else can happen. */
module ChainIndexers {
  import opened Transactions
  import opened Headers

  /** What the update loop holds on to while it has released the lock: the section it is
      processing, the head of the section before it, the next block number to read, and the
      last header read. */
  datatype Job = Job(section: nat, oldHead: Option<Header>, next: nat, last: Option<Header>)

  function ParentHash(h: Header): Option<Header> {
    if h.Child? then Some(h.parent) else None
  }

  /** How many whole sections there are among the first `blocks` blocks. */
  function WholeSections(blocks: nat, size: nat): nat
    requires size > 0
  {
    blocks / size
  }

  /** The number of a section's first block. */
  function FirstBlock(section: nat, size: nat): nat {
    section * size
  }

  /** The heads of the first `count` sections form one chain: each descends from the one before
      by exactly `size` parent links. */
  ghost predicate Chained(heads: map<nat, Header>, count: nat, size: nat) {
    && (forall i: nat :: i in heads <==> i < count)
    && (forall i: nat :: i < count ==> Number(heads[i]) == FirstBlock(i + 1, size) - 1)
    && (forall i: nat :: 0 < i < count ==> Descends(heads[i], heads[i - 1]))
  }

  /** Up to number `n` the index is a chain linked by parent hashes. */
  ghost predicate Coherent(index: NumberIndex, n: nat) {
    && n in index && Number(index[n]) == n
    && forall k: nat :: k < n ==> k in index && index[k] == Ancestor(index[n], k)
  }

  /** Section `i` ends in the canonical block of its last number. */
  ghost predicate IsCanonical(heads: map<nat, Header>, index: NumberIndex, i: nat, size: nat)
    requires size > 0 && i in heads
  {
    var n := FirstBlock(i + 1, size) - 1;
    n in index && index[n] == heads[i]
  }

  /** If the last section is canonical, all sections are. */
  lemma {:induction false} LastSuffices(heads: map<nat, Header>, count: nat, size: nat, index: NumberIndex, i: nat)
    requires size > 0 && i < count && Chained(heads, count, size)
    requires IsCanonical(heads, index, count - 1, size) && Coherent(index, FirstBlock(count, size) - 1)
    ensures IsCanonical(heads, index, i, size)
  {
    HeadsDescend(heads, count, size, i, count - 1);
    SectionEnds(i, count - 1, size);
  }

  lemma {:induction false} HeadsDescend(heads: map<nat, Header>, count: nat, size: nat, i: nat, j: nat)
    requires size > 0 && i <= j < count && Chained(heads, count, size)
    ensures Descends(heads[j], heads[i])
    decreases j
  {
    if i < j {
      HeadsDescend(heads, count, size, i, j - 1);
      SectionEnds(i, j - 1, size);
      SectionEnds(j - 1, j, size);
      DescendsFromOlder(heads[j], heads[j - 1], heads[i]);
    }
  }

  lemma ChainedLess(heads: map<nat, Header>, count: nat, size: nat)
    requires Chained(heads, count, size) && count > 0
    ensures Chained(heads - {count - 1}, count - 1, size)
  {
    hide Descends, Number;
  }

  lemma ChainedEnd(heads: map<nat, Header>, count: nat, size: nat)
    requires Chained(heads, count, size) && count > 0 && size > 0
    ensures count - 1 in heads && Number(heads[count - 1]) == FirstBlock(count, size) - 1
  {
  }

  lemma SectionEnds(i: nat, j: nat, size: nat)
    requires i <= j
    ensures FirstBlock(i + 1, size) <= FirstBlock(j + 1, size)
  {
    assert (j + 1) * size == (i + 1) * size + (j - i) * size;
  }

  lemma SectionStep(i: nat, size: nat)
    ensures FirstBlock(i + 1, size) == FirstBlock(i, size) + size && FirstBlock(0, size) == 0
  {
  }

  function Min(a: nat, b: nat): nat {
    if b < a then b else a
  }

  function Max(a: nat, b: nat): nat {
    if b > a then b else a
  }

  datatype Event = SetChain(index: NumberIndex) | NewHead(head: nat, reorg: bool) | BeginUpdate
    | ResetFails | ReadBlock(processed: bool) | EndUpdate(committed: bool) | Query

  // ---- What each event does ----

  datatype Stage = Stage(stored: nat, known: nat, heads: map<nat, Header>, job: Option<Job>, canonical: NumberIndex)

  /** `k` is the number of whole sections among the first `blocks` blocks. */
  ghost predicate Whole(k: nat, blocks: nat, size: nat) {
    k * size <= blocks < (k + 1) * size
  }

  /** The sections from `k` on have been forgotten. */
  ghost predicate Forgets(s: Stage, t: Stage, k: nat) {
    k <= s.stored && t.stored == k && t.heads == map i | i in s.heads && i < k :: s.heads[i]
  }

  /** Sections have been forgotten until the last one is canonical, and no canonical last one. */
  ghost predicate Verifies(s: Stage, t: Stage, size: nat)
    requires size > 0
  {
    && t.stored <= s.stored && Forgets(s, t, t.stored)
    && (t.stored > 0 ==> t.stored - 1 in s.heads && IsCanonical(s.heads, s.canonical, t.stored - 1, size))
    && (forall i: nat :: t.stored <= i < s.stored ==> i in s.heads && !IsCanonical(s.heads, s.canonical, i, size))
  }

  /** After a failure: the sections are verified and no more are known than stored. */
  ghost predicate GivesUp(s: Stage, t: Stage, size: nat)
    requires size > 0
  {
    Verifies(s, t, size) && t.known == t.stored && t.job.None? && t.canonical == s.canonical
  }

  function HeadOf(heads: map<nat, Header>, section: int): Option<Header> {
    if section >= 0 && section in heads then Some(heads[section]) else None
  }

  /** The canonical block of the next number continues what the job has read. */
  ghost predicate Continues(j: Job, index: NumberIndex) {
    j.next in index && Number(index[j.next]) == j.next && ParentHash(index[j.next]) == j.last
  }

  /** Up to `head` there are `k` whole sections, and no more are known or stored. */
  ghost predicate Retreats(s: Stage, t: Stage, head: nat, size: nat, k: nat) {
    && Whole(k, head + 1, size) && t.known == (if k < s.known then k else s.known)
    && Forgets(s, t, if k < s.stored then k else s.stored) && t.job == s.job && t.canonical == s.canonical
  }

  /** Up to `head` there are `k` whole confirmed sections, and no fewer are known. */
  ghost predicate Advances(s: Stage, t: Stage, head: nat, size: nat, confirms: nat, k: nat)
    requires confirms <= head
  {
    Whole(k, head + 1 - confirms, size) && t == s.(known := if k > s.known then k else s.known)
  }

  ghost predicate Follows(s: Stage, e: Event, t: Stage, size: nat, confirms: nat)
    requires size > 0
  {
    match e
    case SetChain(index) => t == s.(canonical := index)
    case NewHead(head, reorg) =>
      if reorg then
        exists k: nat :: Retreats(s, t, head, size, k)
      else if head >= confirms then
        exists k: nat :: Advances(s, t, head, size, confirms, k)
      else t == s
    case Query => Verifies(s, t, size) && t.known == s.known && t.job == s.job && t.canonical == s.canonical
    case BeginUpdate =>
      if s.job.Some? || s.known <= s.stored then t == s else
        && Verifies(s, t, size) && t.known == s.known && t.canonical == s.canonical
        && t.job == Some(Job(t.stored, HeadOf(t.heads, t.stored - 1), FirstBlock(t.stored, size), HeadOf(t.heads, t.stored - 1)))
    case ResetFails =>
      if s.job.None? then t == s else t == Stage(0, 0, map[], None, s.canonical)
    case ReadBlock(processed) =>
      if s.job.None? || s.job.value.next >= FirstBlock(s.job.value.section + 1, size) then t == s
      else
        var j := s.job.value;
        if processed && Continues(j, s.canonical)
        then t == s.(job := Some(j.(next := j.next + 1, last := Some(s.canonical[j.next]))))
        else GivesUp(s, t, size)
    case EndUpdate(committed) =>
      if s.job.None? || s.job.value.next != FirstBlock(s.job.value.section + 1, size) then t == s
      else
        var j := s.job.value;
        if committed && (j.section == 0 || j.oldHead == HeadOf(s.heads, j.section - 1))
        then j.last.Some? && t == s.(stored := j.section + 1, heads := s.heads[j.section := j.last.value], job := None)
        else GivesUp(s, t, size)
  }

  lemma WholeIs(blocks: nat, size: nat)
    requires size > 0
    ensures Whole(WholeSections(blocks, size), blocks, size)
  {
    var k := blocks / size;
    assert blocks == k * size + blocks % size;
    assert (k + 1) * size == k * size + size;
  }

  ghost predicate Staged(stages: seq<Stage>, events: seq<Event>, size: nat, confirms: nat)
    requires size > 0
  {
    |stages| == |events| + 1 && forall i :: 0 <= i < |events| ==> Follows(stages[i], events[i], stages[i + 1], size, confirms)
  }

  // ---- Progress ----

  /** The canonical chain has all blocks of the section, linked to each other and to the block before. */
  ghost predicate HasSection(index: NumberIndex, section: nat, size: nat) {
    forall n: nat :: FirstBlock(section, size) <= n < FirstBlock(section + 1, size) ==>
      && n in index && Number(index[n]) == n
      && (n == 0 ==> ParentHash(index[n]) == None)
      && (n > 0 ==> n - 1 in index && ParentHash(index[n]) == Some(index[n - 1]))
  }

  /** A known section that the canonical chain has is stored, if its blocks are read and committed
      undisturbed. */
  lemma SectionCompletes(stages: seq<Stage>, events: seq<Event>, size: nat, confirms: nat, k: nat)
    requires size > 0 && Staged(stages, events, size, confirms) && k + size + 2 <= |events|
    requires events[k] == BeginUpdate && events[k + size + 1] == EndUpdate(true)
    requires forall i :: k < i <= k + size ==> events[i] == ReadBlock(true)
    requires var s := stages[k];
      && s.job.None? && s.known > s.stored && Chained(s.heads, s.stored, size) && HasSection(s.canonical, s.stored, size)
      && (s.stored > 0 ==> IsCanonical(s.heads, s.canonical, s.stored - 1, size))
    ensures var s, t := stages[k], stages[k + size + 2];
      var n := (s.stored + 1) * size - 1;
      n in s.canonical && t == s.(stored := s.stored + 1, heads := s.heads[s.stored := s.canonical[n]])
  {
    hide Follows, Chained, HasSection, FirstBlock, IsCanonical;
    var s := stages[k];
    SectionStep(s.stored, size);
    StartsSection(s, stages[k + 1], size, confirms);
    ReadsSection(stages, events, size, confirms, k, size);
    LastRead(s.canonical, s.stored, size);
    FirstBlockIs(s.stored + 1, size);
    EndsSection(s, stages[k + size + 1], stages[k + size + 2], size, confirms);
  }

  lemma FirstBlockIs(section: nat, size: nat)
    ensures FirstBlock(section, size) == section * size
  {
  }

  /** The stage `s` with a job that has read `count` blocks of the next section. */
  ghost function Reading(s: Stage, size: nat, count: nat): Stage {
    var start := FirstBlock(s.stored, size);
    var before := HeadOf(s.heads, s.stored - 1);
    s.(job := Some(Job(s.stored, before, start + count,
                       if count == 0 then before else if start + count - 1 in s.canonical then Some(s.canonical[start + count - 1]) else None)))
  }

  lemma StartsSection(s: Stage, t: Stage, size: nat, confirms: nat)
    requires size > 0 && Follows(s, BeginUpdate, t, size, confirms)
    requires s.job.None? && s.known > s.stored && Chained(s.heads, s.stored, size)
    requires s.stored > 0 ==> IsCanonical(s.heads, s.canonical, s.stored - 1, size)
    ensures t == Reading(s, size, 0)
  {
    hide FirstBlock;
    assert t.stored == s.stored;
    assert t.heads == s.heads;
  }

  lemma {:induction false} ReadsSection(stages: seq<Stage>, events: seq<Event>, size: nat, confirms: nat, k: nat, count: nat)
    requires size > 0 && Staged(stages, events, size, confirms) && k + size + 2 <= |events| && count <= size
    requires forall i :: k < i <= k + size ==> events[i] == ReadBlock(true)
    requires stages[k + 1] == Reading(stages[k], size, 0) && HasSection(stages[k].canonical, stages[k].stored, size)
    requires Chained(stages[k].heads, stages[k].stored, size)
    requires stages[k].stored > 0 ==> IsCanonical(stages[k].heads, stages[k].canonical, stages[k].stored - 1, size)
    ensures stages[k + 1 + count] == Reading(stages[k], size, count)
  {
    hide Follows, Chained, HasSection, FirstBlock, IsCanonical, Reading;
    if count > 0 {
      ReadsSection(stages, events, size, confirms, k, count - 1);
      assert Follows(stages[k + count], events[k + count], stages[k + count + 1], size, confirms);
      ReadsOne(stages[k], stages[k + count + 1], size, confirms, count);
    }
  }

  lemma ReadsOne(s: Stage, t: Stage, size: nat, confirms: nat, count: nat)
    requires size > 0 && 0 < count <= size && HasSection(s.canonical, s.stored, size) && Chained(s.heads, s.stored, size)
    requires s.stored > 0 ==> IsCanonical(s.heads, s.canonical, s.stored - 1, size)
    requires Follows(Reading(s, size, count - 1), ReadBlock(true), t, size, confirms)
    ensures t == Reading(s, size, count)
  {
    hide FirstBlock, Chained;
    SectionStep(s.stored, size);
    if s.stored > 0 {
      ChainedEnd(s.heads, s.stored, size);
      SectionStep(s.stored - 1, size);
    }
    var n := FirstBlock(s.stored, size) + count - 1;
    assert n in s.canonical;
  }

  lemma LastRead(index: NumberIndex, section: nat, size: nat)
    requires size > 0 && HasSection(index, section, size)
    ensures FirstBlock(section, size) + size - 1 == FirstBlock(section + 1, size) - 1 && FirstBlock(section + 1, size) > 0
    ensures FirstBlock(section + 1, size) - 1 in index
  {
    hide FirstBlock;
    SectionStep(section, size);
  }

  lemma EndsSection(s: Stage, r: Stage, t: Stage, size: nat, confirms: nat)
    requires size > 0 && r == Reading(s, size, size) && Follows(r, EndUpdate(true), t, size, confirms) && s.job.None?
    requires FirstBlock(s.stored, size) + size == FirstBlock(s.stored + 1, size) && FirstBlock(s.stored + 1, size) - 1 in s.canonical
    ensures t == s.(stored := s.stored + 1, heads := s.heads[s.stored := s.canonical[FirstBlock(s.stored + 1, size) - 1]])
  {
    hide FirstBlock;
  }

  /** The chain others have written by the end of the events. */
  function ChainAfter(index: NumberIndex, events: seq<Event>): NumberIndex {
    if events == [] then index
    else if events[|events| - 1].SetChain? then events[|events| - 1].index
    else ChainAfter(index, events[..|events| - 1])
  }

  class ChainIndexer {
    const sectionSize: nat
    const confirmsReq: nat
    var storedSections: nat
    var knownSections: nat
    var heads: map<nat, Header>
    var job: Option<Job>
    /** The canonical number index of the chain database, written by others. */
    var canonical: NumberIndex

    ghost predicate Valid()
      reads this
    {
      && sectionSize > 0 && Chained(heads, storedSections, sectionSize)
      && (job.Some? ==> Underway(job.value))
    }

    /** The blocks read so far continue the section head they started from, and no section has
        been stored meanwhile. */
    ghost predicate Underway(j: Job)
      reads this`storedSections
    {
      && storedSections <= j.section && FirstBlock(j.section, sectionSize) <= j.next <= FirstBlock(j.section + 1, sectionSize)
      && (j.oldHead.None? <==> j.section == 0)
      && (j.oldHead.Some? ==> Number(j.oldHead.value) == FirstBlock(j.section, sectionSize) - 1)
      && (j.next == FirstBlock(j.section, sectionSize) ==> j.last == j.oldHead)
      && (j.next > FirstBlock(j.section, sectionSize) ==>
            && j.last.Some? && Number(j.last.value) == j.next - 1
            && (j.oldHead.Some? ==> Descends(j.last.value, j.oldHead.value)))
    }

    constructor (sectionSize: nat, confirmsReq: nat, canonical: NumberIndex)
      requires sectionSize > 0
      ensures Valid() && storedSections == 0 && job.None?
    {
      this.sectionSize, this.confirmsReq, this.canonical := sectionSize, confirmsReq, canonical;
      storedSections, knownSections, heads, job := 0, 0, map[], None;
    }

    /** The stored head of a section, or the empty hash. */
    function SectionHead(section: int): Option<Header>
      reads this`heads
    {
      HeadOf(heads, section)
    }

    /** Forgets the sections from `sections` on. */
    method SetValidSections(sections: nat)
      requires Valid() && sections <= storedSections
      modifies this`storedSections, this`heads
      ensures Valid() && storedSections == sections
      ensures forall i: nat :: i in heads ==> i in old(heads) && heads[i] == old(heads)[i]
    {
      hide Chained, Number, Descends;
      while storedSections > sections
        invariant sections <= storedSections <= old(storedSections) && Valid()
        invariant forall i: nat :: i in heads ==> i in old(heads) && heads[i] == old(heads)[i]
      {
        ChainedLess(heads, storedSections, sectionSize);
        storedSections := storedSections - 1;
        heads := heads - {storedSections};
      }
    }

    ghost function Now(): Stage
      reads this
    {
      Stage(storedSections, knownSections, heads, job, canonical)
    }

    method OnNewHead(head: nat, reorg: bool)
      requires Valid()
      modifies this
      ensures Valid() && job == old(job) && canonical == old(canonical)
      ensures reorg ==>
                && storedSections == Min(old(storedSections), WholeSections(head + 1, sectionSize))
                && knownSections == Min(old(knownSections), WholeSections(head + 1, sectionSize))
      ensures !reorg ==>
                && heads == old(heads) && storedSections == old(storedSections)
                && knownSections == Max(old(knownSections), if head >= confirmsReq then WholeSections(head + 1 - confirmsReq, sectionSize) else 0)
      ensures forall i: nat :: i in heads ==> i in old(heads) && heads[i] == old(heads)[i]
    {
      hide Chained, WholeSections, FirstBlock, Descends, Number;
      if reorg {
        Retreat(WholeSections(head + 1, sectionSize));
      } else if head >= confirmsReq {
        knownSections := Max(knownSections, WholeSections(head + 1 - confirmsReq, sectionSize));
      }
    }

    /** The part of `newHead` for a reorganisation that leaves `known` whole sections. */
    method Retreat(known: nat)
      requires Valid()
      modifies this
      ensures Valid() && job == old(job) && canonical == old(canonical)
      ensures storedSections == Min(old(storedSections), known) && knownSections == Min(old(knownSections), known)
      ensures forall i: nat :: i in heads ==> i in old(heads) && heads[i] == old(heads)[i]
    {
      hide Chained, FirstBlock, Descends, Number;
      knownSections := Min(knownSections, known);
      if known < storedSections {
        SetValidSections(known);
      }
    }

    /** verifyLastHead: drops sections from the end until the last one is canonical. If the index
        is a linked chain then, all sections that are kept are canonical. */
    method VerifyLastHead()
      requires Valid()
      modifies this`storedSections, this`heads
      ensures Valid() && storedSections <= old(storedSections)
      ensures forall i: nat :: i in heads ==> i in old(heads) && heads[i] == old(heads)[i]
      ensures storedSections > 0 ==> IsCanonical(heads, canonical, storedSections - 1, sectionSize)
      ensures forall i: nat :: storedSections <= i < old(storedSections) ==> !IsCanonical(old(heads), canonical, i, sectionSize)
      ensures storedSections > 0 && Coherent(canonical, FirstBlock(storedSections, sectionSize) - 1) ==>
                forall i: nat :: i < storedSections ==> IsCanonical(heads, canonical, i, sectionSize)
    {
      hide Descends, Number, Coherent, FirstBlock;
      while storedSections > 0
        invariant Valid() && storedSections <= old(storedSections)
        invariant forall i: nat :: i in heads ==> i in old(heads) && heads[i] == old(heads)[i]
        invariant forall i: nat :: storedSections <= i < old(storedSections) ==> !IsCanonical(old(heads), canonical, i, sectionSize)
      {
        var n := FirstBlock(storedSections, sectionSize) - 1;
        if n in canonical && SectionHead(storedSections - 1) == Some(canonical[n]) {
          if Coherent(canonical, n) {
            forall i: nat | i < storedSections ensures IsCanonical(heads, canonical, i, sectionSize) {
              LastSuffices(heads, storedSections, sectionSize, canonical, i);
            }
          }
          return;
        }
        SetValidSections(storedSections - 1);
      }
    }

    /** The update loop takes the lock and chooses the next section to process. */
    method Begin()
      requires Valid() && job.None?
      modifies this
      ensures Valid() && canonical == old(canonical)
      ensures job.Some? <==> old(knownSections) > old(storedSections)
      ensures job.Some? ==> job.value.section == storedSections && job.value.next == FirstBlock(storedSections, sectionSize)
      ensures job.Some? ==> Verifies(old(Now()), Now(), sectionSize) && job.value.oldHead == job.value.last == HeadOf(heads, storedSections - 1)
      ensures job.None? ==> heads == old(heads) && storedSections == old(storedSections)
      ensures knownSections == old(knownSections)
    {
      hide Chained, Number, Descends, IsCanonical, Coherent;
      if knownSections > storedSections {
        VerifyLastHead();
        Verified();
        if storedSections > 0 {
          ChainedEnd(heads, storedSections, sectionSize);
        }
        var section := storedSections;
        var oldHead := if section > 0 then SectionHead(section - 1) else None;
        job := Some(Job(section, oldHead, FirstBlock(section, sectionSize), oldHead));
      }
    }

    /** The backend cannot start; this invalidates all sections, without the lock. */
    method FailReset()
      requires Valid() && job.Some?
      modifies this
      ensures Valid() && job.None? && canonical == old(canonical) && storedSections == knownSections == 0
    {
      SetValidSections(0);
      GiveUp();
    }

    /** One turn of the loop of `processSection`; `processed` is the backend's verdict. */
    method Read(processed: bool) returns (ok: bool)
      requires Valid() && job.Some? && job.value.next < FirstBlock(job.value.section + 1, sectionSize)
      modifies this`job
      ensures var j := old(job).value;
              && (ok <==> processed && j.next in canonical && Number(canonical[j.next]) == j.next && ParentHash(canonical[j.next]) == j.last)
              && job == if ok then Some(j.(next := j.next + 1, last := Some(canonical[j.next]))) else old(job)
      ensures Valid()
    {
      var j := job.value;
      if j.next !in canonical || Number(canonical[j.next]) != j.next {
        return false;
      }
      var header := canonical[j.next];
      if ParentHash(header) != j.last || !processed {
        return false;
      }
      ContinueSection(j, header);
      job := Some(j.(next := j.next + 1, last := Some(header)));
      return true;
    }

    lemma ContinueSection(j: Job, header: Header)
      requires sectionSize > 0 && Underway(j) && j.next < FirstBlock(j.section + 1, sectionSize)
      requires Number(header) == j.next && ParentHash(header) == j.last
      ensures Underway(j.(next := j.next + 1, last := Some(header)))
    {
      if j.oldHead.Some? {
        var old' := j.oldHead.value;
        assert header.Child? && Descends(header.parent, old');
        assert Number(old') < Number(header);
      }
    }

    /** Processing failed: nothing is stored, and no retry is scheduled. */
    method GiveUp()
      requires Valid() && job.Some?
      modifies this
      ensures Valid() && job.None? && canonical == old(canonical) && storedSections <= old(storedSections)
      ensures knownSections == storedSections
      ensures GivesUp(old(Now()), Now(), sectionSize)
    {
      hide Chained, Number, Descends, FirstBlock, IsCanonical, Coherent;
      job := None;
      VerifyLastHead();
      Verified();
      knownSections := storedSections;
    }

    /** All blocks of the section have been read. The section is stored if the head it was built
        on is still there; then it is exactly the next one. */
    method Finish(committed: bool) returns (stored: bool)
      requires Valid() && job.Some? && job.value.next == FirstBlock(job.value.section + 1, sectionSize)
      modifies this
      ensures Valid() && job.None? && canonical == old(canonical)
      ensures var j := old(job).value;
              stored <==> committed && (j.section == 0 || j.oldHead == old(SectionHead(j.section - 1)))
      ensures stored ==>
                && old(storedSections) == old(job).value.section && storedSections == old(storedSections) + 1
                && old(job).value.last.Some? && heads == old(heads)[old(storedSections) := old(job).value.last.value]
      ensures stored ==> knownSections == old(knownSections)
      ensures !stored ==> GivesUp(old(Now()), Now(), sectionSize)
    {
      hide IsCanonical, Coherent;
      var j := job.value;
      if committed && (j.section == 0 || j.oldHead == SectionHead(j.section - 1)) {
        StoredIsNext(j);
        heads := heads[j.section := j.last.value];
        storedSections := j.section + 1;
        job := None;
        return true;
      }
      GiveUp();
      return false;
    }

    lemma StoredIsNext(j: Job)
      requires Valid() && Underway(j) && j.next == FirstBlock(j.section + 1, sectionSize)
      requires j.section == 0 || j.oldHead == SectionHead(j.section - 1)
      ensures storedSections == j.section && j.last.Some?
      ensures Chained(heads[j.section := j.last.value], j.section + 1, sectionSize)
    {
      hide FirstBlock, Descends, Number;
      SectionStep(j.section, sectionSize);
    }

    /** Any interleaving of the update loop with chain changes, head notifications and queries
        keeps the section heads chained. `stages` is the indexer before, between and after the events. */
    method Run(events: seq<Event>) returns (ghost stages: seq<Stage>)
      requires Valid()
      modifies this
      ensures Valid() && canonical == ChainAfter(old(canonical), events)
      ensures Staged(stages, events, sectionSize, confirmsReq) && stages[0] == old(Now()) && stages[|events|] == Now()
      ensures forall i :: 0 <= i < |stages| ==> Chained(stages[i].heads, stages[i].stored, sectionSize)
    {
      hide *;
      ValidIs();
      stages := [Now()];
      ChainAfterStep(canonical, []);
      assert events[..0] == [];
      for i := 0 to |events|
        invariant Valid() && sectionSize > 0 && canonical == ChainAfter(old(canonical), events[..i])
        invariant |stages| == i + 1 && stages[0] == old(Now()) && stages[i] == Now()
        invariant forall j :: 0 <= j < i ==> Follows(stages[j], events[j], stages[j + 1], sectionSize, confirmsReq)
        invariant forall j :: 0 <= j <= i ==> Chained(stages[j].heads, stages[j].stored, sectionSize)
      {
        Handle(events[i]);
        ValidIs();
        assert events[..i + 1][..i] == events[..i];
        ChainAfterStep(old(canonical), events[..i + 1]);
        stages := stages + [Now()];
      }
      assert events[..|events|] == events;
      StagedIs(stages, events, sectionSize, confirmsReq);
    }

    lemma ValidIs()
      ensures Valid() ==> sectionSize > 0 && Chained(Now().heads, Now().stored, sectionSize)
    {
    }

    /** One event. */
    method Handle(event: Event)
      requires Valid()
      modifies this
      ensures Valid() && Follows(old(Now()), event, Now(), sectionSize, confirmsReq)
      ensures canonical == if event.SetChain? then event.index else old(canonical)
    {
      hide Chained, Descends, Number, Underway;
      match event {
        case SetChain(index) => canonical := index;
        case NewHead(head, reorg) =>
          OnNewHead(head, reorg);
          HeadNoted(head, reorg);
        case Query =>
          VerifyLastHead();
          Verified();
        case BeginUpdate =>
          if job.None? {
            Begin();
          }
        case ResetFails =>
          if job.Some? {
            FailReset();
            NoneLeft();
          }
        case ReadBlock(processed) =>
          if job.Some? && job.value.next < FirstBlock(job.value.section + 1, sectionSize) {
            var ok := Read(processed);
            if !ok {
              GiveUp();
            }
          }
        case EndUpdate(committed) =>
          if job.Some? && job.value.next == FirstBlock(job.value.section + 1, sectionSize) {
            var _ := Finish(committed);
          }
      }
    }

    /** Dropping sections from the end leaves exactly the heads below. */
    twostate lemma OnlyBelow()
      requires old(Valid()) && Valid() && storedSections <= old(storedSections)
      requires forall i: nat :: i in heads ==> i in old(heads) && heads[i] == old(heads)[i]
      ensures Forgets(old(Now()), Now(), storedSections)
    {
      hide Number, Descends, FirstBlock;
    }

    twostate lemma NoneLeft()
      requires Valid() && storedSections == 0
      ensures heads == map[]
    {
    }

    twostate lemma Verified()
      requires old(Valid()) && Valid() && storedSections <= old(storedSections) && canonical == old(canonical)
      requires forall i: nat :: i in heads ==> i in old(heads) && heads[i] == old(heads)[i]
      requires storedSections > 0 ==> IsCanonical(heads, canonical, storedSections - 1, sectionSize)
      requires forall i: nat :: storedSections <= i < old(storedSections) ==> !IsCanonical(old(heads), canonical, i, sectionSize)
      ensures Verifies(old(Now()), Now(), sectionSize)
    {
      hide Number, Descends, FirstBlock;
      OnlyBelow();
    }

    twostate lemma HeadNoted(new head: nat, new reorg: bool)
      requires old(Valid()) && Valid() && job == old(job) && canonical == old(canonical)
      requires reorg ==>
                 && storedSections == Min(old(storedSections), WholeSections(head + 1, sectionSize))
                 && knownSections == Min(old(knownSections), WholeSections(head + 1, sectionSize))
      requires !reorg ==>
                 && heads == old(heads) && storedSections == old(storedSections)
                 && knownSections == Max(old(knownSections), if head >= confirmsReq then WholeSections(head + 1 - confirmsReq, sectionSize) else 0)
      requires forall i: nat :: i in heads ==> i in old(heads) && heads[i] == old(heads)[i]
      ensures Follows(old(Now()), NewHead(head, reorg), Now(), sectionSize, confirmsReq)
    {
      hide Chained, WholeSections, Whole, Descends, Number, FirstBlock, Forgets;
      if reorg {
        OnlyBelow();
        WholeIs(head + 1, sectionSize);
        assert Retreats(old(Now()), Now(), head, sectionSize, WholeSections(head + 1, sectionSize));
      } else if head >= confirmsReq {
        WholeIs(head + 1 - confirmsReq, sectionSize);
        assert Advances(old(Now()), Now(), head, sectionSize, confirmsReq, WholeSections(head + 1 - confirmsReq, sectionSize));
      }
    }
  }

  lemma StagedIs(stages: seq<Stage>, events: seq<Event>, size: nat, confirms: nat)
    requires size > 0 && |stages| == |events| + 1
    requires forall i :: 0 <= i < |events| ==> Follows(stages[i], events[i], stages[i + 1], size, confirms)
    ensures Staged(stages, events, size, confirms)
  {
  }

  lemma ChainAfterStep(index: NumberIndex, events: seq<Event>)
    ensures ChainAfter(index, events) ==
      if events == [] then index
      else if events[|events| - 1].SetChain? then events[|events| - 1].index
      else ChainAfter(index, events[..|events| - 1])
  {
  }
}
