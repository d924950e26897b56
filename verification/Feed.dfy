/** The event feed of event/feed.go. `Send` works in place on the array of select cases: the
    cases still to be served are a prefix of it, and it shrinks from both ends. */
module Feeds {
  type Channel = nat

  /** A select case: the one that receives removal requests, or a subscription. */
  datatype Case = RemoveSub | Sub(id: nat, channel: Channel)

  /** Case 0 receives removal requests, all others are subscriptions. */
  ghost predicate WellFormed(s: seq<Case>) {
    s != [] && s[0] == RemoveSub && forall i :: 0 < i < |s| ==> s[i].Sub?
  }

  function Swap(s: seq<Case>, i: nat, j: nat): seq<Case>
    requires i < |s| && j < |s|
  {
    s[i := s[j]][j := s[i]]
  }

  function Without(s: seq<Case>, i: nat): seq<Case>
    requires i < |s|
  {
    s[..i] + s[i + 1..]
  }

  /** The subscriptions that still have to be served, if the first `m` cases are active. */
  ghost function Active(s: seq<Case>, m: nat): multiset<Case>
    requires 1 <= m <= |s|
  {
    multiset(s[1..m])
  }

  ghost function Served(s: seq<Case>, m: nat): multiset<Case>
    requires m <= |s|
  {
    multiset(s[m..])
  }

  lemma DropAt(u: seq<Case>, k: nat)
    requires k < |u|
    ensures multiset(u[..k] + u[k + 1..]) == multiset(u) - multiset{u[k]} && u[k] in multiset(u)
  {
    assert u == u[..k] + [u[k]] + u[k + 1..];
  }

  /** The last case takes the place of case `k`. */
  function Filled(u: seq<Case>, k: nat): seq<Case>
    requires k < |u|
  {
    u[k := u[|u| - 1]][..|u| - 1]
  }

  lemma DropSwapped(u: seq<Case>, k: nat)
    requires k < |u|
    ensures multiset(Filled(u, k)) == multiset(u) - multiset{u[k]} && u[k] in multiset(u)
  {
    var v, last := u[..|u| - 1], u[|u| - 1];
    assert u == v + [last];
    if k < |v| {
      assert u[k := last][..|v|] == v[k := last];
    } else {
      assert u[k := last][..|v|] == v;
    }
  }

  lemma DeleteKeeps(s: seq<Case>, i: nat)
    requires WellFormed(s) && 1 <= i < |s|
    ensures WellFormed(Without(s, i))
  {
  }

  lemma MinusFirst(a: multiset<Case>, b: multiset<Case>, c: Case)
    requires c in a
    ensures c in a + b && (a - multiset{c}) + b == a + b - multiset{c} && b + (a - multiset{c}) == a + b - multiset{c}
  {
  }

  /** Deactivating a case moves it from the active to the served ones. */
  lemma DeactivateMoves(s: seq<Case>, m: nat, i: nat)
    requires 1 <= i < m <= |s|
    ensures var t := Swap(s, i, m - 1);
      && Active(t, m - 1) == Active(s, m) - multiset{s[i]} && Served(t, m - 1) == Served(s, m) + multiset{s[i]}
      && s[i] in Active(s, m)
  {
    hide Swap, Active, Served;
    SwappedTail(s, m, i);
    SwappedFront(s, m, i);
  }

  lemma SwappedTail(s: seq<Case>, m: nat, i: nat)
    requires 1 <= i < m <= |s|
    ensures Served(Swap(s, i, m - 1), m - 1) == Served(s, m) + multiset{s[i]}
  {
    var t := Swap(s, i, m - 1);
    assert |t| == |s| && t[m - 1] == s[i];
    assert t[m..] == s[m..];
    assert t[m - 1..] == [s[i]] + s[m..];
  }

  lemma SwappedFront(s: seq<Case>, m: nat, i: nat)
    requires 1 <= i < m <= |s|
    ensures Active(Swap(s, i, m - 1), m - 1) == Active(s, m) - multiset{s[i]} && s[i] in Active(s, m)
  {
    hide *;
    FrontSwapped(s, m, i);
    ActiveIs(s, m);
    ActiveIs(Swap(s, i, m - 1), m - 1);
    DropSwapped(s[1..m], i - 1);
  }

  lemma ActiveIs(s: seq<Case>, m: nat)
    requires 1 <= m <= |s|
    ensures Active(s, m) == multiset(s[1..m])
  {
  }

  lemma FrontSwapped(s: seq<Case>, m: nat, i: nat)
    requires 1 <= i < m <= |s|
    ensures |Swap(s, i, m - 1)| == |s|
    ensures var u := s[1..m]; Swap(s, i, m - 1)[1..m - 1] == Filled(u, i - 1) && u[i - 1] == s[i]
  {
    var t, u := Swap(s, i, m - 1), s[1..m];
    var v := u[i - 1 := u[|u| - 1]];
    var front, rest := t[1..m - 1], v[..|u| - 1];
    assert |t| == |s| && |v| == m - 1;
    forall k | 0 <= k < |front| ensures front[k] == rest[k] {
      assert front[k] == t[k + 1] && rest[k] == v[k];
    }
  }

  lemma DeleteActive(s: seq<Case>, m: nat, i: nat)
    requires 1 <= i < m <= |s|
    ensures var t := Without(s, i);
      Active(t, m - 1) == Active(s, m) - multiset{s[i]} && Served(t, m - 1) == Served(s, m) && s[i] in Active(s, m)
  {
    var t, u := Without(s, i), s[1..m];
    assert t[m - 1..] == s[m..];
    assert t[1..m - 1] == s[1..i] + s[i + 1..m];
    assert u[..i - 1] == s[1..i] && u[i..] == s[i + 1..m];
    DropAt(u, i - 1);
  }

  lemma DeleteAny(s: seq<Case>, i: nat)
    requires 1 <= i < |s|
    ensures multiset(Without(s, i)[1..]) == multiset(s[1..]) - multiset{s[i]} && s[i] in multiset(s[1..])
  {
    DeleteActive(s, |s|, i);
    assert s[1..|s|] == s[1..];
    assert Without(s, i)[1..|s| - 1] == Without(s, i)[1..];
  }

  lemma DeleteServed(s: seq<Case>, m: nat, i: nat)
    requires 1 <= m <= i < |s|
    ensures var t := Without(s, i);
      Active(t, m) == Active(s, m) && Served(t, m) == Served(s, m) - multiset{s[i]} && s[i] in Served(s, m)
  {
    var t, u := Without(s, i), s[m..];
    assert t[1..m] == s[1..m];
    assert t[m..] == u[..i - m] + u[i - m + 1..];
    DropAt(u, i - m);
  }

  class Feed {
    /** The select cases are the first `count` entries of `cases`. */
    var cases: array<Case>
    var count: nat
    var inbox: seq<Case>

    ghost predicate Valid()
      reads this, cases
    {
      && 1 <= count <= cases.Length && WellFormed(cases[..count])
      && forall c :: c in inbox ==> c.Sub?
    }

    /** All subscriptions. */
    ghost function Subscribers(): multiset<Case>
      requires Valid()
      reads this, cases
    {
      multiset(cases[..count][1..]) + multiset(inbox)
    }

    constructor ()
      ensures Valid() && Subscribers() == multiset{}
    {
      cases := new Case[1][RemoveSub];
      count, inbox := 1, [];
    }

    method Subscribe(id: nat, channel: Channel)
      requires Valid()
      modifies this`inbox
      ensures Valid() && Subscribers() == old(Subscribers()) + multiset{Sub(id, channel)}
    {
      inbox := inbox + [Sub(id, channel)];
    }

    /** The first case with the given channel, or the number of cases. */
    method Find(channel: Channel) returns (index: nat)
      requires Valid()
      ensures 1 <= index <= count
      ensures forall k :: 1 <= k < index ==> cases[k].channel != channel
      ensures index < count ==> cases[index].channel == channel
    {
      index := 1;
      while index < count
        invariant 1 <= index <= count && forall k :: 1 <= k < index ==> cases[k].channel != channel
      {
        assert cases[..count][index].Sub?;
        if cases[index].channel == channel {
          return;
        }
        index := index + 1;
      }
    }

    /** Shifts the cases behind `index` one place to the front. */
    method Delete(index: nat)
      requires Valid() && 1 <= index < count
      modifies this`count, cases
      ensures Valid() && count == old(count) - 1 && cases[..count] == Without(old(cases[..count]), index)
    {
      hide WellFormed;
      DeleteKeeps(cases[..count], index);
      for k := index to count - 1
        invariant count == old(count) && cases == old(cases)
        invariant forall j :: 0 <= j < count ==> cases[j] == old(cases[if index <= j < k then j + 1 else j])
      {
        cases[k] := cases[k + 1];
      }
      count := count - 1;
      assert cases[..count] == Without(old(cases[..count]), index);
    }

    method Deactivate(index: nat, m: nat)
      requires Valid() && 1 <= index < m <= count
      modifies cases
      ensures Valid() && cases[..count] == Swap(old(cases[..count]), index, m - 1)
    {
      cases[index], cases[m - 1] := cases[m - 1], cases[index];
    }

    /** Takes the first subscription of a channel out of the inbox. */
    method RemoveFromInbox(channel: Channel) returns (found: bool, removed: Case)
      requires forall c :: c in inbox ==> c.Sub?
      modifies this`inbox
      ensures found ==> removed.Sub? && removed.channel == channel && removed in multiset(old(inbox))
      ensures found ==> multiset(inbox) == multiset(old(inbox)) - multiset{removed} && forall c :: c in inbox ==> c.Sub?
      ensures !found ==> inbox == old(inbox) && forall c :: c in inbox ==> c.channel != channel
    {
      var i := 0;
      while i < |inbox|
        invariant 0 <= i <= |inbox| && inbox == old(inbox) && forall k :: 0 <= k < i ==> inbox[k].channel != channel
      {
        if inbox[i].channel == channel {
          removed := inbox[i];
          DropAt(inbox, i);
          inbox := inbox[..i] + inbox[i + 1..];
          return true, removed;
        }
        i := i + 1;
      }
      return false, RemoveSub;
    }

    /** Unsubscribes a channel while no `Send` is in progress. */
    method Remove(channel: Channel) returns (removed: Case)
      requires Valid() && Subscribed(channel)
      modifies this`inbox, this`count, cases
      ensures Valid() && removed.Sub? && removed.channel == channel
      ensures removed in old(Subscribers()) && Subscribers() == old(Subscribers()) - multiset{removed}
    {
      hide WellFormed, Without;
      ghost var c :| c in Subscribers() && c.Sub? && c.channel == channel;
      ghost var a, b := multiset(cases[..count][1..]), multiset(inbox);
      var found;
      found, removed := RemoveFromInbox(channel);
      if !found {
        assert c in cases[..count][1..];
        removed := RemoveCase(channel, c);
        MinusFirst(a, b, removed);
      } else {
        MinusFirst(b, a, removed);
        assert a + b == b + a;
      }
    }

    /** Deletes the first case of a channel that has one. */
    method RemoveCase(channel: Channel, ghost c: Case) returns (removed: Case)
      requires Valid() && c in cases[..count][1..] && c.Sub? && c.channel == channel
      modifies this`count, cases
      ensures Valid() && removed.Sub? && removed.channel == channel
      ensures removed in old(multiset(cases[..count][1..]))
      ensures multiset(cases[..count][1..]) == old(multiset(cases[..count][1..])) - multiset{removed}
    {
      hide WellFormed, Without;
      var index := Find(channel);
      FoundInCases(c, index);
      removed := cases[index];
      DeleteAny(cases[..count], index);
      Delete(index);
    }

    ghost predicate Subscribed(channel: Channel)
      requires Valid()
      reads this, cases
    {
      exists c :: c in Subscribers() && c.Sub? && c.channel == channel
    }

    lemma FoundInCases(c: Case, index: nat)
      requires Valid() && c in cases[..count][1..]
      requires 1 <= index <= count && forall k :: 1 <= k < index ==> cases[k].channel != c.channel
      ensures c.Sub? && index < count && cases[index].Sub?
    {
      var k :| 0 <= k < |cases[..count][1..]| && cases[..count][1..][k] == c;
      assert cases[..count][k + 1] == c;
      assert cases[..count][index].Sub?;
    }

    /** Moves the new subscriptions from the inbox to the cases. */
    method TakeInbox()
      requires Valid()
      modifies this
      ensures Valid() && fresh(cases) && inbox == [] && count >= 1
      ensures cases[..count] == old(cases[..count]) + old(inbox)
    {
      var all := cases[..count] + inbox;
      var grown := new Case[|all|](i requires 0 <= i < |all| => all[i]);
      assert grown[..] == all;
      cases, count, inbox := grown, |all|, [];
    }

    /** The fast path: tries every active subscription once without blocking. Which of them
        have room is up to the receivers. */
    method TrySend(active: nat) returns (m: nat, nsent: nat, ghost sent: multiset<Case>)
      requires Valid() && 1 <= active <= count
      modifies cases
      ensures Valid() && 1 <= m <= active && nsent == |sent|
      ensures Active(cases[..count], m) + sent == old(Active(cases[..count], active))
      ensures Served(cases[..count], m) == old(Served(cases[..count], active)) + sent
    {
      hide WellFormed, Active, Served, Swap;
      m, nsent, sent := active, 0, multiset{};
      var i := 1;
      while i < m
        invariant Valid() && 1 <= i <= m <= active && nsent == |sent|
        invariant Active(cases[..count], m) + sent == old(Active(cases[..count], active))
        invariant Served(cases[..count], m) == old(Served(cases[..count], active)) + sent
        decreases m - i
      {
        var accepted: bool := *;
        if accepted {
          DeactivateMoves(cases[..count], m, i);
          sent := sent + multiset{cases[i]};
          nsent := nsent + 1;
          Deactivate(i, m);
          m := m - 1;
        } else {
          i := i + 1;
        }
      }
    }

    /** Serves a removal request during `Send`; which channel it names is up to the requester. */
    method DropOne(active: nat) returns (m: nat, ghost removed: Case)
      requires Valid() && 1 < active <= count
      modifies this`count, cases
      ensures Valid() && 1 <= m <= count && count == old(count) - 1 && (m == active || m == active - 1)
      ensures m < active ==> Active(cases[..count], m) + multiset{removed} == old(Active(cases[..count], active))
                             && Served(cases[..count], m) == old(Served(cases[..count], active))
      ensures m == active ==> Active(cases[..count], m) == old(Active(cases[..count], active))
                              && Served(cases[..count], m) + multiset{removed} == old(Served(cases[..count], active))
    {
      hide WellFormed, Active, Served, Without;
      var k: nat :| 1 <= k < count;
      IsSub(k);
      var index := Find(cases[k].channel);
      removed := cases[index];
      if index < active {
        DeleteActive(cases[..count], active, index);
        m := active - 1;
      } else {
        DeleteServed(cases[..count], active, index);
        m := active;
      }
      Delete(index);
    }

    lemma IsSub(k: nat)
      requires Valid() && 1 <= k < count
      ensures cases[k].Sub?
    {
      assert cases[..count][k].Sub?;
    }

    /** The blocking select: one active subscription is served, or a removal request is. */
    method Select(active: nat, ghost all: multiset<Case>, ghost books: Books) returns (m: nat, nsent: nat, ghost after: Books)
      requires Valid() && 1 < active <= count
      requires Balanced(all, Active(cases[..count], active), Served(cases[..count], active), books)
      modifies this`count, cases
      ensures Valid() && 1 <= m <= count && m + count < active + old(count)
      ensures Balanced(all, Active(cases[..count], m), Served(cases[..count], m), after)
      ensures |after.delivered| == |books.delivered| + nsent
    {
      hide WellFormed, Active, Served, Balanced, Swap;
      ghost var a, s := Active(cases[..count], active), Served(cases[..count], active);
      var chosen: nat :| chosen < active;
      if chosen == 0 {
        ghost var gone;
        m, gone := DropOne(active);
        nsent, after := 0, Removed(books, gone, m == active);
        BalanceDropped(all, a, s, books, Active(cases[..count], m), Served(cases[..count], m), gone, m == active);
      } else {
        DeactivateMoves(cases[..count], active, chosen);
        ghost var sent := multiset{cases[chosen]};
        Deactivate(chosen, active);
        m, nsent, after := active - 1, 1, Sent(books, sent);
        BalanceSent(all, a, s, books, Active(cases[..count], m), Served(cases[..count], m), sent);
      }
    }

    /** Delivers to every subscription exactly once, except that one which is removed meanwhile
        is served once (`late`) or not at all. */
    method Send() returns (nsent: nat, ghost books: Books)
      requires Valid()
      modifies this, cases
      ensures Valid() && inbox == []
      ensures Subscribers() + books.removed == old(Subscribers())
      ensures books.delivered == Subscribers() + books.late && books.late <= books.removed
      ensures nsent == |books.delivered|
    {
      hide WellFormed, Active, Served, Balanced;
      ghost var all := Subscribers();
      TakenInbox();
      TakeInbox();
      var m := count;
      nsent, books := 0, Books(multiset{}, multiset{}, multiset{});
      AllActive(cases[..count]);
      while true
        invariant Valid() && 1 <= m <= count && inbox == [] && fresh(cases) && nsent == |books.delivered|
        invariant Balanced(all, Active(cases[..count], m), Served(cases[..count], m), books)
        decreases count + m
      {
        ghost var a, s := Active(cases[..count], m), Served(cases[..count], m);
        ghost var sent;
        var n;
        m, n, sent := TrySend(m);
        BalanceSent(all, a, s, books, Active(cases[..count], m), Served(cases[..count], m), sent);
        nsent, books := nsent + n, Sent(books, sent);
        if m == 1 {
          break;
        }
        m, n, books := Select(m, all, books);
        nsent := nsent + n;
      }
      AllServed(cases[..count]);
      BalanceAtEnd(all, Served(cases[..count], 1), books);
    }

    lemma TakenInbox()
      requires Valid()
      ensures multiset((cases[..count] + inbox)[1..]) == Subscribers()
    {
      assert (cases[..count] + inbox)[1..] == cases[..count][1..] + inbox;
    }
  }

  /** What `Send` has delivered and removed so far; `late` was removed after it was served. */
  datatype Books = Books(delivered: multiset<Case>, removed: multiset<Case>, late: multiset<Case>)

  function Sent(b: Books, sent: multiset<Case>): Books {
    b.(delivered := b.delivered + sent)
  }

  function Removed(b: Books, gone: Case, served: bool): Books {
    b.(removed := b.removed + multiset{gone}, late := if served then b.late + multiset{gone} else b.late)
  }

  /** Every subscription is active, served or removed, and what has been delivered is what is
      served and what was removed after it had been served. */
  ghost predicate Balanced(all: multiset<Case>, active: multiset<Case>, served: multiset<Case>, b: Books) {
    active + served + b.removed == all && b.delivered == served + b.late && b.late <= b.removed
  }

  lemma BalanceSent(all: multiset<Case>, a: multiset<Case>, s: multiset<Case>, b: Books,
                    a': multiset<Case>, s': multiset<Case>, sent: multiset<Case>)
    requires Balanced(all, a, s, b) && s' == s + sent
    requires a' + sent == a || (sent <= a && a' == a - sent)
    ensures Balanced(all, a', s', Sent(b, sent))
  {
    assert a' + sent == a;
    assert a' + (s + sent) == (a' + sent) + s;
  }

  lemma BalanceDropped(all: multiset<Case>, a: multiset<Case>, s: multiset<Case>, b: Books,
                       a': multiset<Case>, s': multiset<Case>, gone: Case, served: bool)
    requires Balanced(all, a, s, b)
    requires if served then a' == a && s' + multiset{gone} == s else a' + multiset{gone} == a && s' == s
    ensures Balanced(all, a', s', Removed(b, gone, served))
  {
    assert a' + s' + multiset{gone} == a + s;
    assert a' + s' + (b.removed + multiset{gone}) == (a' + s' + multiset{gone}) + b.removed;
    if served {
      assert s' + (b.late + multiset{gone}) == (s' + multiset{gone}) + b.late;
    }
  }

  lemma BalanceAtEnd(all: multiset<Case>, s: multiset<Case>, b: Books)
    requires Balanced(all, multiset{}, s, b)
    ensures s + b.removed == all && b.delivered == s + b.late && b.late <= b.removed
  {
  }

  lemma AllActive(s: seq<Case>)
    requires s != []
    ensures Active(s, |s|) == multiset(s[1..]) && Served(s, |s|) == multiset{}
    ensures Balanced(multiset(s[1..]), Active(s, |s|), Served(s, |s|), Books(multiset{}, multiset{}, multiset{}))
  {
    assert s[1..|s|] == s[1..];
  }

  lemma AllServed(s: seq<Case>)
    requires s != []
    ensures Active(s, 1) == multiset{} && Served(s, 1) == multiset(s[1..])
  {
  }

  /** If no subscription is listed twice, `Send` serves each of them at most once, and exactly
      once those that stay. */
  lemma ExactlyOnce(before: multiset<Case>, after: multiset<Case>, b: Books, c: Case)
    requires after + b.removed == before && b.delivered == after + b.late && b.late <= b.removed && before[c] <= 1
    ensures b.delivered[c] <= 1 && (c in after ==> b.delivered[c] == 1) && (b.delivered[c] == 1 ==> c in before)
  {
    assert before[c] == after[c] + b.removed[c];
  }
}
