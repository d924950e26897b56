/** Headers linked by parent hashes. A hash determines the header it belongs to and, through
    the parent hash, all its ancestors; so a header is identified with its hash and holds
    its parent. */
module Headers {
  datatype Header = Genesis(difficulty: nat, seal: nat) | Child(parent: Header, difficulty: nat, seal: nat)

  /** One header per number. */
  type NumberIndex = map<nat, Header>

  function Number(h: Header): nat {
    match h
    case Genesis(_, _) => 0
    case Child(parent, _, _) => Number(parent) + 1
  }

  /** The sum of the difficulties of a header and all its ancestors. */
  function TotalDifficulty(h: Header): nat {
    match h
    case Genesis(d, _) => d
    case Child(parent, d, _) => TotalDifficulty(parent) + d
  }

  /** The ancestor with the given number; a header is its own ancestor. */
  function Ancestor(h: Header, n: nat): (a: Header)
    requires n <= Number(h)
    ensures Number(a) == n
  {
    if n == Number(h) then h else Ancestor(h.parent, n)
  }

  /** `a` is `h` or one of its ancestors. */
  ghost predicate Descends(h: Header, a: Header) {
    Number(a) <= Number(h) && Ancestor(h, Number(a)) == a
  }

  lemma {:induction false} AncestorOfAncestor(h: Header, m: nat, n: nat)
    requires n <= m <= Number(h)
    ensures Ancestor(Ancestor(h, m), n) == Ancestor(h, n)
  {
    if m < Number(h) {
      AncestorOfAncestor(h.parent, m, n);
    }
  }

  /** `path` is the number index of the ancestors of `h`, and nothing else. */
  ghost predicate IsPath(path: map<nat, Header>, h: Header) {
    && (forall n: nat :: n in path <==> n <= Number(h))
    && (forall n: nat :: n <= Number(h) ==> path[n] == Ancestor(h, n))
  }

  /** A set of headers with all their ancestors, back to one genesis header. */
  ghost predicate Rooted(headers: set<Header>, genesis: Header) {
    && genesis.Genesis? && genesis in headers
    && (forall h :: h in headers && h.Child? ==> h.parent in headers)
    && (forall h :: h in headers && h.Genesis? ==> h == genesis)
  }

  lemma {:induction false} AncestorStored(headers: set<Header>, genesis: Header, h: Header, n: nat)
    requires Rooted(headers, genesis) && h in headers && n <= Number(h)
    ensures Ancestor(h, n) in headers && Ancestor(h, 0) == genesis
    decreases h
  {
    if h.Child? {
      AncestorStored(headers, genesis, h.parent, if n < Number(h) then n else 0);
    }
  }

  lemma {:induction false} DescendsFromOlder(h: Header, a: Header, b: Header)
    requires Descends(h, a) && Descends(a, b)
    ensures Descends(h, b)
  {
    AncestorOfAncestor(h, Number(a), Number(b));
  }

  lemma {:induction false} DifficultyGrows(h: Header, n: nat)
    requires n <= Number(h)
    ensures TotalDifficulty(Ancestor(h, n)) <= TotalDifficulty(h)
    decreases h
  {
    if n < Number(h) {
      DifficultyGrows(h.parent, n);
    }
  }

  /** Headers that follow each other. */
  ghost predicate Linked(s: seq<Header>) {
    forall i :: 0 < i < |s| ==> s[i].Child? && s[i].parent == s[i - 1]
  }

  lemma {:induction false} LinkedAncestors(s: seq<Header>, i: nat, j: nat)
    requires Linked(s) && i <= j < |s|
    ensures Number(s[j]) == Number(s[i]) + (j - i) && Ancestor(s[j], Number(s[i])) == s[i]
    decreases j
  {
    if i < j {
      LinkedAncestors(s, i, j - 1);
    }
  }

  lemma {:induction false} LinkedBelow(s: seq<Header>, j: nat, n: nat)
    requires Linked(s) && j < |s| && s[0].Child? && n < Number(s[0])
    ensures Number(s[j]) >= Number(s[0]) && Ancestor(s[j], n) == Ancestor(s[0].parent, n)
  {
    LinkedAncestors(s, 0, j);
    AncestorOfAncestor(s[j], Number(s[0]), n);
  }
}
