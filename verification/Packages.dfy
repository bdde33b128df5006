/** The shared list of packages, found and removed by a prefix of their identifier. */
module Packages {
  import opened Bytes
  import Queue

  class Bpkg {
    const ident: seq<byte> // the identifier's characters, without its NUL

    constructor (ident: seq<byte>)
      ensures this.ident == ident
    {
      this.ident := ident;
    }
  }

  /** strncmp over the query's length: the query is a prefix of the identifier. */
  predicate IdentMatches(ident: seq<byte>, query: seq<byte>) { query <= ident }

  /** The position of the first package whose identifier the query matches, or the length. */
  function FirstMatch(list: seq<Bpkg>, query: seq<byte>): (k: nat)
    ensures k <= |list| && (k < |list| ==> IdentMatches(list[k].ident, query))
    ensures forall j | 0 <= j < k :: !IdentMatches(list[j].ident, query)
  {
    if list == [] || IdentMatches(list[0].ident, query) then 0 else 1 + FirstMatch(list[1..], query)
  }

  /** The first package with an identifier that starts with the query, which a longer query never does. */
  lemma FirstMatchIs(list: seq<Bpkg>, query: seq<byte>, k: nat)
    requires k <= |list|
    ensures k == FirstMatch(list, query) <==>
      && (k < |list| ==> |query| <= |list[k].ident| && list[k].ident[..|query|] == query)
      && forall j | 0 <= j < k :: |query| <= |list[j].ident| ==> list[j].ident[..|query|] != query
  {
    var f := FirstMatch(list, query);
    if k < f {
      assert !IdentMatches(list[k].ident, query);
    } else if f < k {
      assert IdentMatches(list[f].ident, query);
    }
  }

  /** What strncmp over the query's length says of an identifier with its NUL and whatever memory holds after it. */
  lemma {:induction false} StrncmpIsPrefix(ident: seq<byte>, query: seq<byte>, after: seq<byte>)
    requires NoNul(query) && |query| <= |ident + [NUL] + after|
    ensures StrnEqual(ident + [NUL] + after, query, |query|) <==> IdentMatches(ident, query)
  {
    var text := ident + [NUL] + after;
    if query != [] {
      assert text[0] == if ident == [] then NUL else ident[0];
      if ident != [] && ident[0] == query[0] {
        assert text[1..] == ident[1..] + [NUL] + after;
        assert ident == [ident[0]] + ident[1..] && query == [query[0]] + query[1..];
        StrncmpIsPrefix(ident[1..], query[1..], after);
      }
    }
  }

  function Without<T>(s: seq<T>, k: nat): (r: seq<T>)
    ensures k >= |s| ==> r == s
    ensures k < |s| ==> |r| == |s| - 1 && forall j | 0 <= j < |r| :: r[j] == if j < k then s[j] else s[j + 1]
  {
    if k < |s| then s[..k] + s[k + 1..] else s
  }

  /** Comparing characters as strncmp does, up to the query's length; an identifier ends in a NUL. */
  method PrefixCompare(query: seq<byte>, ident: seq<byte>) returns (equal: bool)
    ensures equal <==> IdentMatches(ident, query)
  {
    var k := 0;
    while k < |query|
      invariant 0 <= k <= |query| && k <= |ident| && query[..k] == ident[..k]
    {
      if k == |ident| || query[k] != ident[k] {
        assert k < |ident| ==> query[k] != ident[k];
        return false;
      }
      k := k + 1;
    }
    assert query[..k] == query;
    return true;
  }

  lemma CountUp(n: nat)
    ensures (n % 0x100 + 1) % 0x100 == (n + 1) % 0x100
  {}

  lemma CountDown(n: nat)
    ensures n > 0 ==> (n % 0x100 + 0xFF) % 0x100 == (n - 1) % 0x100
  {}

  class Packages {
    const ls: Queue.Queue<Bpkg>
    var count: nat // held in eight bits

    ghost predicate Valid()
      reads this, ls, ls.spine
    {
      ls.Valid() && count == |ls.Contents()| % 0x100
    }

    /** pkgs_init. */
    constructor ()
      ensures Valid() && fresh(ls) && ls.Contents() == [] && count == 0
    {
      ls := new Queue.Queue<Bpkg>();
      count := 0;
    }

    /** pkgs_add. */
    method Add(bpkg: Bpkg) returns (r: int)
      requires Valid()
      modifies this, ls, ls.spine
      ensures Valid() && r == 1 && ls.Contents() == old(ls.Contents()) + [bpkg]
    {
      CountUp(|ls.Contents()|);
      ls.Enqueue(bpkg);
      count := (count + 1) % 0x100;
      r := 1;
    }

    /** pkg_find_by_ident. */
    method FindByIdent(query: seq<byte>) returns (res: Bpkg?)
      requires Valid()
      ensures var list := ls.Contents();
        var k := FirstMatch(list, query);
        res == if k < |list| then list[k] else null
      ensures res != null ==> query <= res.ident
      ensures res == null ==> forall j | 0 <= j < |ls.Contents()| :: !(query <= ls.Contents()[j].ident)
    {
      ghost var list, k := ls.Contents(), 0;
      var curr := ls.head;
      while curr != null
        invariant 0 <= k <= |list| && (k < |list| ==> curr == ls.spine[k]) && (k == |list| ==> curr == null)
        invariant forall j | 0 <= j < k :: !IdentMatches(list[j].ident, query)
        decreases |list| - k
      {
        var equal := PrefixCompare(query, curr.data.ident);
        if equal {
          assert IdentMatches(list[k].ident, query);
          return curr.data;
        }
        assert curr == ls.spine[k];
        curr := curr.next;
        k := k + 1;
      }
      return null;
    }

    /** pkgs_rem. */
    method Remove(ident: seq<byte>) returns (r: int)
      requires Valid()
      modifies this, ls, ls.spine
      ensures Valid()
      ensures var list := old(ls.Contents());
        var k := FirstMatch(list, ident);
        ls.Contents() == Without(list, k) && r == if k < |list| then 1 else -1
      ensures var list, k := old(ls.Contents()), FirstMatch(old(ls.Contents()), ident);
        && (k < |list| ==> ident <= list[k].ident)
        && forall j | 0 <= j < k :: !(ident <= list[j].ident)
    {
      ghost var list, k := ls.Contents(), 0;
      var current := ls.head;
      var previous: Queue.QNode?<Bpkg> := null;
      while current != null
        invariant Valid() && ls.spine == old(ls.spine) && list == ls.Contents()
        invariant 0 <= k <= |list| && (k < |list| ==> current == ls.spine[k]) && (k == |list| ==> current == null)
        invariant (k > 0 ==> previous == ls.spine[k - 1]) && (k == 0 ==> previous == null)
        invariant forall j | 0 <= j < k :: !IdentMatches(list[j].ident, ident)
        decreases |list| - k
      {
        var bpkgCurr := current.data;
        var equal := PrefixCompare(ident, bpkgCurr.ident);
        if |bpkgCurr.ident| >= |ident| && equal {
          assert FirstMatch(list, ident) == k;
          RemoveNode(current, previous, k);
          return 1;
        }
        assert current == ls.spine[k];
        previous := current;
        current := current.next;
        k := k + 1;
      }
      return -1;
    }

    method RemoveNode(current: Queue.QNode<Bpkg>, previous: Queue.QNode?<Bpkg>, ghost k: nat)
      requires Valid() && k < |ls.spine| && current == ls.spine[k]
      requires (k > 0 ==> previous == ls.spine[k - 1]) && (k == 0 ==> previous == null)
      modifies this, ls, ls.spine
      ensures Valid() && ls.Contents() == Without(old(ls.Contents()), k)
    {
      CountDown(|ls.Contents()|);
      ls.Unlink(current, previous, k);
      count := (count + 0xFF) % 0x100;
    }
  }

  // What the list operations mean together.

  /** How many packages the query matches. */
  function MatchCount(list: seq<Bpkg>, query: seq<byte>): nat {
    if list == [] then 0 else (if IdentMatches(list[0].ident, query) then 1 else 0) + MatchCount(list[1..], query)
  }

  lemma {:induction false} MatchCountCat(s: seq<Bpkg>, t: seq<Bpkg>, query: seq<byte>)
    ensures MatchCount(s + t, query) == MatchCount(s, query) + MatchCount(t, query)
  {
    if s == [] {
      assert s + t == t;
    } else {
      assert (s + t)[1..] == s[1..] + t;
      MatchCountCat(s[1..], t, query);
    }
  }

  lemma {:induction false} MatchCountZeroIff(list: seq<Bpkg>, query: seq<byte>)
    ensures MatchCount(list, query) == 0 <==> FirstMatch(list, query) == |list|
  {
    if list != [] {
      MatchCountZeroIff(list[1..], query);
    }
  }

  /**
   * Removal succeeds exactly when the search finds a package; it takes one package and no other, and leaves one
   * match fewer, so that it can be repeated as often as there were matches.
   */
  lemma RemovesWhatFindFinds(list: seq<Bpkg>, ident: seq<byte>)
    ensures var k := FirstMatch(list, ident);
      && (k < |list| <==> exists j :: 0 <= j < |list| && IdentMatches(list[j].ident, ident))
      && (k < |list| <==> MatchCount(list, ident) > 0)
      && (k < |list| ==>
        && multiset(list) == multiset(Without(list, k)) + multiset{list[k]}
        && MatchCount(Without(list, k), ident) == MatchCount(list, ident) - 1)
  {
    var k := FirstMatch(list, ident);
    MatchCountZeroIff(list, ident);
    if k < |list| {
      assert IdentMatches(list[k].ident, ident);
      TakesOne(list, k);
      CountsOneLess(list, k, ident);
    }
  }

  lemma TakesOne<T>(s: seq<T>, k: nat)
    requires k < |s|
    ensures multiset(s) == multiset(Without(s, k)) + multiset{s[k]}
  {
    assert s == s[..k] + ([s[k]] + s[k + 1..]);
  }

  lemma CountsOneLess(list: seq<Bpkg>, k: nat, query: seq<byte>)
    requires k < |list| && IdentMatches(list[k].ident, query)
    ensures MatchCount(Without(list, k), query) == MatchCount(list, query) - 1
  {
    var before, taken, after := list[..k], [list[k]], list[k + 1..];
    assert list == before + (taken + after);
    MatchCountCat(before, taken + after, query);
    MatchCountCat(taken, after, query);
    MatchCountCat(before, after, query);
    assert taken[1..] == [];
  }

  /** A query finds, and a removal takes, the package at k exactly when it matches there and nowhere before. */
  lemma {:induction false} MatchIsFirstIff(list: seq<Bpkg>, query: seq<byte>, k: nat)
    requires k < |list|
    ensures FirstMatch(list, query) == k <==>
      IdentMatches(list[k].ident, query) && forall j | 0 <= j < k :: !IdentMatches(list[j].ident, query)
  {
    var f := FirstMatch(list, query);
    if IdentMatches(list[k].ident, query) && f != k {
      assert f < k ==> IdentMatches(list[f].ident, query);
    }
  }

  /**
   * A package is found and removed by its own identifier exactly when no earlier identifier extends it;
   * otherwise an earlier one is, and the package itself stays.
   */
  lemma FoundByOwnIdentIff(list: seq<Bpkg>, k: nat)
    requires k < |list|
    ensures FirstMatch(list, list[k].ident) == k <==>
      forall j | 0 <= j < k :: !IdentMatches(list[j].ident, list[k].ident)
    ensures var f := FirstMatch(list, list[k].ident);
      f <= k && (f != k ==> Without(list, f)[k - 1] == list[k])
  {
    MatchIsFirstIff(list, list[k].ident, k);
    var f := FirstMatch(list, list[k].ident);
    assert IdentMatches(list[k].ident, list[k].ident);
    if f < k {
      LaterStays(list, f, k);
    }
  }

  lemma LaterStays<T>(s: seq<T>, f: nat, k: nat)
    requires f < k < |s|
    ensures Without(s, f)[k - 1] == s[k]
  {}

  /** A query whose matches all share one package finds that package, and nothing once it is removed. */
  lemma {:induction false} FindsUniqueMatch(list: seq<Bpkg>, query: seq<byte>, k: nat)
    requires k < |list| && IdentMatches(list[k].ident, query)
    requires forall j | 0 <= j < |list| && j != k :: !IdentMatches(list[j].ident, query)
    ensures FirstMatch(list, query) == k && FirstMatch(Without(list, k), query) == |list| - 1
  {
    var rest := Without(list, k);
    forall j | 0 <= j < |rest| ensures !IdentMatches(rest[j].ident, query) {
      assert rest[j] == list[if j < k then j else j + 1];
    }
  }

  /** Every package of a list answers to its own identifier exactly when no identifier extends a later one. */
  lemma AllFoundByOwnIdentIff(list: seq<Bpkg>)
    ensures (forall k | 0 <= k < |list| :: FirstMatch(list, list[k].ident) == k) <==>
      forall j, k | 0 <= j < k < |list| :: !IdentMatches(list[j].ident, list[k].ident)
  {
    forall k | 0 <= k < |list|
      ensures FirstMatch(list, list[k].ident) == k <==>
        forall j | 0 <= j < k :: !IdentMatches(list[j].ident, list[k].ident)
    {
      FoundByOwnIdentIff(list, k);
    }
  }

  /** Of packages "ab" and "a", in this order, asking for "a" finds "ab", and removing "a" removes "ab". */
  lemma WrongPackageFound(ab: Bpkg, a: Bpkg)
    requires ab.ident == [97, 98] && a.ident == [97]
    ensures FirstMatch([ab, a], a.ident) == 0 && Without([ab, a], FirstMatch([ab, a], a.ident)) == [a]
  {
    assert ab.ident[..1] == a.ident;
    assert IdentMatches([ab, a][0].ident, a.ident);
  }
}
