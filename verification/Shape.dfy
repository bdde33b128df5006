/**
 * The shape of the tree: node i of n nodes has the children 2i + 1 and 2i + 2 when both exist,
 * so for an odd n every node is either internal with two children or a leaf.
 */
module Shape {

  predicate IsInternal(n: nat, i: nat) { 2 * i + 2 < n }

  function Parent(j: nat): nat
    requires j > 0
  {
    (j - 1) / 2
  }

  function Depth(j: nat): nat { if j == 0 then 0 else 1 + Depth(Parent(j)) }

  /** a is j or one of its ancestors. */
  predicate Under(a: nat, j: nat)
    decreases j
  {
    j == a || (j > a && Under(a, Parent(j)))
  }

  /** The nodes of the subtree of i in the order the recursive build visits them. */
  function Preorder(n: nat, i: nat): seq<nat>
    requires i < n
    decreases n - i
  {
    if IsInternal(n, i) then [i] + Preorder(n, 2 * i + 1) + Preorder(n, 2 * i + 2) else [i]
  }

  /** The leaves below i from left to right. */
  function Leaves(n: nat, i: nat): seq<nat>
    requires i < n
    decreases n - i
  {
    if IsInternal(n, i) then Leaves(n, 2 * i + 1) + Leaves(n, 2 * i + 2) else [i]
  }

  function Range(lo: nat, hi: nat): (r: seq<nat>)
    requires lo <= hi
    ensures |r| == hi - lo && forall k | 0 <= k < |r| :: r[k] == lo + k
  {
    seq(hi - lo, k => lo + k)
  }

  lemma {:induction false} RootAbove(j: nat)
    ensures Under(0, j)
  {
    if j > 0 {
      RootAbove(Parent(j));
    }
  }

  /** A proper descendant of i lies below exactly one child of i. */
  lemma {:induction false} UnderChild(i: nat, j: nat)
    ensures j != i ==> (Under(i, j) <==> Under(2 * i + 1, j) || Under(2 * i + 2, j))
    ensures !(Under(2 * i + 1, j) && Under(2 * i + 2, j))
    ensures Under(2 * i + 1, j) || Under(2 * i + 2, j) ==> j > i
    decreases j
  {
    if j > i && j != 2 * i + 1 && j != 2 * i + 2 {
      UnderChild(i, Parent(j));
    }
  }

  lemma {:induction false} UnderTransitive(a: nat, b: nat, c: nat)
    requires Under(a, b) && Under(b, c)
    ensures Under(a, c)
    decreases c
  {
    if b != c {
      UnderTransitive(a, b, Parent(c));
    }
  }

  lemma ChildrenUnder(a: nat, j: nat)
    requires Under(a, j)
    ensures Under(a, 2 * j + 1) && Under(a, 2 * j + 2) && a <= j
  {}

  /** Two ancestors of one node are comparable. */
  lemma {:induction false} UnderComparable(a: nat, b: nat, x: nat)
    requires Under(a, x) && Under(b, x)
    ensures Under(a, b) || Under(b, a)
    decreases x
  {
    if a != x && b != x {
      UnderComparable(a, b, Parent(x));
    }
  }

  /** A proper ancestor of a node has two children. */
  lemma {:induction false} AncestorIsInternal(n: nat, a: nat, j: nat)
    requires n % 2 == 1 && j < n && a != j && Under(a, j)
    ensures IsInternal(n, a)
    decreases j
  {
    if Parent(j) != a {
      AncestorIsInternal(n, a, Parent(j));
    }
  }

  lemma UnderAtLeast(a: nat, j: nat)
    requires Under(a, j)
    ensures j >= a
  {}

  lemma CountCat<T>(a: seq<T>, b: seq<T>, x: T)
    ensures multiset(a + b)[x] == multiset(a)[x] + multiset(b)[x]
  {}

  lemma PreorderCount(n: nat, i: nat, l: nat, r: nat, j: nat)
    requires l == 2 * i + 1 && r == l + 1 < n
    ensures multiset(Preorder(n, i))[j] ==
      (if j == i then 1 else 0) + multiset(Preorder(n, l))[j] + multiset(Preorder(n, r))[j]
  {
    var a, b := Preorder(n, l), Preorder(n, r);
    PreorderSplits(n, i, l, r);
    CountCat([i] + a, b, j);
    CountCat([i], a, j);
  }

  lemma PreorderSplits(n: nat, i: nat, l: nat, r: nat)
    requires l == 2 * i + 1 && r == l + 1 < n
    ensures Preorder(n, i) == [i] + Preorder(n, l) + Preorder(n, r)
  {}

  /** 1 when j is a node of the subtree of i among n nodes, else 0. */
  function InSubtree(n: nat, i: nat, j: nat): nat { if j < n && Under(i, j) then 1 else 0 }

  lemma InSubtreeSplit(n: nat, i: nat, j: nat)
    requires n % 2 == 1 && i < n
    ensures IsInternal(n, i) ==>
      InSubtree(n, i, j) == (if j == i then 1 else 0) + InSubtree(n, 2 * i + 1, j) + InSubtree(n, 2 * i + 2, j)
    ensures !IsInternal(n, i) ==> InSubtree(n, i, j) == if j == i then 1 else 0
  {
    UnderChild(i, j);
    if !IsInternal(n, i) {
      LeafAlone(n, i, j);
    }
  }

  /** The build's recursion reaches each node of the subtree exactly once. */
  lemma {:induction false} PreorderOnce(n: nat, i: nat, j: nat)
    requires i < n && n % 2 == 1
    ensures multiset(Preorder(n, i))[j] == InSubtree(n, i, j)
    decreases n - i
  {
    InSubtreeSplit(n, i, j);
    if IsInternal(n, i) {
      var l, r := 2 * i + 1, 2 * i + 2;
      PreorderCount(n, i, l, r, j);
      PreorderOnce(n, l, j);
      PreorderOnce(n, r, j);
    } else {
      assert Preorder(n, i) == [i];
    }
  }

  /** Below a leaf there is nothing but the leaf. */
  lemma LeafAlone(n: nat, i: nat, j: nat)
    requires n % 2 == 1 && i < n && !IsInternal(n, i)
    ensures j < n && Under(i, j) ==> j == i
  {
    assert j > i && Under(i, Parent(j)) ==> Parent(j) >= i;
  }

  /** From the root, every index below n exactly once. */
  lemma PreorderCoversArray(n: nat)
    requires n % 2 == 1
    ensures multiset(Preorder(n, 0)) == multiset(Range(0, n))
  {
    forall j: nat ensures multiset(Preorder(n, 0))[j] == multiset(Range(0, n))[j] {
      RootAbove(j);
      PreorderOnce(n, 0, j);
      RangeOnce(0, n, j);
    }
  }

  lemma {:induction false} PreorderMembers(n: nat, i: nat)
    requires i < n
    ensures forall k | 0 <= k < |Preorder(n, i)| :: Under(i, Preorder(n, i)[k]) && Preorder(n, i)[k] < n
    decreases n - i
  {
    if IsInternal(n, i) {
      var l, r := 2 * i + 1, 2 * i + 2;
      PreorderSplits(n, i, l, r);
      PreorderMembers(n, l);
      PreorderMembers(n, r);
      var s, t := Preorder(n, l), Preorder(n, r);
      forall k | 0 <= k < |Preorder(n, i)| ensures Under(i, Preorder(n, i)[k]) && Preorder(n, i)[k] < n {
        var x := Preorder(n, i)[k];
        assert x == if k == 0 then i else if k <= |s| then s[k - 1] else t[k - 1 - |s|];
        UnderChild(i, x);
      }
    }
  }

  /** x is visited before y: it is above y, or they lie below the left and the right child of one node. */
  ghost predicate Before(x: nat, y: nat) { Under(x, y) || exists q: nat :: Under(2 * q + 1, x) && Under(2 * q + 2, y) }

  /** The build visits a node before everything below it, and all of its left subtree before its right one. */
  lemma {:induction false} PreorderInOrder(n: nat, i: nat, j: nat, k: nat)
    requires i < n && j < k < |Preorder(n, i)|
    ensures Before(Preorder(n, i)[j], Preorder(n, i)[k])
    decreases n - i
  {
    PreorderMembers(n, i);
    var l, r := 2 * i + 1, 2 * i + 2;
    PreorderSplits(n, i, l, r);
    PreorderMembers(n, l);
    PreorderMembers(n, r);
    var s, t := Preorder(n, l), Preorder(n, r);
    var x, y := Preorder(n, i)[j], Preorder(n, i)[k];
    if j == 0 {
      assert x == i;
    } else if k <= |s| {
      PreorderInOrder(n, l, j - 1, k - 1);
      assert x == s[j - 1] && y == s[k - 1];
    } else if j > |s| {
      PreorderInOrder(n, r, j - 1 - |s|, k - 1 - |s|);
      assert x == t[j - 1 - |s|] && y == t[k - 1 - |s|];
    } else {
      assert x == s[j - 1] && y == t[k - 1 - |s|];
    }
  }

  lemma {:induction false} RangeOnce(lo: nat, hi: nat, j: nat)
    requires lo <= hi
    ensures multiset(Range(lo, hi))[j] == if lo <= j < hi then 1 else 0
    decreases hi - lo
  {
    if lo < hi {
      RangeOnce(lo + 1, hi, j);
      assert Range(lo, hi) == [lo] + Range(lo + 1, hi);
    }
  }

  predicate Distinct<T(==)>(s: seq<T>) { forall a, b | 0 <= a < b < |s| :: s[a] != s[b] }

  predicate IsLeafBelow(n: nat, i: nat, x: nat) { x < n && Under(i, x) && !IsInternal(n, x) }

  /** The leaves below i are listed, each once, and nothing else is. */
  lemma {:induction false} LeavesOnce(n: nat, i: nat)
    requires i < n && n % 2 == 1
    ensures Distinct(Leaves(n, i))
    ensures forall x: nat :: x in Leaves(n, i) <==> IsLeafBelow(n, i, x)
    decreases n - i
  {
    if IsInternal(n, i) {
      var l, r := Leaves(n, 2 * i + 1), Leaves(n, 2 * i + 2);
      LeavesOnce(n, 2 * i + 1);
      LeavesOnce(n, 2 * i + 2);
      forall x: nat ensures IsLeafBelow(n, i, x) <==> IsLeafBelow(n, 2 * i + 1, x) || IsLeafBelow(n, 2 * i + 2, x) {
        UnderChild(i, x);
      }
      forall x | x in l ensures x !in r {
        UnderChild(i, x);
      }
      DistinctCat(l, r);
    } else {
      forall x: nat ensures IsLeafBelow(n, i, x) <==> x == i {
        LeafAlone(n, i, x);
      }
    }
  }

  lemma LeavesSplit(n: nat, i: nat, l: nat, r: nat)
    requires l == 2 * i + 1 && r == l + 1 < n
    ensures Leaves(n, i) == Leaves(n, l) + Leaves(n, r)
  {}

  lemma DistinctCat<T>(s: seq<T>, t: seq<T>)
    requires Distinct(s) && Distinct(t) && forall x | x in s :: x !in t
    ensures Distinct(s + t)
  {
    forall a, b | 0 <= a < b < |s + t| ensures (s + t)[a] != (s + t)[b] {
      if a < |s| <= b {
        assert s[a] in s && t[b - |s|] in t;
      }
    }
  }

  /** Reading the tree breadth first: a queue of nodes, each replaced by its children. */
  function BreadthFirst(n: nat, queue: seq<nat>, fuel: nat): seq<nat>
    decreases fuel
  {
    if queue == [] || fuel == 0 then []
    else [queue[0]] + BreadthFirst(n, queue[1..] + Children(n, queue[0]), fuel - 1)
  }

  function Children(n: nat, i: nat): seq<nat> {
    if IsInternal(n, i) then [2 * i + 1, 2 * i + 2] else []
  }

  function Least(a: nat, b: nat): nat { if a <= b then a else b }

  /** The queue at the moment node i is read: the nodes from i up to the first that is still unlinked. */
  function Queue(n: nat, i: nat): seq<nat>
    requires i <= n
  {
    Range(i, Least(2 * i + 1, n))
  }

  lemma QueueStep(n: nat, i: nat)
    requires n % 2 == 1 && i < n
    ensures Queue(n, i) != [] && Queue(n, i)[0] == i
    ensures Queue(n, i)[1..] + Children(n, i) == Queue(n, i + 1)
  {}

  lemma RangeCons(lo: nat, hi: nat)
    requires lo < hi
    ensures Range(lo, hi) == [lo] + Range(lo + 1, hi)
  {}

  lemma BreadthFirstStep(n: nat, queue: seq<nat>, fuel: nat)
    requires queue != [] && fuel > 0
    ensures BreadthFirst(n, queue, fuel) == [queue[0]] + BreadthFirst(n, queue[1..] + Children(n, queue[0]), fuel - 1)
  {}

  /** The queue always holds a run of consecutive indices, so the array comes back in its own order. */
  lemma {:induction false} LevelOrderReadsBack(n: nat, i: nat)
    requires n % 2 == 1 && i <= n
    ensures BreadthFirst(n, Queue(n, i), n - i) == Range(i, n)
    decreases n - i
  {
    if i < n {
      QueueStep(n, i);
      BreadthFirstStep(n, Queue(n, i), n - i);
      LevelOrderReadsBack(n, i + 1);
      RangeCons(i, n);
    }
  }
}
