/** The disjoint sets of src/union-find.hpp. Every Set of the game lives
    in one array (board.cpp's `disjoint_set`), so a `Set *parent` pointer
    is modelled as the index of the parent in that array. A ghost rank
    that strictly grows along parent links witnesses that the links are
    acyclic, which is what makes `representative` terminate. */
module UnionFind {

  /** Parent links inside the array, each link to a strictly higher rank,
      every rank below bound. */
  ghost predicate Ranked(parent: seq<int>, rank: seq<nat>, bound: nat) {
    |rank| == |parent|
    && (forall x :: 0 <= x < |parent| ==> 0 <= parent[x] < |parent|)
    && (forall x :: 0 <= x < |parent| && parent[x] != x ==> rank[x] < rank[parent[x]])
    && (forall x :: 0 <= x < |rank| ==> rank[x] < bound)
  }

  /** The element reached by following parent links from x until one links
      to itself. */
  ghost function Root(parent: seq<int>, rank: seq<nat>, bound: nat, x: nat): (r: nat)
    requires Ranked(parent, rank, bound) && x < |parent|
    ensures r < |parent| && parent[r] == r
    ensures parent[x] == x ==> r == x
    decreases bound - rank[x]
  {
    if parent[x] == x then x else Root(parent, rank, bound, parent[x])
  }

  /** The links and ranks after root y is linked under root x. */
  ghost function LinkRank(rank: seq<nat>, x: nat, y: nat): seq<nat>
    requires x < |rank| && y < |rank|
  {
    rank[x := if rank[x] > rank[y] then rank[x] else rank[y] + 1]
  }

  /** Linking root y under a different root x keeps the links acyclic and
      moves exactly the elements whose root was y to root x. */
  lemma {:induction false} RootAfterLink(parent: seq<int>, rank: seq<nat>, bound: nat, x: nat, y: nat, z: nat)
    requires Ranked(parent, rank, bound) && x < |parent| && y < |parent| && z < |parent|
    requires parent[x] == x && parent[y] == y && x != y
    ensures Ranked(parent[y := x], LinkRank(rank, x, y), bound + 1)
    ensures Root(parent[y := x], LinkRank(rank, x, y), bound + 1, z)
         == if Root(parent, rank, bound, z) == y then x else Root(parent, rank, bound, z)
    decreases bound - rank[z]
  {
    LinkKeepsRanked(parent, rank, bound, x, y);
    var p2 := parent[y := x];
    var r2 := LinkRank(rank, x, y);
    if parent[z] == z {
      if z == y {
        assert Root(p2, r2, bound + 1, y) == Root(p2, r2, bound + 1, x);
      }
    } else {
      RootAfterLink(parent, rank, bound, x, y, parent[z]);
      assert Root(p2, r2, bound + 1, z) == Root(p2, r2, bound + 1, parent[z]);
    }
  }

  /** The representative of every element. */
  ghost function Reps(parent: seq<int>, rank: seq<nat>, bound: nat): (reps: seq<nat>)
    requires Ranked(parent, rank, bound)
    ensures |reps| == |parent|
  {
    seq(|parent|, z requires 0 <= z < |parent| => Root(parent, rank, bound, z))
  }

  /** The classes after every element of class `from` has moved to class
      `to`. */
  function Relabel(reps: seq<nat>, from: nat, to: nat): (r: seq<nat>)
    ensures |r| == |reps|
  {
    seq(|reps|, z requires 0 <= z < |reps| => if reps[z] == from then to else reps[z])
  }

  /** RootAfterLink for every element at once: the class of y merges into
      the class of x. */
  lemma RootsAfterLink(parent: seq<int>, rank: seq<nat>, bound: nat, x: nat, y: nat)
    requires Ranked(parent, rank, bound) && x < |parent| && y < |parent|
    requires parent[x] == x && parent[y] == y && x != y
    ensures Ranked(parent[y := x], LinkRank(rank, x, y), bound + 1)
    ensures Reps(parent[y := x], LinkRank(rank, x, y), bound + 1) == Relabel(Reps(parent, rank, bound), y, x)
  {
    LinkKeepsRanked(parent, rank, bound, x, y);
    forall z | 0 <= z < |parent|
      ensures Root(parent[y := x], LinkRank(rank, x, y), bound + 1, z)
           == if Root(parent, rank, bound, z) == y then x else Root(parent, rank, bound, z)
    {
      RootAfterLink(parent, rank, bound, x, y, z);
    }
  }

  lemma LinkKeepsRanked(parent: seq<int>, rank: seq<nat>, bound: nat, x: nat, y: nat)
    requires Ranked(parent, rank, bound) && x < |parent| && y < |parent|
    requires parent[x] == x && parent[y] == y && x != y
    ensures Ranked(parent[y := x], LinkRank(rank, x, y), bound + 1)
  {
    var p2 := parent[y := x];
    var r2 := LinkRank(rank, x, y);
    forall z | 0 <= z < |p2| && p2[z] != z
      ensures r2[z] < r2[p2[z]]
    {
      if z != y {
        assert z != x;
      }
    }
  }

  class DisjointSet {
    var parent: array<int>
    ghost var rank: seq<nat>
    ghost var bound: nat

    ghost predicate Valid()
      reads this, parent
    {
      Ranked(parent[..], rank, bound)
    }

    /** The representative of x's set. */
    ghost function Find(x: nat): nat
      reads this, parent
      requires Valid() && x < parent.Length
    {
      Root(parent[..], rank, bound, x)
    }

    /** The representative of every element. */
    ghost function Classes(): seq<nat>
      reads this, parent
      requires Valid()
    {
      Reps(parent[..], rank, bound)
    }

    /** n Sets, each constructed as its own parent (union-find.hpp:7) and so
        its own representative. */
    constructor(n: nat)
      ensures Valid() && parent.Length == n && fresh(parent)
      ensures forall x :: 0 <= x < n ==> parent[x] == x && Find(x) == x
    {
      var a := new int[n];
      var i := 0;
      while i < n
        invariant 0 <= i <= n
        invariant forall k :: 0 <= k < i ==> a[k] == k
      {
        a[i] := i;
        i := i + 1;
      }
      parent := a;
      rank := seq(n, k => 0);
      bound := 1;
    }

    /** representative (union-find.hpp:8-14): follow parent links to the
        element that is its own parent. */
    method Representative(x: nat) returns (r: nat)
      requires Valid() && x < parent.Length
      ensures r < parent.Length && parent[r] == r && r == Find(x) && r == Classes()[x]
    {
      r := x;
      while r != parent[r]
        invariant r < parent.Length && Find(r) == Find(x)
        decreases bound - rank[r]
      {
        r := parent[r];
      }
    }

    /** join (union-find.hpp:15-20): b's root is re-pointed to a's root
        unless they are the same. Afterwards a and b share a's old
        representative, b's old class has joined a's, and every other
        element keeps its representative. */
    method Join(a: nat, b: nat)
      requires Valid() && a < parent.Length && b < parent.Length
      modifies parent, this`rank, this`bound
      ensures Valid()
      ensures old(Find(a)) == old(Find(b)) ==> parent[..] == old(parent[..])
      ensures old(Find(a)) != old(Find(b)) ==> parent[..] == old(parent[..])[old(Find(b)) := old(Find(a))]
      ensures Classes() == Relabel(old(Classes()), old(Find(b)), old(Find(a)))
    {
      var x := Representative(a);
      var y := Representative(b);
      if x != y {
        RootsAfterLink(parent[..], rank, bound, x, y);
        Link(x, y);
      } else {
        assert Classes() == Relabel(Classes(), y, x);
      }
    }

    /** `y->parent = x` for two different roots, with the ghost ranks
        updated to keep the links acyclic. */
    method Link(x: nat, y: nat)
      requires Valid() && x < parent.Length && y < parent.Length
      requires parent[x] == x && parent[y] == y && x != y
      modifies parent, this`rank, this`bound
      ensures parent[..] == old(parent[..])[y := x]
      ensures rank == LinkRank(old(rank), x, y) && bound == old(bound) + 1
      ensures Valid()
    {
      LinkKeepsRanked(parent[..], rank, bound, x, y);
      parent[y] := x;
      rank := LinkRank(rank, x, y);
      bound := bound + 1;
    }
  }
}
