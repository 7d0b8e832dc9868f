/** The shuffle bag of src/bag.hpp: each insert swaps the new value into a
    random position among those filled so far, and takes then read the
    slots in order. The rand8() draw of each insert is a parameter. */
module Bag {
  import opened Common
  import Utils

  /** The slots after an insert of v at end with random point p: v goes to
      p and the value that was at p moves to end (bag.hpp:28-33). */
  function InsertAt<T>(items: seq<T>, end: nat, p: nat, v: T): (r: seq<T>)
    requires p <= end < |items|
    ensures |r| == |items| && r[p] == v && r[end] == (if p == end then v else items[p])
    ensures forall k :: 0 <= k < |items| && k != p && k != end ==> r[k] == items[k]
  {
    if p == end then items[end := v] else items[end := items[p]][p := v]
  }

  /** An insert adds exactly the value to the filled prefix and leaves the
      slots after it alone. */
  lemma InsertAtPermutes<T>(items: seq<T>, end: nat, p: nat, v: T)
    requires p <= end < |items|
    ensures multiset(InsertAt(items, end, p, v)[..end + 1]) == multiset(items[..end]) + multiset{v}
    ensures InsertAt(items, end, p, v)[end + 1..] == items[end + 1..]
  {
    var r := InsertAt(items, end, p, v);
    assert r[end + 1..] == items[end + 1..];
    if p == end {
      assert r[..end + 1] == items[..end] + [v];
    } else {
      SwapIn(items, end, p, v);
    }
  }

  /** The swap case: the displaced value moves to the end of the prefix. */
  lemma SwapIn<T>(items: seq<T>, end: nat, p: nat, v: T)
    requires p < end < |items|
    ensures multiset(InsertAt(items, end, p, v)[..end + 1]) == multiset(items[..end]) + multiset{v}
  {
    var r := InsertAt(items, end, p, v)[..end + 1];
    var t := items[..end] + [items[p]];
    assert r == t[p := v];
    calc {
      multiset(r);
      multiset(t[p := v]);
      multiset(t) - multiset{items[p]} + multiset{v};
      multiset(items[..end]) + multiset{items[p]} - multiset{items[p]} + multiset{v};
    }
  }

  /** The random point of an insert: RAND_UP_TO(end + 1) (utils.hpp:3),
      brought back into range when it reaches N, which it cannot. */
  function RandomPoint(draw: u8, end: u8, n: nat): (p: u8)
    requires end < n <= 0x100
    ensures p <= end
    ensures p * 256 <= draw * (end + 1) < p * 256 + 256
  {
    var p := Utils.RandUpToMacro(draw, end + 1);
    if p >= n then ToU8(p - n) else p
  }

  class Bag<T(0)> {
    const N: nat
    var items: array<T>
    var index: u8
    var end: u8

    ghost predicate Valid()
      reads this
    {
      1 <= N <= 0x100 && items.Length == N && index < N && end < N
    }

    /** The constructor (bag.hpp:15): both cursors at slot 0. */
    constructor(n: nat)
      requires 1 <= n <= 0x100
      ensures Valid() && N == n && fresh(items)
      ensures index == 0 && end == 0
    {
      N := n;
      items := new T[n];
      index := 0;
      end := 0;
    }

    /** reset (bag.hpp:17-20). */
    method Reset()
      requires Valid()
      modifies this`index, this`end
      ensures Valid() && index == 0 && end == 0
    {
      index := 0;
      end := 0;
    }

    /** insert (bag.hpp:22-37). Only slots p and end are written, and when
        the bag has not wrapped the filled prefix grows by the value. */
    method Insert(value: T, draw: u8)
      requires Valid()
      modifies this`end, items
      ensures Valid() && index == old(index) && end == Advance(old(end), N)
      ensures items[..] == InsertAt(old(items[..]), old(end), RandomPoint(draw, old(end), N), value)
      ensures multiset(items[..old(end) + 1]) == multiset(old(items[..end])) + multiset{value}
    {
      var randomPoint := Utils.RandUpToMacro(draw, end + 1);
      if randomPoint >= N {
        randomPoint := ToU8(randomPoint - N);
      }
      if randomPoint == end {
        items[end] := value;
      } else {
        items[end] := items[randomPoint];
        items[randomPoint] := value;
      }
      end := Advance(end, N);
      InsertAtPermutes(old(items[..]), old(end), randomPoint, value);
      assert items[..] == InsertAt(old(items[..]), old(end), randomPoint, value);
    }

    /** take (bag.hpp:39-46): the slot at index; items are not touched. */
    method Take() returns (v: T)
      requires Valid()
      modifies this`index
      ensures Valid() && v == items[old(index)]
      ensures index == Advance(old(index), N) && end == old(end)
    {
      v := items[index];
      index := Advance(index, N);
    }

    /** peek (bag.hpp:48): what the next take returns. */
    method Peek() returns (v: T)
      requires Valid()
      ensures v == items[index]
    {
      v := items[index];
    }
  }
}
