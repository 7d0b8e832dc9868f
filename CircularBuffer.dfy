/** The fixed-capacity ring buffer of src/circular-buffer.hpp. `index` is
    the slot of the next `take`, `end` the slot of the next `insert`; both
    are uint8_t cursors over the N slots of `items`. */
module CircularBuffer {
  import opened Common

  /** The position k steps after slot i in a ring of n slots. */
  function Wrap(i: nat, k: nat, n: nat): (j: nat)
    requires i < n && k < n
    ensures j < n && j == (i + k) % n
  {
    if i + k < n then ModUnique(i + k, n, 0, i + k); i + k
    else ModUnique(i + k, n, 1, i + k - n); i + k - n
  }

  /** size() (circular-buffer.hpp:38-44): the number of slots from index
      up to, not including, end. */
  function SizeOf(index: nat, end: nat, n: nat): (s: nat)
    requires index < n && end < n
    ensures s < n && s == (end - index) % n
    ensures Wrap(index, s, n) == end
    ensures s == 0 <==> index == end
  {
    if end >= index then ModUnique(end - index, n, 0, end - index); end - index
    else ModUnique(end - index, n, -1, end + n - index); end + n - index
  }

  /** The elements waiting to be taken, oldest first. */
  function Window<T>(items: seq<T>, index: nat, end: nat): (w: seq<T>)
    requires index < |items| && end < |items|
    ensures |w| == SizeOf(index, end, |items|)
    ensures forall k :: 0 <= k < |w| ==> w[k] == items[Wrap(index, k, |items|)]
  {
    seq(SizeOf(index, end, |items|), k requires 0 <= k < SizeOf(index, end, |items|) => items[Wrap(index, k, |items|)])
  }

  /** An insert into a buffer holding fewer than N - 1 elements appends the
      value at the back. */
  lemma {:induction false} WindowInsert<T>(items: seq<T>, index: u8, end: u8, v: T)
    requires |items| <= 0x100 && index < |items| && end < |items|
    requires SizeOf(index, end, |items|) < |items| - 1
    ensures Window(items[end := v], index, Advance(end, |items|)) == Window(items, index, end) + [v]
  {
    var n := |items|;
    var s := SizeOf(index, end, n);
    var e2 := Advance(end, n);
    assert SizeOf(index, e2, n) == s + 1 by {
      if end + 1 < n {
        assert e2 == end + 1;
      } else {
        assert e2 == 0;
      }
    }
    var w := Window(items, index, end);
    var w2 := Window(items[end := v], index, e2);
    forall k | 0 <= k < s + 1
      ensures w2[k] == (w + [v])[k]
    {
      if k < s {
        assert Wrap(index, k, n) != end;
      }
    }
  }

  /** A take from a non-empty buffer removes the front element. */
  lemma {:induction false} WindowTake<T>(items: seq<T>, index: u8, end: u8)
    requires |items| <= 0x100 && index < |items| && end < |items| && index != end
    ensures Window(items, index, end)[0] == items[index]
    ensures Window(items, Advance(index, |items|), end) == Window(items, index, end)[1..]
  {
    var n := |items|;
    var i2 := Advance(index, n);
    var s := SizeOf(index, end, n);
    assert SizeOf(i2, end, n) == s - 1;
    var w := Window(items, index, end);
    var w2 := Window(items, i2, end);
    forall k | 0 <= k < s - 1
      ensures w2[k] == w[k + 1]
    {
      assert Wrap(i2, k, n) == Wrap(index, k + 1, n);
    }
  }

  /** An insert into a buffer holding N - 1 elements brings end back to
      index: the overflow goes undetected and the buffer reads as empty. */
  lemma InsertIntoFullEmpties(index: u8, end: u8, n: nat)
    requires n <= 0x100 && index < n && end < n && SizeOf(index, end, n) == n - 1
    ensures Advance(end, n) == index
  {
  }

  /** The end cursor after k inserts. */
  function AdvanceBy(end: u8, n: nat, k: nat): (e: u8)
    requires end < n <= 0x100
    ensures e < n
  {
    if k == 0 then end else Advance(AdvanceBy(end, n, k - 1), n)
  }

  /** Fewer than N inserts move the end cursor that many slots round the
      ring. */
  lemma {:induction false} AdvanceByWrap(end: u8, n: nat, k: nat)
    requires end < n <= 0x100 && k < n
    ensures AdvanceBy(end, n, k) == Wrap(end, k, n)
  {
    if k > 0 {
      AdvanceByWrap(end, n, k - 1);
      var p := AdvanceBy(end, n, k - 1);
      if end + k - 1 < n - 1 {
        assert p == end + k - 1;
      } else if end + k - 1 == n - 1 {
        assert p == n - 1;
      } else {
        assert p == end + k - 1 - n;
      }
    }
  }

  /** N inserts in a row bring the end cursor back to where it was. */
  lemma FullCircle(end: u8, n: nat)
    requires end < n <= 0x100
    ensures AdvanceBy(end, n, n) == end
  {
    AdvanceByWrap(end, n, n - 1);
  }

  class CircularBuffer<T(0)> {
    const N: nat
    var items: array<T>
    var index: u8
    var end: u8

    ghost predicate Valid()
      reads this
    {
      1 <= N <= 0x100 && items.Length == N && index < N && end < N
    }

    /** The elements waiting to be taken, oldest first. */
    function Contents(): seq<T>
      reads this, items
      requires Valid()
    {
      Window(items[..], index, end)
    }

    function Size(): nat
      reads this
      requires Valid()
    {
      SizeOf(index, end, N)
    }

    /** The constructor (circular-buffer.hpp:14): both cursors at slot 0,
        so the buffer starts empty. */
    constructor(n: nat)
      requires 1 <= n <= 0x100
      ensures Valid() && N == n && fresh(items)
      ensures index == 0 && end == 0 && Size() == 0 && Contents() == []
    {
      N := n;
      items := new T[n];
      index := 0;
      end := 0;
    }

    /** insert (circular-buffer.hpp:16-21). */
    method Insert(value: T)
      requires Valid()
      modifies this`end, items
      ensures Valid()
      ensures items[..] == old(items[..])[old(end) := value]
      ensures index == old(index) && end == Advance(old(end), N)
      ensures old(Size()) < N - 1 ==> Contents() == old(Contents()) + [value]
      ensures old(Size()) == N - 1 ==> Size() == 0
    {
      items[end] := value;
      end := Advance(end, N);
      if old(Size()) < N - 1 {
        WindowInsert(old(items[..]), index, old(end), value);
      }
    }

    /** take (circular-buffer.hpp:23-30): the value at index, whatever the
        size; on a non-empty buffer that is the oldest element. */
    method Take() returns (v: T)
      requires Valid()
      modifies this`index
      ensures Valid()
      ensures v == items[old(index)] && index == Advance(old(index), N) && end == old(end)
      ensures old(Size()) > 0 ==> v == old(Contents())[0] && Contents() == old(Contents())[1..]
    {
      var oldIndex := index;
      index := Advance(index, N);
      v := items[oldIndex];
      if old(Size()) > 0 {
        WindowTake(items[..], oldIndex, end);
      }
    }

    /** peek (circular-buffer.hpp:32-34): what the next take returns. */
    method Peek() returns (v: T)
      requires Valid()
      ensures v == items[index]
      ensures Size() > 0 ==> v == Contents()[0]
    {
      v := items[index];
    }

    /** empty (circular-buffer.hpp:36). */
    method Empty() returns (b: bool)
      requires Valid()
      ensures b <==> Size() == 0
      ensures b <==> Contents() == []
    {
      b := index == end;
    }
  }
}
