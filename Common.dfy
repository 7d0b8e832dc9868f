/** Machine integer types of the game (common.hpp) and the Option/Result
    wrappers used for nil values and raised errors. */
module Common {

  type u8 = x: int | 0 <= x < 0x100
  type u16 = x: int | 0 <= x < 0x1_0000
  type s8 = x: int | -0x80 <= x < 0x80
  type s16 = x: int | -0x8000 <= x < 0x8000

  /** Truncation of an integer to uint8_t (a C conversion to an unsigned type). */
  function ToU8(x: int): (r: u8)
    ensures (r - x) % 0x100 == 0
  {
    x % 0x100
  }

  /** Truncation of an integer to uint16_t. */
  function ToU16(x: int): (r: u16)
    ensures (r - x) % 0x1_0000 == 0
  {
    x % 0x1_0000
  }

  /** Two's-complement reinterpretation of the low 8 bits as int8_t. */
  function ToS8(x: int): (r: s8)
    ensures (r - x) % 0x100 == 0
  {
    var m := x % 0x100;
    if m < 0x80 then m else m - 0x100
  }

  /** Two's-complement reinterpretation of the low 16 bits as int16_t. */
  function ToS16(x: int): (r: s16)
    ensures (r - x) % 0x1_0000 == 0
  {
    var m := x % 0x1_0000;
    if m < 0x8000 then m else m - 0x1_0000
  }

  /** The remainder is the r of any x == q * n + r with 0 <= r < n. */
  lemma ModUnique(x: int, n: int, q: int, r: int)
    requires n > 0 && 0 <= r < n && x == q * n + r
    ensures x % n == r
  {
    var d := x / n;
    assert x == d * n + x % n;
    assert (q - d) * n == x % n - r;
    MulBetween(q - d, n);
  }

  lemma MulBetween(k: int, n: int)
    requires n > 0 && -n < k * n < n
    ensures k == 0
  {
    if k >= 1 {
      MulAtLeastOne(k, n);
    } else if k <= -1 {
      MulAtLeastOne(-k, n);
    }
  }

  lemma MulAtLeastOne(k: int, n: int)
    requires k >= 1 && n > 0
    ensures k * n >= n && (-k) * n <= -n
  {
  }

  /** The `i++; if (i == N) i = 0;` step of a uint8_t cursor over N slots:
      the increment wraps at 256 before the comparison with N, and the
      step is the successor modulo N. */
  function Advance(i: u8, n: nat): (j: u8)
    requires i < n <= 0x100
    ensures j == (i + 1) % n
    ensures j < n && (j == 0 <==> i == n - 1)
    ensures i < n - 1 ==> j == i + 1
  {
    var k := ToU8(i + 1);
    if k == n then ModUnique(i + 1, n, 1, 0); 0
    else if i + 1 == n then ModUnique(i + 1, n, 1, 0); k
    else ModUnique(i + 1, n, 0, i + 1); k
  }

  /** The rows of a grid, or a run of chunks, one after another. */
  function Flatten<T>(rows: seq<seq<T>>): seq<T> {
    if rows == [] then [] else rows[0] + Flatten(rows[1..])
  }

  lemma {:induction false} FlattenSnoc<T>(rows: seq<seq<T>>, last: seq<T>)
    ensures Flatten(rows + [last]) == Flatten(rows) + last
  {
    if rows == [] {
      assert [] + [last] == [last];
      assert Flatten([last]) == last + Flatten([last][1..]);
      assert [last][1..] == [];
    } else {
      assert (rows + [last])[1..] == rows[1..] + [last];
      FlattenSnoc(rows[1..], last);
    }
  }

  /** Bitwise operations on bytes. */
  function And8(a: u8, b: u8): u8 { ((a as bv8) & (b as bv8)) as int }
  function Or8(a: u8, b: u8): u8 { ((a as bv8) | (b as bv8)) as int }
  function Not8(a: u8): u8 { (!(a as bv8)) as int }

  datatype Option<+T> = None | Some(value: T) {
    predicate IsFailure() { None? }
    function PropagateFailure<U>(): Option<U> requires None? { None }
    function Extract(): T requires Some? { value }
  }

  datatype Result<+T, +E> = Ok(value: T) | Err(error: E) {
    predicate IsFailure() { Err? }
    function PropagateFailure<U>(): Result<U, E> requires Err? { Err(error) }
    function Extract(): T requires Ok? { value }
  }
}
