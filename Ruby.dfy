/** The parts of Ruby's core library that tools/nexxt.rb relies on:
    insertion-ordered Hash, String#to_i, and the exceptions it can raise. */
module Ruby {
  import opened Common

  /** Exceptions raised by the NEXXT decoders. */
  datatype Error =
    | InvalidString     // raise "Invalid string ..."
    | InvalidBytes      // raise "Invalid bytes ..."
    | InvalidSizes      // raise 'Invalid sizes'
    | NegativeArgument  // ArgumentError from Array#* with a negative count
    | NoMethod          // NoMethodError (a method called on nil or on the wrong class)
    | TypeError         // TypeError from Hash#dig through a value without #dig

  // ---------------------------------------------------------------------
  // Hash: an association list with unique keys, in insertion order

  predicate UniqueKeys<K(==), V>(h: seq<(K, V)>) {
    forall i, j :: 0 <= i < j < |h| ==> h[i].0 != h[j].0
  }

  function Keys<K, V>(h: seq<(K, V)>): (ks: seq<K>)
    ensures |ks| == |h| && forall i :: 0 <= i < |h| ==> ks[i] == h[i].0
  {
    if h == [] then [] else [h[0].0] + Keys(h[1..])
  }

  /** Hash#[]: the value stored under k, or nil. */
  function Get<K(==), V>(h: seq<(K, V)>, k: K): Option<V> {
    if h == [] then None
    else if h[0].0 == k then Some(h[0].1)
    else Get(h[1..], k)
  }

  /** Hash#[]=: an existing key keeps its position and takes the new value;
      a new key goes at the end. */
  function Put<K(==), V>(h: seq<(K, V)>, k: K, v: V): seq<(K, V)> {
    if h == [] then [(k, v)]
    else if h[0].0 == k then [(k, v)] + h[1..]
    else [h[0]] + Put(h[1..], k, v)
  }

  lemma {:induction false} GetPut<K, V>(h: seq<(K, V)>, k: K, v: V, k': K)
    ensures Get(Put(h, k, v), k') == if k' == k then Some(v) else Get(h, k')
  {
    if h != [] && h[0].0 != k {
      GetPut(h[1..], k, v, k');
      assert Put(h, k, v)[1..] == Put(h[1..], k, v);
    }
  }

  /** A second store under the same key replaces the first in place. */
  lemma {:induction false} PutPut<K, V>(h: seq<(K, V)>, k: K, v1: V, v2: V)
    ensures Put(Put(h, k, v1), k, v2) == Put(h, k, v2)
  {
    if h != [] && h[0].0 != k {
      PutPut(h[1..], k, v1, v2);
      assert Put(h, k, v1)[1..] == Put(h[1..], k, v1);
    }
  }

  lemma {:induction false} GetIn<K, V>(h: seq<(K, V)>, k: K)
    ensures Get(h, k).Some? <==> k in Keys(h)
  {
    if h != [] {
      GetIn(h[1..], k);
      assert Keys(h) == [h[0].0] + Keys(h[1..]);
    }
  }

  /** Storing under a key already present keeps the key order; a new key is appended. */
  lemma {:induction false} PutKeys<K, V>(h: seq<(K, V)>, k: K, v: V)
    ensures Keys(Put(h, k, v)) == if k in Keys(h) then Keys(h) else Keys(h) + [k]
  {
    if h != [] {
      PutKeys(h[1..], k, v);
      assert Keys(h) == [h[0].0] + Keys(h[1..]);
      if h[0].0 != k {
        assert Keys(Put(h, k, v)) == [h[0].0] + Keys(Put(h[1..], k, v));
      }
    }
  }

  lemma PutUnique<K, V>(h: seq<(K, V)>, k: K, v: V)
    requires UniqueKeys(h)
    ensures UniqueKeys(Put(h, k, v))
  {
    PutKeys(h, k, v);
    var r := Put(h, k, v);
    assert UniqueKeys(r) by {
      forall i, j | 0 <= i < j < |r| ensures r[i].0 != r[j].0 {
        assert Keys(r)[i] == r[i].0 && Keys(r)[j] == r[j].0;
        if k !in Keys(h) {
          assert |Keys(r)| == |h| + 1;
          if j < |h| {
            assert Keys(h)[i] == h[i].0 && Keys(h)[j] == h[j].0;
          } else {
            assert Keys(h)[i] == h[i].0;
          }
        } else {
          assert Keys(h)[i] == h[i].0 && Keys(h)[j] == h[j].0;
        }
      }
    }
  }

  /** Array#to_h: pairs are stored left to right, so a repeated key keeps the
      position of its first occurrence and the value of its last. */
  function ToH<K(==), V>(pairs: seq<(K, V)>): (h: seq<(K, V)>)
    ensures UniqueKeys(h)
  {
    if pairs == [] then []
    else
      var rest := ToH(pairs[..|pairs| - 1]);
      PutUnique(rest, pairs[|pairs| - 1].0, pairs[|pairs| - 1].1);
      Put(rest, pairs[|pairs| - 1].0, pairs[|pairs| - 1].1)
  }

  /** The last pair with a given key supplies its value in to_h. */
  lemma {:induction false} ToHLastWins<K, V>(pairs: seq<(K, V)>, i: nat)
    requires i < |pairs|
    requires forall j :: i < j < |pairs| ==> pairs[j].0 != pairs[i].0
    ensures Get(ToH(pairs), pairs[i].0) == Some(pairs[i].1)
  {
    var n := |pairs| - 1;
    GetPut(ToH(pairs[..n]), pairs[n].0, pairs[n].1, pairs[i].0);
    if i < n {
      ToHLastWins(pairs[..n], i);
    }
  }

  /** A key that appears in no pair is absent from to_h. */
  lemma {:induction false} ToHAbsent<K, V>(pairs: seq<(K, V)>, k: K)
    requires forall j :: 0 <= j < |pairs| ==> pairs[j].0 != k
    ensures Get(ToH(pairs), k) == None
  {
    if pairs != [] {
      var n := |pairs| - 1;
      GetPut(ToH(pairs[..n]), pairs[n].0, pairs[n].1, k);
      ToHAbsent(pairs[..n], k);
    }
  }

  // ---------------------------------------------------------------------
  // String#to_i (base 10) and digits

  predicate IsDigit(c: char) { '0' <= c <= '9' }
  predicate IsSpace(c: char) { c == ' ' || c == '\t' || c == '\n' || c as int == 11 || c as int == 12 || c == '\r' }

  function DigitValue(c: char): nat requires IsDigit(c) { c as int - '0' as int }

  /** The value of the run of digits at the start of s (single underscores
      between two digits are skipped), accumulated onto acc. */
  function DigitRun(s: string, acc: nat): (r: nat)
    decreases |s|
  {
    if s == [] then acc
    else if IsDigit(s[0]) then DigitRun(s[1..], acc * 10 + DigitValue(s[0]))
    else if s[0] == '_' && |s| > 1 && IsDigit(s[1]) then DigitRun(s[1..], acc)
    else acc
  }

  function SkipSpaces(s: string): (r: string)
    ensures |r| <= |s| && r == s[|s| - |r|..]
    ensures r == [] || !IsSpace(r[0])
  {
    if s != [] && IsSpace(s[0]) then SkipSpaces(s[1..]) else s
  }

  /** The digits after the sign: an optional "0d" or "0D" radix prefix,
      skipped only when a digit follows it, then the digit run. */
  function Magnitude(t: string): nat {
    if |t| > 2 && t[0] == '0' && (t[1] == 'd' || t[1] == 'D') && IsDigit(t[2]) then DigitRun(t[2..], 0)
    else DigitRun(t, 0)
  }

  /** String#to_i: leading white space, an optional sign, then decimal digits
      (after an optional "0d" prefix) that may be separated by single
      underscores; 0 when no digit follows. */
  function ToI(s: string): int {
    var t := SkipSpaces(s);
    if t != [] && t[0] == '-' && |t| > 1 && IsDigit(t[1]) then -(Magnitude(t[1..]) as int)
    else if t != [] && t[0] == '+' && |t| > 1 && IsDigit(t[1]) then Magnitude(t[1..])
    else if t != [] && IsDigit(t[0]) then Magnitude(t)
    else 0
  }

  /** Decimal rendering of a natural number (Integer#to_s). */
  function Decimal(n: nat): (s: string)
    ensures |s| >= 1 && forall i :: 0 <= i < |s| ==> IsDigit(s[i])
    decreases n
  {
    if n < 10 then [('0' as int + n) as char]
    else Decimal(n / 10) + [('0' as int + n % 10) as char]
  }

  lemma {:induction false} DigitRunAppend(s: string, acc: nat, tail: string)
    requires forall i :: 0 <= i < |s| ==> IsDigit(s[i])
    requires tail == [] || (!IsDigit(tail[0]) && tail[0] != '_')
    ensures DigitRun(s + tail, acc) == DigitRun(s, acc)
  {
    if s != [] {
      assert (s + tail)[1..] == s[1..] + tail;
      DigitRunAppend(s[1..], acc * 10 + DigitValue(s[0]), tail);
    } else {
      assert s + tail == tail;
    }
  }

  lemma {:induction false} DigitRunDecimal(n: nat, acc: nat)
    ensures DigitRun(Decimal(n), acc) == acc * Pow10(|Decimal(n)|) + n
    decreases n
  {
    if n >= 10 {
      var prefix := Decimal(n / 10);
      var last := [('0' as int + n % 10) as char];
      assert Decimal(n) == prefix + last;
      DigitRunConcat(prefix, last, acc);
      DigitRunDecimal(n / 10, acc);
      DigitRunSingle(n % 10, DigitRun(prefix, acc));
      Pow10Succ(|prefix|);
      ShiftDigit(acc, Pow10(|prefix|), n / 10, n % 10);
    } else {
      DigitRunSingle(n, acc);
    }
  }

  lemma DigitRunSingle(d: nat, acc: nat)
    requires d < 10
    ensures DigitRun([('0' as int + d) as char], acc) == acc * 10 + d
  {
    var s := [('0' as int + d) as char];
    assert s[1..] == [];
  }

  lemma ShiftDigit(acc: nat, p: nat, q: nat, d: nat)
    ensures (acc * p + q) * 10 + d == acc * (10 * p) + (q * 10 + d)
  {
  }

  function Pow10(k: nat): (p: nat) ensures p >= 1 { if k == 0 then 1 else 10 * Pow10(k - 1) }

  lemma Pow10Succ(k: nat) ensures Pow10(k + 1) == 10 * Pow10(k) { }

  lemma {:induction false} DigitRunConcat(a: string, b: string, acc: nat)
    requires forall i :: 0 <= i < |a| ==> IsDigit(a[i])
    requires b != [] && IsDigit(b[0])
    ensures DigitRun(a + b, acc) == DigitRun(b, DigitRun(a, acc))
  {
    if a == [] {
      assert a + b == b;
    } else {
      assert (a + b)[1..] == a[1..] + b;
      DigitRunConcat(a[1..], b, acc * 10 + DigitValue(a[0]));
    }
  }

  /** to_i reads back what to_s writes, for any integer. */
  lemma ToIDecimal(n: int)
    ensures ToI(if n < 0 then "-" + Decimal(-n) else Decimal(n)) == n
  {
    if n < 0 {
      ToINegative(-n);
    } else {
      ToINatural(n);
    }
  }

  lemma ToINatural(n: nat)
    ensures ToI(Decimal(n)) == n
  {
    var s := Decimal(n);
    assert !IsSpace(s[0]) && s[0] != '-' && s[0] != '+';
    assert SkipSpaces(s) == s;
    MagnitudeDecimal(n);
  }

  /** A decimal spelling has no radix prefix: its second character, if
      any, is a digit. */
  lemma MagnitudeDecimal(n: nat)
    ensures Magnitude(Decimal(n)) == n
  {
    var d := Decimal(n);
    assert |d| > 2 ==> IsDigit(d[1]);
    DigitRunDecimal(n, 0);
  }

  lemma ToINegative(n: nat)
    requires n > 0
    ensures ToI("-" + Decimal(n)) == -(n as int)
  {
    var d := Decimal(n);
    var s := "-" + d;
    assert s[0] == '-' && !IsSpace(s[0]);
    assert SkipSpaces(s) == s;
    assert s[1..] == d && IsDigit(s[1]);
    MagnitudeDecimal(n);
    assert Magnitude(s[1..]) == n;
  }

  /** A "0d" or "0D" radix prefix before the digits is skipped. */
  lemma ToIRadixPrefix(n: nat, d: char)
    requires d == 'd' || d == 'D'
    ensures ToI("0" + [d] + Decimal(n)) == n
  {
    var s := "0" + [d] + Decimal(n);
    assert !IsSpace(s[0]) && s[0] != '-' && s[0] != '+';
    assert SkipSpaces(s) == s;
    assert s[2..] == Decimal(n);
    DigitRunDecimal(n, 0);
  }

  /** A string not starting with a sign, a space or a digit reads as 0. */
  lemma ToINonNumeric(s: string)
    requires s != [] && !IsDigit(s[0]) && !IsSpace(s[0]) && s[0] != '-' && s[0] != '+'
    ensures ToI(s) == 0
  {
  }
}
