/** Decimal-to-tile conversion and the random helpers of src/utils.cpp and
    src/utils.hpp. The console's rand8() draws are parameters. */
module Utils {
  import opened Common
  import Charset

  /** The tile of a dimmed leading zero (assets.hpp). */
  const DarkZeroTile: u8 := 0x6e

  /** The tile drawing decimal digit d. */
  function DigitTile(d: nat): (t: u8)
    requires d < 10
    ensures Charset.DigitsBaseTile <= t < DarkZeroTile
  {
    Charset.DigitsBaseTile + d
  }

  /** The digit a tile draws: a digit tile or the dark zero. */
  function TileDigit(t: u8): nat {
    if Charset.DigitsBaseTile <= t < Charset.DigitsBaseTile + 10 then t - Charset.DigitsBaseTile else 0
  }

  /** The four decimal digits of a score up to 9999, most significant
      first. */
  function Digits4(v: nat): (ds: seq<nat>)
    requires v <= 9999
    ensures |ds| == 4 && forall i :: 0 <= i < 4 ==> ds[i] < 10
    ensures ds[0] * 1000 + ds[1] * 100 + ds[2] * 10 + ds[3] == v
  {
    var r0 := v % 1000;
    var r1 := r0 % 100;
    [v / 1000, r0 / 100, r1 / 10, r1 % 10]
  }

  /** The digits before and at position i are all zero. */
  predicate LeadingZero(ds: seq<nat>, i: nat)
    requires i < |ds|
  {
    forall k :: 0 <= k <= i ==> ds[k] == 0
  }

  /** The four score tiles: digit tiles, with the leading zeros among the
      first three dimmed. */
  function ScoreTiles(v: nat): (ts: seq<u8>)
    requires v <= 9999
    ensures |ts| == 4
  {
    var ds := Digits4(v);
    seq(4, i requires 0 <= i < 4 => if i < 3 && LeadingZero(ds, i) then DarkZeroTile else DigitTile(ds[i]))
  }

  /** Reading four tiles back as a number, the dark zero counting as 0. */
  function TilesValue(ts: seq<u8>): nat
    requires |ts| == 4
  {
    TileDigit(ts[0]) * 1000 + TileDigit(ts[1]) * 100 + TileDigit(ts[2]) * 10 + TileDigit(ts[3])
  }

  /** The tiles show the score: reading them back gives the value. The last
      tile is never dimmed, and a dimmed tile only ever stands for a leading
      zero. */
  lemma ScoreTilesShowValue(v: nat)
    requires v <= 9999
    ensures TilesValue(ScoreTiles(v)) == v
    ensures ScoreTiles(v)[3] == DigitTile(v % 10)
    ensures forall i :: 0 <= i < 3 ==> (ScoreTiles(v)[i] == DarkZeroTile <==> LeadingZero(Digits4(v), i))
  {
    var ds := Digits4(v);
    var ts := ScoreTiles(v);
    forall i | 0 <= i < 4
      ensures TileDigit(ts[i]) == ds[i]
    {
    }
  }

  /** The two tiles of a number below 100: the tens dimmed when zero. */
  function TwoDigitTiles(v: nat): (ts: seq<u8>)
    requires v < 100
    ensures |ts| == 2
  {
    [if v < 10 then DarkZeroTile else DigitTile(v / 10), DigitTile(v % 10)]
  }

  lemma TwoDigitTilesShowValue(v: nat)
    requires v < 100
    ensures TileDigit(TwoDigitTiles(v)[0]) * 10 + TileDigit(TwoDigitTiles(v)[1]) == v
    ensures TwoDigitTiles(v)[0] == DarkZeroTile <==> v < 10
  {
  }

  /** `|=` of a fresh low bit into a nibble is addition. */
  lemma OrFreshBit(t: u8, b: u8)
    requires b == 1 || b == 2 || b == 4 || b == 8
    requires t < 16 && t % (2 * b) == 0
    ensures Or8(t, b) == t + b
  {
    var tb := t as bv8;
    assert (tb | (b as bv8)) == tb + (b as bv8);
  }

  /** One decimal digit by subtracting 8, 4, 2 and 1 times the digit's
      place value and or-ing the matching bits, as both versions of
      int_to_text do. Below ten times the place this is the digit and the
      remainder; above it the steps stop at 15 and leave the rest. */
  method GreedyBits(value: u16, place: nat) returns (t: u8, rest: u16)
    requires place == 1000 || place == 100 || place == 10
    ensures t < 16 && rest <= value
    ensures value < 10 * place ==> t == value / place && rest == value % place
  {
    t := 0;
    rest := value;
    t, rest := GreedyStep(value, place, t, rest, 8);
    t, rest := GreedyStep(value, place, t, rest, 4);
    t, rest := GreedyStep(value, place, t, rest, 2);
    t, rest := GreedyStep(value, place, t, rest, 1);
    if value < 10 * place {
      DivModUnique(value, place, t, rest);
    }
  }

  /** One step of the greedy digit: subtract b times the place value when
      the rest allows it and set bit b. While the value is below 16 times
      the place, the rest stays below b times the place. */
  method GreedyStep(ghost value: nat, place: nat, t0: u8, rest0: u16, b: u8) returns (t: u8, rest: u16)
    requires place > 0 && (b == 1 || b == 2 || b == 4 || b == 8)
    requires t0 < 16 && t0 % (2 * b) == 0 && value == t0 * place + rest0
    requires value < 16 * place ==> rest0 < 2 * b * place
    ensures t < 16 && t % b == 0 && value == t * place + rest && rest <= rest0
    ensures value < 16 * place ==> rest < b * place
  {
    t, rest := t0, rest0;
    if rest >= b * place {
      OrFreshBit(t, b);
      t := Or8(t, b);
      rest := rest - b * place;
      assert value == t * place + rest by { AddMul(t0, b, place); }
    }
  }

  lemma AddMul(t: int, b: int, p: int)
    ensures (t + b) * p == t * p + b * p
  {
  }

  lemma DivModUnique(v: nat, p: nat, q: nat, r: nat)
    requires p == 1000 || p == 100 || p == 10
    requires v == q * p + r && r < p
    ensures q == v / p && r == v % p
  {
    if p == 1000 {
      assert v == q * 1000 + r;
    } else if p == 100 {
      assert v == q * 100 + r;
    } else {
      assert v == q * 10 + r;
    }
  }

  /** u8_to_text (utils.cpp:5-30): for a value below 100, the tens tile
      (dimmed when zero) and the units tile; only the first two entries are
      written. */
  method U8ToText(scoreText: array<u8>, value: u8)
    requires scoreText.Length >= 2
    modifies scoreText
    ensures value < 100 ==> scoreText[..2] == TwoDigitTiles(value)
    ensures scoreText[2..] == old(scoreText[2..])
  {
    var t, v := GreedyBits(value, 10);
    scoreText[0] := t;
    if scoreText[0] == 0 {
      scoreText[0] := DarkZeroTile;
    } else {
      scoreText[0] := ToU8(scoreText[0] + Charset.DigitsBaseTile);
    }
    scoreText[1] := ToU8(Charset.DigitsBaseTile + v);
  }

  /** int_to_text (utils.cpp:32-99): the four score tiles for a value up to
      9999; only the first four entries are written. */
  method IntToText(scoreText: array<u8>, value: u16)
    requires scoreText.Length >= 4
    modifies scoreText
    ensures value <= 9999 ==> scoreText[..4] == ScoreTiles(value)
    ensures scoreText[4..] == old(scoreText[4..])
  {
    var t0, v0 := GreedyBits(value, 1000);
    scoreText[0] := ToU8(t0 + Charset.DigitsBaseTile);
    var t1, v1 := GreedyBits(v0, 100);
    scoreText[1] := ToU8(t1 + Charset.DigitsBaseTile);
    var t2, v2 := GreedyBits(v1, 10);
    scoreText[2] := ToU8(t2 + Charset.DigitsBaseTile);
    scoreText[3] := ToU8(Charset.DigitsBaseTile + v2);
    ghost var digits := scoreText[..4];
    assert digits == Seq4(ToU8(t0 + Charset.DigitsBaseTile), ToU8(t1 + Charset.DigitsBaseTile),
                          ToU8(t2 + Charset.DigitsBaseTile), ToU8(Charset.DigitsBaseTile + v2));
    DarkenLeadingZeros(scoreText);
    if value <= 9999 {
      ghost var ds := Digits4(value);
      assert ds == [t0 as nat, t1 as nat, t2 as nat, v2 as nat];
      TileOfDigit(t0);
      TileOfDigit(t1);
      TileOfDigit(t2);
      TileOfDigit(v2);
      assert digits == Seq4(DigitTile(ds[0]), DigitTile(ds[1]), DigitTile(ds[2]), DigitTile(ds[3]));
      DarkenedDigitsAreScoreTiles(value, digits);
    }
  }

  lemma TileOfDigit(d: nat)
    requires d < 10
    ensures ToU8(d + Charset.DigitsBaseTile) == DigitTile(d)
    ensures ToU8(Charset.DigitsBaseTile + d) == DigitTile(d)
  {
  }

  function Seq4(a: u8, b: u8, c: u8, d: u8): (s: seq<u8>)
    ensures |s| == 4 && s[0] == a && s[1] == b && s[2] == c && s[3] == d
  {
    [a, b, c, d]
  }

  /** Dimming the leading zero tiles of the four digit tiles gives the
      score tiles. */
  lemma DarkenedDigitsAreScoreTiles(value: nat, digits: seq<u8>)
    requires value <= 9999 && |digits| == 4
    requires digits == Seq4(DigitTile(Digits4(value)[0]), DigitTile(Digits4(value)[1]),
                            DigitTile(Digits4(value)[2]), DigitTile(Digits4(value)[3]))
    ensures Darkened(digits) == ScoreTiles(value)
  {
    var ds := Digits4(value);
    forall i | 0 <= i < 4
      ensures Darkened(digits)[i] == ScoreTiles(value)[i]
    {
      if i < 3 {
        DimPrefixIsLeadingZero(digits, ds, i);
      }
    }
  }

  /** Four tiles with those up to each of the first three positions that
      all sit at or below the tile of 0 replaced by the dark zero. */
  function Darkened(ts: seq<u8>): (r: seq<u8>)
    requires |ts| == 4
    ensures |r| == 4 && r[3] == ts[3]
  {
    seq(4, i requires 0 <= i < 4 => if i < 3 && DimPrefix(ts, i) then DarkZeroTile else ts[i])
  }

  /** The tiles up to position i all sit at or below the tile of 0. */
  predicate DimPrefix(ts: seq<u8>, i: nat)
    requires i < |ts|
  {
    forall k :: 0 <= k <= i ==> ts[k] <= Charset.DigitsBaseTile
  }

  /** On digit tiles, "at or below the tile of 0" means "is 0". */
  lemma DimPrefixIsLeadingZero(ts: seq<u8>, ds: seq<nat>, i: nat)
    requires |ts| == |ds| && i < |ts|
    requires forall k :: 0 <= k < |ds| ==> ds[k] < 10 && ts[k] == DigitTile(ds[k])
    ensures DimPrefix(ts, i) <==> LeadingZero(ds, i)
  {
  }

  /** The "leading zeroes are darker" loop of both int_to_text versions
      (utils.cpp:92-98): dim tiles from the left while they show at most the
      tile of 0, three at most. */
  method DarkenLeadingZeros(scoreText: array<u8>)
    requires scoreText.Length >= 4
    modifies scoreText
    ensures scoreText[..4] == Darkened(old(scoreText[..4]))
    ensures scoreText[4..] == old(scoreText[4..])
  {
    ghost var ts := scoreText[..4];
    var i := 0;
    while i < 3
      invariant 0 <= i <= 3
      invariant forall k :: 0 <= k < i ==> DimPrefix(ts, k) && scoreText[k] == DarkZeroTile
      invariant forall k :: i <= k < 4 ==> scoreText[k] == ts[k]
      invariant scoreText[4..] == old(scoreText[4..])
    {
      if scoreText[i] > Charset.DigitsBaseTile {
        assert forall k :: i <= k < 4 ==> !DimPrefix(ts, k);
        break;
      }
      scoreText[i] := DarkZeroTile;
      i := i + 1;
    }
    assert scoreText[..4] == Darkened(ts);
  }

  /** RAND_UP_TO(n) (utils.hpp:3): the 8-bit draw scaled to 0..n-1 by a
      16-bit multiply and a shift by 8. The product of a byte and n <= 256
      never exceeds 16 bits. */
  function RandUpToMacro(draw: u8, n: nat): (r: u8)
    requires 0 < n <= 256
    ensures r < n
    ensures r * 256 <= draw * n < r * 256 + 256
  {
    ScaleBound(draw, n);
    draw * n / 256
  }

  lemma ScaleBound(draw: u8, n: nat)
    requires 0 < n <= 256
    ensures draw * n / 256 < n
  {
    assert draw * n <= 255 * n by { MulMono(draw, 255, n); }
  }

  lemma MulMono(a: nat, b: nat, n: nat)
    requires a <= b
    ensures a * n <= b * n
  {
  }

  /** `& 31` keeps the low five bits. */
  lemma Low5(draw: bv8)
    ensures (draw & 31) as int == draw as int % 32
  {
  }

  /** Subtracting the modulus keeps the remainder. */
  lemma SubMod(a: int, n: int)
    requires n > 0
    ensures (a - n) % n == a % n
  {
    var q := a / n;
    var r := a % n;
    assert a == q * n + r;
    assert a - n == (q - 1) * n + r;
    ModUnique(a - n, n, q - 1, r);
  }

  /** rand_up_to (utils.cpp:101-107): the low five bits of the draw, reduced
      by repeated subtraction. With n == 0 the loop never ends, so a caller
      must pass n > 0. */
  method RandUpTo(n: u8, draw: bv8) returns (result: u8)
    requires n > 0
    ensures result < n
    ensures result == (draw as int % 32) % n
  {
    Low5(draw);
    result := (draw & 31) as int;
    ghost var low := result;
    while result >= n
      invariant result % n == low % n
      decreases result
    {
      SubMod(result, n);
      result := result - n;
    }
    ModUnique(result, n, 0, result);
  }
}
