/** The plane-level primitives of the Donut CHR codec (tools/donut.c): the
    "pb8" byte packer and unpacker, the 8x8 bit transpose, and popcount.
    A plane is eight bytes of one 1bpp tile held in a 64-bit word; its
    rows, as pb8 visits them, run from the most significant byte down. */
module DonutPlanes {

  type Plane = bv64

  const AllOnes: Plane := 0xffff_ffff_ffff_ffff

  /** The low byte of a word: a conversion to uint8_t. */
  function Lo8(x: bv64): bv8 {
    (x & 0xff) as bv8
  }

  /** The eight bytes of a plane, most significant first. */
  function Rows(p: Plane): (rs: seq<bv8>)
    ensures |rs| == 8
  {
    [Lo8(p >> 56), Lo8(p >> 48), Lo8(p >> 40), Lo8(p >> 32), Lo8(p >> 24), Lo8(p >> 16), Lo8(p >> 8), Lo8(p)]
  }

  /** Shifting bytes in at the bottom, as the unpacker's `val <<= 8; val |= b` does. */
  function OfRows(rs: seq<bv8>): Plane {
    if rs == [] then 0 else (OfRows(rs[..|rs| - 1]) << 8) | (rs[|rs| - 1] as bv64)
  }

  function Join(b0: bv8, b1: bv8, b2: bv8, b3: bv8, b4: bv8, b5: bv8, b6: bv8, b7: bv8): Plane {
    ((b0 as bv64) << 56) | ((b1 as bv64) << 48) | ((b2 as bv64) << 40) | ((b3 as bv64) << 32)
    | ((b4 as bv64) << 24) | ((b5 as bv64) << 16) | ((b6 as bv64) << 8) | (b7 as bv64)
  }

  lemma JoinRows(b0: bv8, b1: bv8, b2: bv8, b3: bv8, b4: bv8, b5: bv8, b6: bv8, b7: bv8)
    ensures Rows(Join(b0, b1, b2, b3, b4, b5, b6, b7)) == [b0, b1, b2, b3, b4, b5, b6, b7]
  {
  }

  lemma OfRowsJoin(rs: seq<bv8>)
    requires |rs| == 8
    ensures OfRows(rs) == Join(rs[0], rs[1], rs[2], rs[3], rs[4], rs[5], rs[6], rs[7])
  {
    assert rs[..1][..0] == [];
    assert OfRows(rs[..1]) == (OfRows([]) << 8) | (rs[0] as bv64);
    assert rs[..2][..1] == rs[..1];
    var f2 := OfRows(rs[..2]);
    assert rs[..3][..2] == rs[..2];
    var f3 := OfRows(rs[..3]);
    assert rs[..4][..3] == rs[..3];
    var f4 := OfRows(rs[..4]);
    assert rs[..5][..4] == rs[..4];
    var f5 := OfRows(rs[..5]);
    assert rs[..6][..5] == rs[..5];
    var f6 := OfRows(rs[..6]);
    assert rs[..7][..6] == rs[..6];
    var f7 := OfRows(rs[..7]);
    assert rs[..8][..7] == rs[..7];
    assert rs[..8] == rs;
  }

  /** Rows and OfRows are inverse on eight bytes. */
  lemma RowsOfRows(rs: seq<bv8>)
    requires |rs| == 8
    ensures Rows(OfRows(rs)) == rs
  {
    OfRowsJoin(rs);
    JoinRows(rs[0], rs[1], rs[2], rs[3], rs[4], rs[5], rs[6], rs[7]);
  }

  lemma OfRowsRows(p: Plane)
    ensures OfRows(Rows(p)) == p
  {
    var rs := Rows(p);
    OfRowsJoin(rs);
  }

  /** The shift that brings row i to the bottom. */
  function RowShift(i: nat): (k: bv8)
    requires i < 8
    ensures k as int == 8 * (7 - i)
  {
    if i == 0 then 56 else if i == 1 then 48 else if i == 2 then 40 else if i == 3 then 32
    else if i == 4 then 24 else if i == 5 then 16 else if i == 6 then 8 else 0
  }

  /** `src >> (8 * (7 - i))` truncated to a byte is row i. */
  lemma ShiftRow(p: Plane, i: nat)
    requires i < 8
    ensures Lo8(p >> RowShift(i)) == Rows(p)[i]
  {
    var rs := Rows(p);
    if i == 0 { assert rs[0] == Lo8(p >> 56); }
    else if i == 1 { assert rs[1] == Lo8(p >> 48); }
    else if i == 2 { assert rs[2] == Lo8(p >> 40); }
    else if i == 3 { assert rs[3] == Lo8(p >> 32); }
    else if i == 4 { assert rs[4] == Lo8(p >> 24); }
    else if i == 5 { assert rs[5] == Lo8(p >> 16); }
    else if i == 6 { assert rs[6] == Lo8(p >> 8); }
    else { assert rs[7] == Lo8(p >> 0); }
  }

  // ---------------------------------------------------------------------
  // pb8

  /** Row i differs from its predecessor: the previous row, or the
      predicted top value before the first. */
  predicate Changed(rs: seq<bv8>, top: bv8, i: nat)
    requires i < |rs|
  {
    rs[i] != (if i == 0 then top else rs[i - 1])
  }

  /** The flag byte: bit 0x80 >> i is set when row i changed. */
  function Flags(rs: seq<bv8>, top: bv8): bv8
    requires |rs| <= 8
  {
    if rs == [] then 0 else (if rs[0] != top then 0x80 else 0) | (Flags(rs[1..], rs[0]) >> 1)
  }

  /** The literal bytes: every changed row, in order. */
  function Literals(rs: seq<bv8>, top: bv8): seq<bv8> {
    if rs == [] then [] else (if rs[0] != top then [rs[0]] else []) + Literals(rs[1..], rs[0])
  }

  /** A pb8 packet: the flag byte, then the literals. */
  function Pb8(rs: seq<bv8>, top: bv8): seq<bv8>
    requires |rs| <= 8
  {
    [Flags(rs, top)] + Literals(rs, top)
  }

  /** The flag bits of the rows past the n-th, 0xff >> n, by table. */
  function LowMask(n: nat): (m: bv8)
    requires n <= 8
    ensures m == 0xff >> n
    ensures n < 8 ==> m & 1 == 1
  {
    if n == 0 then 0xff else if n == 1 then 0x7f else if n == 2 then 0x3f else if n == 3 then 0x1f
    else if n == 4 then 0x0f else if n == 5 then 0x07 else if n == 6 then 0x03 else if n == 7 then 0x01 else 0
  }

  /** Rows that do not exist leave their flag bits clear. */
  lemma {:induction false} FlagsLow(rs: seq<bv8>, top: bv8)
    requires |rs| <= 8
    ensures Flags(rs, top) & LowMask(|rs|) == 0
  {
    if rs != [] {
      FlagsLow(rs[1..], rs[0]);
      LowMaskNext(|rs|, if rs[0] != top then 0x80 else 0, Flags(rs[1..], rs[0]));
    }
  }

  lemma LowMaskNext(n: nat, b: bv8, f: bv8)
    requires 0 < n <= 8 && (b == 0 || b == 0x80) && f & LowMask(n - 1) == 0
    ensures (b | (f >> 1)) & LowMask(n) == 0
  {
  }

  /** Flag bit 0x80 >> i is set exactly when row i differs from its predecessor. */
  lemma {:induction false} FlagBit(rs: seq<bv8>, top: bv8, i: nat)
    requires |rs| <= 8 && i < |rs|
    ensures (Flags(rs, top) & (0x80 >> i) != 0) <==> Changed(rs, top, i)
  {
    if i > 0 {
      FlagBit(rs[1..], rs[0], i - 1);
      var f := Flags(rs[1..], rs[0]);
      var b: bv8 := if rs[0] != top then 0x80 else 0;
      assert ((b | (f >> 1)) & (0x80 >> i) != 0) <==> (f & (0x80 >> (i - 1)) != 0);
    }
  }

  lemma LowBit(f: bv8, m: bv8)
    requires f & m == 0 && m & 1 == 1
    ensures f & 1 == 0
  {
  }

  lemma HeadShift(b: bv8, f: bv8)
    requires (b == 0 || b == 0x80) && f & 1 == 0
    ensures ((b | (f >> 1)) & 0x80 != 0) == (b == 0x80)
    ensures (b | (f >> 1)) << 1 == f
  {
  }

  /** The number of flag bits set among the first n, taken from the top. */
  function Used(flags: bv8, n: nat): nat
    decreases n
  {
    if n == 0 then 0 else (if flags & 0x80 != 0 then 1 else 0) + Used(flags << 1, n - 1)
  }

  /** The bytes a pb8 flag byte describes: a set bit takes the next literal,
      a clear bit repeats the previous byte. */
  function Unpack(flags: bv8, lits: seq<bv8>, prev: bv8, n: nat): (rs: seq<bv8>)
    requires |lits| >= Used(flags, n)
    ensures |rs| == n
    decreases n
  {
    if n == 0 then []
    else if flags & 0x80 != 0 then [lits[0]] + Unpack(flags << 1, lits[1..], lits[0], n - 1)
    else [prev] + Unpack(flags << 1, lits, prev, n - 1)
  }

  /** What donut_unpack_pb8 reads from src: eight rows and the bytes consumed. */
  function Pb8Decode(src: seq<bv8>, top: bv8): (seq<bv8>, nat)
    requires |src| >= 1 && |src| >= 1 + Used(src[0], 8)
  {
    (Unpack(src[0], src[1..], top, 8), 1 + Used(src[0], 8))
  }

  /** The flag byte's top bit is row 0's; shifted left it is the rest's. */
  lemma FlagsHead(rs: seq<bv8>, top: bv8)
    requires 0 < |rs| <= 8
    ensures (Flags(rs, top) & 0x80 != 0) == (rs[0] != top)
    ensures Flags(rs, top) << 1 == Flags(rs[1..], rs[0])
  {
    FlagsLow(rs[1..], rs[0]);
    LowBit(Flags(rs[1..], rs[0]), LowMask(|rs| - 1));
    HeadShift(if rs[0] != top then 0x80 else 0, Flags(rs[1..], rs[0]));
  }

  lemma {:induction false} LiteralsLength(rs: seq<bv8>, top: bv8)
    requires |rs| <= 8
    ensures |Literals(rs, top)| == Used(Flags(rs, top), |rs|) <= |rs|
  {
    if rs != [] {
      LiteralsLength(rs[1..], rs[0]);
      FlagsHead(rs, top);
    }
  }

  lemma {:induction false} UnpackLiterals(rs: seq<bv8>, top: bv8, rest: seq<bv8>)
    requires |rs| <= 8
    ensures |Literals(rs, top) + rest| >= Used(Flags(rs, top), |rs|)
    ensures Unpack(Flags(rs, top), Literals(rs, top) + rest, top, |rs|) == rs
  {
    LiteralsLength(rs, top);
    if rs != [] {
      UnpackLiterals(rs[1..], rs[0], rest);
      UnpackHead(rs, top, rest);
    }
  }

  /** One step of the round trip: the first row, then the rest's packet. */
  lemma UnpackHead(rs: seq<bv8>, top: bv8, rest: seq<bv8>)
    requires 0 < |rs| <= 8
    requires |Literals(rs[1..], rs[0]) + rest| >= Used(Flags(rs[1..], rs[0]), |rs| - 1)
    ensures |Literals(rs, top) + rest| >= Used(Flags(rs, top), |rs|)
    ensures Unpack(Flags(rs, top), Literals(rs, top) + rest, top, |rs|)
         == [rs[0]] + Unpack(Flags(rs[1..], rs[0]), Literals(rs[1..], rs[0]) + rest, rs[0], |rs| - 1)
  {
    FlagsHead(rs, top);
    LiteralsLength(rs, top);
    LiteralsLength(rs[1..], rs[0]);
    if rs[0] != top {
      UnpackHeadChanged(rs, top, rest);
    } else {
      UnpackHeadSame(rs, top, rest);
    }
  }

  lemma UnpackHeadChanged(rs: seq<bv8>, top: bv8, rest: seq<bv8>)
    requires 0 < |rs| <= 8 && rs[0] != top
    requires |Literals(rs[1..], rs[0]) + rest| >= Used(Flags(rs[1..], rs[0]), |rs| - 1)
    requires Flags(rs, top) & 0x80 != 0 && Flags(rs, top) << 1 == Flags(rs[1..], rs[0])
    ensures |Literals(rs, top) + rest| >= Used(Flags(rs, top), |rs|)
    ensures Unpack(Flags(rs, top), Literals(rs, top) + rest, top, |rs|)
         == [rs[0]] + Unpack(Flags(rs[1..], rs[0]), Literals(rs[1..], rs[0]) + rest, rs[0], |rs| - 1)
  {
    var lits := Literals(rs, top) + rest;
    ConsAssoc(rs[0], Literals(rs[1..], rs[0]), rest);
    assert lits[1..] == Literals(rs[1..], rs[0]) + rest;
    UnpackSet(Flags(rs, top), lits, top, |rs|);
  }

  lemma UnpackHeadSame(rs: seq<bv8>, top: bv8, rest: seq<bv8>)
    requires 0 < |rs| <= 8 && rs[0] == top
    requires |Literals(rs[1..], rs[0]) + rest| >= Used(Flags(rs[1..], rs[0]), |rs| - 1)
    requires Flags(rs, top) & 0x80 == 0 && Flags(rs, top) << 1 == Flags(rs[1..], rs[0])
    ensures |Literals(rs, top) + rest| >= Used(Flags(rs, top), |rs|)
    ensures Unpack(Flags(rs, top), Literals(rs, top) + rest, top, |rs|)
         == [rs[0]] + Unpack(Flags(rs[1..], rs[0]), Literals(rs[1..], rs[0]) + rest, rs[0], |rs| - 1)
  {
    assert Literals(rs, top) == Literals(rs[1..], rs[0]);
    UnpackClear(Flags(rs, top), Literals(rs, top) + rest, top, |rs|);
  }

  /** Unpacking what pb8 packed, with the same top value, gives back the
      eight rows and consumes exactly the packed bytes, whatever follows. */
  lemma Pb8RoundTrip(rs: seq<bv8>, top: bv8, rest: seq<bv8>)
    requires |rs| == 8
    ensures var packed := Pb8(rs, top) + rest;
      |packed| >= 1 && |packed| >= 1 + Used(packed[0], 8)
      && Pb8Decode(packed, top) == (rs, |Pb8(rs, top)|)
  {
    UnpackLiterals(rs, top, rest);
    Pb8Length(rs, top);
    var lits := Literals(rs, top) + rest;
    ConsAssoc(Flags(rs, top), Literals(rs, top), rest);
    Pb8DecodeSplit(Pb8(rs, top) + rest, Flags(rs, top), lits, top);
  }

  lemma Pb8DecodeSplit(packed: seq<bv8>, flags: bv8, lits: seq<bv8>, top: bv8)
    requires packed == [flags] + lits && |lits| >= Used(flags, 8)
    ensures |packed| >= 1 && |packed| >= 1 + Used(packed[0], 8)
    ensures Pb8Decode(packed, top).0 == Unpack(flags, lits, top, 8)
    ensures Pb8Decode(packed, top).1 == 1 + Used(flags, 8)
  {
    assert packed[1..] == lits;
  }

  /** A packet is 1 + (number of changed rows) bytes: 1 to 9. */
  lemma Pb8Length(rs: seq<bv8>, top: bv8)
    requires |rs| == 8
    ensures |Pb8(rs, top)| == 1 + Used(Flags(rs, top), 8)
    ensures 1 <= |Pb8(rs, top)| <= 9
  {
    LiteralsLength(rs, top);
  }

  lemma {:induction false} LiteralsSnoc(rs: seq<bv8>, top: bv8, i: nat)
    requires i < |rs|
    ensures Literals(rs[..i + 1], top) == Literals(rs[..i], top) + (if Changed(rs, top, i) then [rs[i]] else [])
  {
    if i > 0 {
      LiteralsSnoc(rs[1..], rs[0], i - 1);
      assert rs[..i + 1][1..] == rs[1..][..i];
      assert rs[..i][1..] == rs[1..][..i - 1];
    }
  }

  lemma {:induction false} FlagsSnoc(rs: seq<bv8>, top: bv8, i: nat)
    requires i < |rs| <= 8
    ensures Flags(rs[..i + 1], top) == Flags(rs[..i], top) | (if Changed(rs, top, i) then RowFlag(i) else 0)
  {
    if i > 0 {
      FlagsSnoc(rs[1..], rs[0], i - 1);
      FlagsCons(rs, top, i + 1);
      FlagsCons(rs, top, i);
      RowFlagNext(i);
      assert Changed(rs, top, i) == Changed(rs[1..], rs[0], i - 1);
      var c: bv8 := if Changed(rs[1..], rs[0], i - 1) then RowFlag(i - 1) else 0;
      assert (if Changed(rs, top, i) then RowFlag(i) else 0) == c >> 1;
      OrShift(if rs[0] != top then 0x80 else 0, Flags(rs[1..][..i - 1], rs[0]), c);
    }
  }

  /** The flags of a non-empty prefix: the first row's bit, then the rest's flags shifted down. */
  lemma FlagsCons(rs: seq<bv8>, top: bv8, k: nat)
    requires 0 < k <= |rs| <= 8
    ensures Flags(rs[..k], top) == (if rs[0] != top then 0x80 else 0) | (Flags(rs[1..][..k - 1], rs[0]) >> 1)
  {
    assert rs[..k][1..] == rs[1..][..k - 1];
  }

  lemma OrShift(h: bv8, a: bv8, c: bv8)
    ensures h | ((a | c) >> 1) == (h | (a >> 1)) | (c >> 1)
  {
  }

  lemma RowFlagNext(i: nat)
    requires 0 < i < 8
    ensures RowFlag(i) == RowFlag(i - 1) >> 1
  {
  }

  /** The packer's loop state after i of the rows rs: the flag bits and
      literals of those rows, and the last row seen. */
  ghost predicate PackState(rs: seq<bv8>, top: bv8, i: nat, flags: bv8, lits: seq<bv8>, prev: bv8)
    requires |rs| == 8
  {
    && i <= 8
    && prev == (if i == 0 then top else rs[i - 1])
    && lits == Literals(rs[..i], top)
    && flags == Flags(rs[..i], top)
  }

  /** The flag bit of row i, 0x80 >> i, by table. */
  function RowFlag(i: nat): (b: bv8)
    requires i < 8
    ensures b == 0x80 >> i
  {
    if i == 0 then 0x80 else if i == 1 then 0x40 else if i == 2 then 0x20 else if i == 3 then 0x10
    else if i == 4 then 0x08 else if i == 5 then 0x04 else if i == 6 then 0x02 else 0x01
  }

  /** A row that differs from its predecessor is written and flagged. */
  lemma PackStepChanged(rs: seq<bv8>, top: bv8, i: nat, flags: bv8, lits: seq<bv8>, prev: bv8)
    requires |rs| == 8 && PackState(rs, top, i, flags, lits, prev) && i < 8
    requires rs[i] != prev
    ensures PackState(rs, top, i + 1, flags | RowFlag(i), lits + [rs[i]], rs[i])
  {
    LiteralsSnoc(rs, top, i);
    FlagsSnoc(rs, top, i);
  }

  /** A row equal to its predecessor is skipped. */
  lemma PackStepSame(rs: seq<bv8>, top: bv8, i: nat, flags: bv8, lits: seq<bv8>, prev: bv8)
    requires |rs| == 8 && PackState(rs, top, i, flags, lits, prev) && i < 8
    requires rs[i] == prev
    ensures PackState(rs, top, i + 1, flags, lits, rs[i])
  {
    LiteralsSnoc(rs, top, i);
    FlagsSnoc(rs, top, i);
  }

  /** donut_pack_pb8 (tools/donut.c:163-177): rows are visited most
      significant first; a row equal to its predecessor is skipped, any other
      is written and sets its flag bit. */
  method PackPb8(src: Plane, top: bv8) returns (dst: seq<bv8>)
    ensures dst == Pb8(Rows(src), top)
    ensures 1 <= |dst| <= 9
  {
    ghost var rs := Rows(src);
    var flags: bv8 := 0;
    var lits: seq<bv8> := [];
    var prev := top;
    var i := 0;
    while i < 8
      invariant PackState(rs, top, i, flags, lits, prev)
    {
      var c := Lo8(src >> RowShift(i));
      ShiftRow(src, i);
      if c != prev {
        PackStepChanged(rs, top, i, flags, lits, prev);
        lits := lits + [c];
        flags := flags | RowFlag(i);
      } else {
        PackStepSame(rs, top, i, flags, lits, prev);
      }
      prev := c;
      i := i + 1;
    }
    assert rs[..8] == rs;
    dst := [flags] + lits;
    Pb8Length(rs, top);
  }

  /** One row of Unpack: a set top bit takes the next literal... */
  lemma UnpackSet(flags: bv8, lits: seq<bv8>, prev: bv8, n: nat)
    requires n > 0 && |lits| >= Used(flags, n) && flags & 0x80 != 0
    ensures 1 <= |lits| && Used(flags, n) == 1 + Used(flags << 1, n - 1)
    ensures Unpack(flags, lits, prev, n) == [lits[0]] + Unpack(flags << 1, lits[1..], lits[0], n - 1)
  {
  }

  /** ... and a clear one repeats the previous byte. */
  lemma UnpackClear(flags: bv8, lits: seq<bv8>, prev: bv8, n: nat)
    requires n > 0 && |lits| >= Used(flags, n) && flags & 0x80 == 0
    ensures Used(flags, n) == Used(flags << 1, n - 1)
    ensures Unpack(flags, lits, prev, n) == [prev] + Unpack(flags << 1, lits, prev, n - 1)
  {
  }

  lemma OfRowsSnoc(rs: seq<bv8>, b: bv8)
    ensures OfRows(rs + [b]) == (OfRows(rs) << 8) | (b as bv64)
  {
    assert (rs + [b])[..|rs|] == rs;
  }

  /** The unpacker's loop state after i rows: the rows done so far, the
      flag byte shifted by i, the last byte and the read position. */
  ghost predicate UnpackState(src: seq<bv8>, top: bv8, i: nat, done: seq<bv8>, flags: bv8, prev: bv8, y: nat)
    requires |src| >= 1 && |src| >= 1 + Used(src[0], 8)
  {
    && i <= 8 && |done| == i
    && y + Used(flags, 8 - i) == 1 + Used(src[0], 8) && y <= |src|
    && done + Unpack(flags, src[y..], prev, 8 - i) == Unpack(src[0], src[1..], top, 8)
  }

  /** A set flag bit always has its literal in the source. */
  lemma UnpackStateBound(src: seq<bv8>, top: bv8, i: nat, done: seq<bv8>, flags: bv8, prev: bv8, y: nat)
    requires |src| >= 1 && |src| >= 1 + Used(src[0], 8)
    requires UnpackState(src, top, i, done, flags, prev, y) && i < 8
    ensures flags & 0x80 != 0 ==> y < |src|
  {
    if flags & 0x80 != 0 {
      UnpackSet(flags, src[y..], prev, 8 - i);
    }
  }

  /** A row whose flag bit is set: the next literal. */
  lemma UnpackStepSet(src: seq<bv8>, top: bv8, i: nat, done: seq<bv8>, flags: bv8, prev: bv8, y: nat)
    requires |src| >= 1 && |src| >= 1 + Used(src[0], 8)
    requires UnpackState(src, top, i, done, flags, prev, y) && i < 8
    requires flags & 0x80 != 0 && y < |src|
    ensures UnpackState(src, top, i + 1, done + [src[y]], flags << 1, src[y], y + 1)
  {
    var lits := src[y..];
    UnpackSet(flags, lits, prev, 8 - i);
    assert lits[1..] == src[y + 1..];
    SnocAssoc(done, src[y], Unpack(flags << 1, src[y + 1..], src[y], 7 - i));
  }

  /** A row whose flag bit is clear: the previous byte again. */
  lemma UnpackStepClear(src: seq<bv8>, top: bv8, i: nat, done: seq<bv8>, flags: bv8, prev: bv8, y: nat)
    requires |src| >= 1 && |src| >= 1 + Used(src[0], 8)
    requires UnpackState(src, top, i, done, flags, prev, y) && i < 8
    requires flags & 0x80 == 0
    ensures UnpackState(src, top, i + 1, done + [prev], flags << 1, prev, y)
  {
    UnpackClear(flags, src[y..], prev, 8 - i);
    SnocAssoc(done, prev, Unpack(flags << 1, src[y..], prev, 7 - i));
  }

  lemma ConsAssoc<T>(b: T, lits: seq<T>, rest: seq<T>)
    ensures ([b] + lits) + rest == [b] + (lits + rest)
  {
  }

  lemma SnocAssoc<T>(done: seq<T>, b: T, tail: seq<T>)
    ensures (done + [b]) + tail == done + ([b] + tail)
  {
  }

  /** donut_unpack_pb8 (tools/donut.c:144-161): reads the flag byte, then
      for each set bit, from the top, the next literal. */
  method UnpackPb8(src: seq<bv8>, top: bv8) returns (plane: Plane, y: nat)
    requires |src| >= 1 && |src| >= 1 + Used(src[0], 8)
    ensures (Rows(plane), y) == Pb8Decode(src, top)
  {
    y := 1;
    var flags := src[0];
    var prev := top;
    var val: bv64 := 0;
    ghost var done: seq<bv8> := [];
    var i := 0;
    while i < 8
      invariant i <= 8
      invariant UnpackState(src, top, i, done, flags, prev, y)
      invariant val == OfRows(done)
    {
      UnpackStateBound(src, top, i, done, flags, prev, y);
      if flags & 0x80 != 0 {
        UnpackStepSet(src, top, i, done, flags, prev, y);
        prev := src[y];
        y := y + 1;
      } else {
        UnpackStepClear(src, top, i, done, flags, prev, y);
      }
      flags := flags << 1;
      OfRowsSnoc(done, prev);
      val := (val << 8) | (prev as bv64);
      done := done + [prev];
      i := i + 1;
    }
    plane := val;
    UnpackStateDone(src, top, i, done, flags, prev, y);
    RowsOfRows(done);
  }

  /** After eight rows the unpacker has read the whole packet. */
  lemma UnpackStateDone(src: seq<bv8>, top: bv8, i: nat, done: seq<bv8>, flags: bv8, prev: bv8, y: nat)
    requires |src| >= 1 && |src| >= 1 + Used(src[0], 8)
    requires UnpackState(src, top, i, done, flags, prev, y) && i == 8
    ensures |done| == 8 && (done, y) == Pb8Decode(src, top)
  {
    assert Unpack(flags, src[y..], prev, 0) == [];
    assert Used(flags, 0) == 0;
    assert done + [] == done;
  }

  lemma {:induction false} UsedAtMost(flags: bv8, n: nat)
    ensures Used(flags, n) <= n
    decreases n
  {
    if n > 0 {
      UsedAtMost(flags << 1, n - 1);
    }
  }

  // ---------------------------------------------------------------------
  // popcount

  /** The number of set bits, counted one bit at a time. */
  function BitCount(x: bv8): nat {
    Used(x, 8)
  }

  /** donut_popcount (tools/donut.c:247-253): the parallel bit-count. */
  function Popcount(x: bv8): (r: bv8)
    ensures r as nat == BitCount(x) <= 8
  {
    PopcountSteps(x);
    var x1 := (x & 0x55) + ((x >> 1) & 0x55);
    var x2 := (x1 & 0x33) + ((x1 >> 2) & 0x33);
    (x2 & 0x0f) + ((x2 >> 4) & 0x0f)
  }

  /** Bit k of x, as a number. */
  function B(x: bv8, k: bv8): nat
    requires k < 8
  {
    if (x >> k) & 1 == 1 then 1 else 0
  }

  lemma UsedBits(x: bv8)
    ensures Used(x, 8) == B(x, 7) + B(x, 6) + B(x, 5) + B(x, 4) + B(x, 3) + B(x, 2) + B(x, 1) + B(x, 0)
  {
    UsedTop(x, 8);
    UsedTop(x << 1, 7);
    UsedTop(x << 2, 6);
    UsedTop(x << 3, 5);
    UsedTop(x << 4, 4);
    UsedTop(x << 5, 3);
    UsedTop(x << 6, 2);
    UsedTop(x << 7, 1);
    assert Used((x << 7) << 1, 0) == 0;
    ShiftBits(x);
  }

  /** Used counts the top bit, then the rest shifted up. */
  lemma UsedTop(y: bv8, n: nat)
    requires n > 0
    ensures Used(y, n) == (if y & 0x80 != 0 then 1 else 0) + Used(y << 1, n - 1)
  {
  }

  /** The top bit of x shifted up by j is bit 7 - j of x; shifting twice adds up. */
  lemma ShiftBits(x: bv8)
    ensures (x << 1) << 1 == x << 2 && (x << 2) << 1 == x << 3 && (x << 3) << 1 == x << 4
    ensures (x << 4) << 1 == x << 5 && (x << 5) << 1 == x << 6 && (x << 6) << 1 == x << 7
    ensures B(x, 7) == (if x & 0x80 != 0 then 1 else 0)
    ensures B(x, 6) == (if (x << 1) & 0x80 != 0 then 1 else 0)
    ensures B(x, 5) == (if (x << 2) & 0x80 != 0 then 1 else 0)
    ensures B(x, 4) == (if (x << 3) & 0x80 != 0 then 1 else 0)
    ensures B(x, 3) == (if (x << 4) & 0x80 != 0 then 1 else 0)
    ensures B(x, 2) == (if (x << 5) & 0x80 != 0 then 1 else 0)
    ensures B(x, 1) == (if (x << 6) & 0x80 != 0 then 1 else 0)
    ensures B(x, 0) == (if (x << 7) & 0x80 != 0 then 1 else 0)
  {
  }

  lemma PopcountSteps(x: bv8)
    ensures var x1 := (x & 0x55) + ((x >> 1) & 0x55);
            var x2 := (x1 & 0x33) + ((x1 >> 2) & 0x33);
            ((x2 & 0x0f) + ((x2 >> 4) & 0x0f)) as nat
              == B(x, 7) + B(x, 6) + B(x, 5) + B(x, 4) + B(x, 3) + B(x, 2) + B(x, 1) + B(x, 0)
    ensures B(x, 7) + B(x, 6) + B(x, 5) + B(x, 4) + B(x, 3) + B(x, 2) + B(x, 1) + B(x, 0) == BitCount(x)
  {
    UsedBits(x);
    var x1 := (x & 0x55) + ((x >> 1) & 0x55);
    var x2 := (x1 & 0x33) + ((x1 >> 2) & 0x33);
    var r := (x2 & 0x0f) + ((x2 >> 4) & 0x0f);
    var s: bv8 := ((x >> 7) & 1) + ((x >> 6) & 1) + ((x >> 5) & 1) + ((x >> 4) & 1)
                + ((x >> 3) & 1) + ((x >> 2) & 1) + ((x >> 1) & 1) + (x & 1);
    assert r == s;
    assert s as nat == B(x, 7) + B(x, 6) + B(x, 5) + B(x, 4) + B(x, 3) + B(x, 2) + B(x, 1) + B(x, 0);
  }

  // ---------------------------------------------------------------------
  // 8x8 transpose

  /** Bit 0 of each byte of q, gathered into one byte (byte k's bit to bit k). */
  function Column0(q: bv64): bv64 {
    (q & 1) | ((q >> 7) & 2) | ((q >> 14) & 4) | ((q >> 21) & 8)
    | ((q >> 28) & 16) | ((q >> 35) & 32) | ((q >> 42) & 64) | ((q >> 49) & 128)
  }

  /** The transpose in one expression: byte i of the result gathers bit i
      of every byte. */
  function TransposeBits(p: Plane): Plane {
    Column0(p) | (Column0(p >> 1) << 8) | (Column0(p >> 2) << 16) | (Column0(p >> 3) << 24)
    | (Column0(p >> 4) << 32) | (Column0(p >> 5) << 40) | (Column0(p >> 6) << 48) | (Column0(p >> 7) << 56)
  }

  /** The transpose. It is TransposeBits, reached through a short chain of
      recursive calls: the verifier unfolds a recursive call only a bounded
      number of times, so proofs that pass planes around see the bit
      formula only where TransposeIsBits brings it in. */
  function Transpose(p: Plane): Plane {
    Deferred(p, 3)
  }

  function Deferred(p: Plane, n: nat): Plane
    decreases n
  {
    if n == 0 then TransposeBits(p) else Deferred(p, n - 1)
  }

  lemma TransposeIsBits(p: Plane)
    ensures Transpose(p) == TransposeBits(p)
  {
    assert Deferred(p, 3) == Deferred(p, 2) == Deferred(p, 1) == Deferred(p, 0);
  }

  lemma BitsInvolution(p: Plane)
    ensures TransposeBits(TransposeBits(p)) == p
  {
  }

  lemma BitsXor(p: Plane, q: Plane)
    ensures TransposeBits(p ^ q) == TransposeBits(p) ^ TransposeBits(q)
  {
  }

  lemma XorCongruence(x: Plane, y: Plane, u: Plane, v: Plane)
    requires x == u && y == v
    ensures x ^ y == u ^ v
  {
  }

  /** Transposing twice is the identity. */
  lemma TransposeInvolution(p: Plane)
    ensures Transpose(Transpose(p)) == p
  {
    TransposeIsBits(p);
    TransposeIsBits(TransposeBits(p));
    BitsInvolution(p);
  }

  /** The transpose commutes with XOR, so it can be applied before or after
      the XOR between planes. */
  lemma TransposeXor(p: Plane, q: Plane)
    ensures Transpose(p ^ q) == Transpose(p) ^ Transpose(q)
  {
    TransposeIsBits(p);
    TransposeIsBits(q);
    TransposeIsBits(p ^ q);
    BitsXor(p, q);
    XorCongruence(Transpose(p), Transpose(q), TransposeBits(p), TransposeBits(q));
  }

  /** The two constant planes are their own transposes. */
  lemma TransposeFixed()
    ensures Transpose(0) == 0 && Transpose(AllOnes) == AllOnes
  {
    TransposeIsBits(0);
    TransposeIsBits(AllOnes);
    assert TransposeBits(0) == 0 && TransposeBits(AllOnes) == AllOnes;
  }

  /** The body of donut_flip_plane's loop (tools/donut.c:189-193): mask the
      low bit of each byte, multiply so that they meet in the top byte, and
      shift that byte down. */
  function GatherColumn(q: bv64): bv64 {
    (((q & 0x0101010101010101) * 0x0102040810204080) >> 56) & 0xff
  }

  /** The multiply-and-shift trick gathers the low bit of each byte. */
  lemma GatherByMultiply(q: bv64)
    ensures GatherColumn(q) == Column0(q)
  {
  }

  /** plane >> i for a column number i, one literal shift per column. */
  function ShiftRight(p: Plane, i: nat): Plane
    requires i < 8
  {
    if i == 0 then p else if i == 1 then p >> 1 else if i == 2 then p >> 2 else if i == 3 then p >> 3
    else if i == 4 then p >> 4 else if i == 5 then p >> 5 else if i == 6 then p >> 6 else p >> 7
  }

  /** t << (i * 8): the low byte of t moved to byte i. */
  function ToByte(t: Plane, i: nat): Plane
    requires i < 8
  {
    if i == 0 then t else if i == 1 then t << 8 else if i == 2 then t << 16 else if i == 3 then t << 24
    else if i == 4 then t << 32 else if i == 5 then t << 40 else if i == 6 then t << 48 else t << 56
  }

  /** Column i of p: bit i of every byte, gathered into one byte. */
  function Column(p: Plane, i: nat): Plane
    requires i < 8
  {
    Column0(ShiftRight(p, i))
  }

  /** The first k columns of the transpose, column j as byte j, as the flip
      loop builds them. */
  function PartialTranspose(p: Plane, k: nat): Plane
    requires k <= 8
  {
    if k == 0 then 0 else PartialTranspose(p, k - 1) | ToByte(Column(p, k - 1), k - 1)
  }

  /** One pass of the flip loop adds column k - 1 as byte k - 1. */
  lemma PartialTransposeNext(p: Plane, k: nat)
    requires 1 <= k <= 8
    ensures PartialTranspose(p, k) == PartialTranspose(p, k - 1) | ToByte(Column(p, k - 1), k - 1)
  {
  }

  lemma PartialTransposeHalf(p: Plane)
    ensures PartialTranspose(p, 4)
         == Column0(p) | (Column0(p >> 1) << 8) | (Column0(p >> 2) << 16) | (Column0(p >> 3) << 24)
  {
    PartialTransposeNext(p, 1); PartialTransposeNext(p, 2); PartialTransposeNext(p, 3); PartialTransposeNext(p, 4);
  }

  lemma PartialTransposeSix(p: Plane)
    ensures PartialTranspose(p, 6)
         == Column0(p) | (Column0(p >> 1) << 8) | (Column0(p >> 2) << 16) | (Column0(p >> 3) << 24)
            | (Column0(p >> 4) << 32) | (Column0(p >> 5) << 40)
  {
    PartialTransposeHalf(p);
    PartialTransposeNext(p, 5); PartialTransposeNext(p, 6);
  }

  /** After eight passes the loop has built the whole transpose. */
  lemma PartialTransposeAll(p: Plane)
    ensures PartialTranspose(p, 8) == TransposeBits(p)
  {
    PartialTransposeSix(p);
    PartialTransposeNext(p, 7); PartialTransposeNext(p, 8);
  }

  /** The first half of the loop body (tools/donut.c:187-191): shift column i
      down to bit 0 of each byte, then gather it by the multiply. */
  method GatherColumnAt(plane: Plane, i: nat) returns (t: bv64)
    requires i < 8
    ensures t == Column(plane, i)
  {
    t := ShiftRight(plane, i);
    GatherByMultiply(t);
    t := t & 0x0101010101010101;
    t := t * 0x0102040810204080;
    t := t >> 56;
    t := t & 0xff;
  }

  ghost predicate FlipState(p: Plane, i: nat, result: Plane) {
    i <= 8 && result == PartialTranspose(p, i)
  }

  lemma FlipStep(p: Plane, i: nat, result: Plane, t: Plane)
    requires FlipState(p, i, result) && i < 8 && t == Column(p, i)
    ensures FlipState(p, i + 1, result | ToByte(t, i))
  {
    PartialTransposeNext(p, i + 1);
  }

  /** donut_flip_plane (tools/donut.c:179-195): the two constant planes are
      returned at once; any other is transposed one column at a time. */
  method FlipPlane(plane: Plane) returns (result: Plane)
    ensures result == Transpose(plane)
    ensures plane == 0 || plane == AllOnes ==> result == plane
  {
    TransposeFixed();
    if plane == AllOnes {
      return plane;
    }
    if plane == 0 {
      return plane;
    }
    result := 0;
    var i := 0;
    while i < 8
      invariant FlipState(plane, i, result)
    {
      var t := GatherColumnAt(plane, i);
      FlipStep(plane, i, result, t);
      result := result | ToByte(t, i);
      i := i + 1;
    }
    PartialTransposeAll(plane);
    TransposeIsBits(plane);
  }
}
