/** The blocks donut_pack_block (tools/donut.c:354-471) can write for one
    64-byte source, described mode by mode, and the proof that the block
    decoder restores the source from each of them.

    A mode is a header byte with bits only among 0xf1 (transpose, the two
    prediction bits, the two XOR bits), never both XOR bits, below 0xc0.
    In a mode, plane i is stored XORed as the mode says and is coded when
    the stored value differs from its predicted value. */
module DonutModes {
  import opened DonutPlanes
  import opened DonutBlock

  /** The 24 block modes the encoder tries. */
  predicate Mode(a: bv8) {
    a & 0x0e == 0 && a < 0xc0
  }

  /** A header h reads the planes as mode a stores them: the same
      transpose and prediction bits. */
  predicate ReadsPlanes(h: bv8, a: bv8) {
    h & 0x31 == a & 0x31
  }

  /** A header h writes the planes of mode a back: a is a mode and h has
      its XOR bits. */
  predicate WritesPlanes(h: bv8, a: bv8) {
    Mode(a) && h & 0xc0 == a & 0xc0
  }

  // ---------------------------------------------------------------------
  // Planes of a source and of a mode

  /** The eight planes of 64 source bytes, each read with READ64LE. */
  function Load(src: seq<bv8>): (planes: seq<Plane>)
    requires |src| == 64
    ensures |planes| == 8
  {
    seq(8, k requires 0 <= k < 8 => ReadLE(src[8 * k..8 * k + 8]))
  }

  /** All planes transposed, as the encoder does once before the modes
      with bit 0x01. */
  function FlipAll(planes: seq<Plane>): (r: seq<Plane>)
    requires |planes| == 8
    ensures |r| == 8
  {
    seq(8, k requires 0 <= k < 8 => Transpose(planes[k]))
  }

  /** The planes the encoder works on in mode a. */
  function ModePlanes(planes: seq<Plane>, a: bv8): (r: seq<Plane>)
    requires |planes| == 8
    ensures |r| == 8
  {
    if a & 0x01 != 0 then FlipAll(planes) else planes
  }

  /** The plane plane j is XORed with: the other plane of its pair. */
  function Partner(j: nat): (k: nat)
    requires j < 8
    ensures k < 8
  {
    if j % 2 == 1 then j - 1 else j + 1
  }

  /** Whether mode a XORs plane j: an odd plane under 0x40, an even plane
      under 0x80. */
  predicate XorOn(a: bv8, j: nat) {
    (j % 2 == 1 && a & 0x40 != 0) || (j % 2 == 0 && a & 0x80 != 0)
  }

  /** x, XORed with y when on. */
  function Mixed(x: Plane, y: Plane, on: bool): Plane {
    if on then x ^ y else x
  }

  /** Plane i as stored in mode a: XORed with its partner, taken before any
      XOR, when the mode says so. */
  function Stored(planes: seq<Plane>, a: bv8, i: nat): Plane
    requires |planes| == 8 && i < 8
  {
    Mixed(planes[i], planes[Partner(i)], XorOn(a, i))
  }

  /** Plane i is coded: its stored value is not the predicted one. */
  predicate IsCoded(planes: seq<Plane>, a: bv8, i: nat)
    requires |planes| == 8 && i < 8
  {
    Stored(planes, a, i) != Predicted(a, i)
  }

  /** The pb8 packet of plane i, empty for a plane that is not coded; the
      predicted value's low byte is the packet's top value. */
  function Packet(planes: seq<Plane>, a: bv8, i: nat): (p: seq<bv8>)
    requires |planes| == 8 && i < 8
    ensures |p| <= 9
    ensures IsCoded(planes, a, i) ==> |p| >= 1
    ensures !IsCoded(planes, a, i) ==> p == []
  {
    Pb8Length(Rows(Stored(planes, a, i)), Lo8(Predicted(a, i)));
    if IsCoded(planes, a, i) then Pb8(Rows(Stored(planes, a, i)), Lo8(Predicted(a, i))) else []
  }

  /** The packets of planes i..7, in order. */
  function PacketsFrom(planes: seq<Plane>, a: bv8, i: nat): (ps: seq<bv8>)
    requires |planes| == 8 && i <= 8
    ensures |ps| <= 9 * (8 - i)
    decreases 8 - i
  {
    if i == 8 then [] else Packet(planes, a, i) + PacketsFrom(planes, a, i + 1)
  }

  /** The plane definition of planes i..7: bit 0x80 for plane i, the rest
      below it. */
  function DefFrom(planes: seq<Plane>, a: bv8, i: nat): bv8
    requires |planes| == 8 && i <= 8
    decreases 8 - i
  {
    if i == 8 then 0
    else (if IsCoded(planes, a, i) then 0x80 else 0) | (DefFrom(planes, a, i + 1) >> 1)
  }

  /** The number of coded planes among i..7. */
  function CountFrom(planes: seq<Plane>, a: bv8, i: nat): (n: nat)
    requires |planes| == 8 && i <= 8
    ensures n <= 8 - i
    decreases 8 - i
  {
    if i == 8 then 0 else (if IsCoded(planes, a, i) then 1 else 0) + CountFrom(planes, a, i + 1)
  }

  /** The stored value of the first coded plane among i..7, 0 when there
      is none. */
  function FirstCoded(planes: seq<Plane>, a: bv8, i: nat): Plane
    requires |planes| == 8 && i <= 8
    decreases 8 - i
  {
    if i == 8 then 0
    else if IsCoded(planes, a, i) then Stored(planes, a, i)
    else FirstCoded(planes, a, i + 1)
  }

  /** Every coded plane is stored as f. */
  predicate CodedAllAre(planes: seq<Plane>, a: bv8, f: Plane)
    requires |planes| == 8
  {
    forall j :: 0 <= j < 8 && IsCoded(planes, a, j) ==> Stored(planes, a, j) == f
  }

  /** Plane i as the decoder ends up with it before the XORs: the stored
      value, transposed back under 0x01. */
  function Decoded(planes: seq<Plane>, a: bv8, i: nat): Plane
    requires |planes| == 8 && i < 8
  {
    if a & 0x01 != 0 then Transpose(Stored(planes, a, i)) else Stored(planes, a, i)
  }

  function DecodedFrom(planes: seq<Plane>, a: bv8, i: nat): (ds: seq<Plane>)
    requires |planes| == 8 && i <= 8
    ensures |ds| == 8 - i
    decreases 8 - i
  {
    if i == 8 then [] else [Decoded(planes, a, i)] + DecodedFrom(planes, a, i + 1)
  }

  // ---------------------------------------------------------------------
  // The blocks of a mode

  /** The block as first built: header a | 0x02, the plane definition, and
      the packets. */
  function Basic(planes: seq<Plane>, a: bv8): (b: seq<bv8>)
    requires |planes| == 8
    ensures |b| >= 2 && b[0] == a | 0x02
  {
    [a | 0x02, DefFrom(planes, a, 0)] + PacketsFrom(planes, a, 0)
  }

  /** A plane definition one of the header's 0x0c codes stands for. */
  predicate IsDefaultDef(def: bv8) {
    def == 0x00 || def == 0x55 || def == 0xaa || def == 0xff
  }

  /** The 0x0c code for such a definition: `i >> 1` where
      `(0xffaa5500 >> i) & 0xff` is the definition. */
  function DefaultCode(def: bv8): (code: bv8)
    requires IsDefaultDef(def)
    ensures code & 0xf3 == 0
  {
    if def == 0x00 then 0x00 else if def == 0x55 then 0x04 else if def == 0xaa then 0x08 else 0x0c
  }

  /** The block without its definition byte, the header saying which
      default definition applies. */
  function Elided(planes: seq<Plane>, a: bv8): (b: seq<bv8>)
    requires |planes| == 8 && IsDefaultDef(DefFrom(planes, a, 0))
    ensures |b| >= 1
  {
    [a | DefaultCode(DefFrom(planes, a, 0))] + PacketsFrom(planes, a, 0)
  }

  /** The single-plane block: header a | 0x06, the definition, and the
      first p bytes of the packets, which every coded plane reads. */
  function Single(planes: seq<Plane>, a: bv8, p: nat): (b: seq<bv8>)
    requires |planes| == 8 && p <= |PacketsFrom(planes, a, 0)|
    ensures |b| == 2 + p
  {
    [a | 0x06, DefFrom(planes, a, 0)] + PacketsFrom(planes, a, 0)[..p]
  }

  /** The top value that makes a plane's first row a literal: the
      complement of that row. */
  function ForcedTop(f: Plane): bv8 {
    Lo8(!(f >> 56))
  }

  /** The single-plane block whose one packet holds f with its first row
      as a literal, so that every plane reads it the same whatever its
      predicted top value. */
  function Matched(planes: seq<Plane>, a: bv8, f: Plane): (b: seq<bv8>)
    requires |planes| == 8
    ensures |b| >= 3
  {
    Pb8Length(Rows(f), ForcedTop(f));
    [a | 0x06, DefFrom(planes, a, 0)] + Pb8(Rows(f), ForcedTop(f))
  }

  // ---------------------------------------------------------------------
  // What a block decodes to

  /** The block restores the 64 bytes plain and is read exactly to its
      end, whatever bytes follow it. */
  ghost predicate Decodes(block: seq<bv8>, plain: seq<bv8>) {
    forall rest: seq<bv8> :: |block + rest| >= MaxBlockLength ==> BlockDecode(block + rest) == Unpacked(plain, |block|)
  }

  // ---------------------------------------------------------------------
  // The plane definition and the count

  /** Planes that come before i leave the low i bits of DefFrom(i) clear. */
  lemma {:induction false} DefFromLow(planes: seq<Plane>, a: bv8, i: nat)
    requires |planes| == 8 && i <= 8
    ensures DefFrom(planes, a, i) & LowMask(8 - i) == 0
    decreases 8 - i
  {
    if i < 8 {
      DefFromLow(planes, a, i + 1);
      LowMaskNext(8 - i, if IsCoded(planes, a, i) then 0x80 else 0, DefFrom(planes, a, i + 1));
    }
  }

  /** The definition's top bit is plane i's; shifted left it is the next
      plane's definition, as the decoder's `plane_def <<= 1` reads it. */
  lemma DefFromHead(planes: seq<Plane>, a: bv8, i: nat)
    requires |planes| == 8 && i < 8
    ensures (DefFrom(planes, a, i) & 0x80 != 0) == IsCoded(planes, a, i)
    ensures DefFrom(planes, a, i) << 1 == DefFrom(planes, a, i + 1)
  {
    DefFromLow(planes, a, i + 1);
    LowBit(DefFrom(planes, a, i + 1), LowMask(8 - (i + 1)));
    HeadShift(if IsCoded(planes, a, i) then 0x80 else 0, DefFrom(planes, a, i + 1));
  }

  /** The definition has one bit per coded plane. */
  lemma {:induction false} DefFromCount(planes: seq<Plane>, a: bv8, i: nat)
    requires |planes| == 8 && i <= 8
    ensures Used(DefFrom(planes, a, i), 8 - i) == CountFrom(planes, a, i)
    decreases 8 - i
  {
    if i < 8 {
      DefFromCount(planes, a, i + 1);
      DefFromHead(planes, a, i);
      UsedTop(DefFrom(planes, a, i), 8 - i);
    }
  }

  /** popcount of the plane definition is the number of coded planes. */
  lemma DefCount(planes: seq<Plane>, a: bv8)
    requires |planes| == 8
    ensures Popcount(DefFrom(planes, a, 0)) as nat == CountFrom(planes, a, 0)
  {
    DefFromCount(planes, a, 0);
  }

  // ---------------------------------------------------------------------
  // Decoding one plane

  /** The predicted value depends on the mode's 0x30 bits only. */
  lemma SamePrediction(h: bv8, a: bv8, i: nat)
    requires h & 0x30 == a & 0x30
    ensures Predicted(h, i) == Predicted(a, i)
  {
  }

  /** A plane that is not coded is decoded as its predicted value: the
      transpose keeps the two constant planes. */
  lemma UncodedDecoded(planes: seq<Plane>, a: bv8, h: bv8, i: nat)
    requires |planes| == 8 && i < 8 && !IsCoded(planes, a, i) && h & 0x30 == a & 0x30
    ensures Decoded(planes, a, i) == Predicted(h, i)
  {
    TransposeFixed();
    SamePrediction(h, a, i);
  }

  /** A coded plane's packet, followed by anything, decodes to the plane
      and is read to its end. */
  lemma PacketDecodes(planes: seq<Plane>, a: bv8, h: bv8, i: nat, rest: seq<bv8>)
    requires |planes| == 8 && i < 8 && IsCoded(planes, a, i) && ReadsPlanes(h, a)
    requires |Packet(planes, a, i) + rest| >= 9
    ensures DecodePlane(Packet(planes, a, i) + rest, h, i).0 == Decoded(planes, a, i)
    ensures DecodePlane(Packet(planes, a, i) + rest, h, i).1 == |Packet(planes, a, i)|
  {
    var s := Stored(planes, a, i);
    SamePrediction(h, a, i);
    Pb8RoundTrip(Rows(s), Lo8(Predicted(a, i)), rest);
    OfRowsRows(s);
  }

  /** A packet whose first row is a literal decodes the same whatever the
      top value. */
  lemma TopIrrelevant(packed: seq<bv8>, t: bv8, u: bv8)
    requires |packed| >= 1 && |packed| >= 1 + Used(packed[0], 8) && packed[0] & 0x80 != 0
    ensures Pb8Decode(packed, t) == Pb8Decode(packed, u)
  {
    UnpackSet(packed[0], packed[1..], t, 8);
    UnpackSet(packed[0], packed[1..], u, 8);
  }

  /** The packet of f with the forced top value, followed by anything,
      decodes to f for any plane i whose stored value is f. */
  lemma ForcedPacketDecodes(planes: seq<Plane>, a: bv8, h: bv8, i: nat, f: Plane, rest: seq<bv8>)
    requires |planes| == 8 && i < 8 && Stored(planes, a, i) == f && ReadsPlanes(h, a)
    requires |Pb8(Rows(f), ForcedTop(f)) + rest| >= 9
    ensures DecodePlane(Pb8(Rows(f), ForcedTop(f)) + rest, h, i).0 == Decoded(planes, a, i)
    ensures DecodePlane(Pb8(Rows(f), ForcedTop(f)) + rest, h, i).1 == |Pb8(Rows(f), ForcedTop(f))|
  {
    var rs := Rows(f);
    var t := ForcedTop(f);
    var packed := Pb8(rs, t) + rest;
    assert rs[0] != t by { ForcedTopDiffers(f); }
    FlagsHead(rs, t);
    Pb8RoundTrip(rs, t, rest);
    TopIrrelevant(packed, t, Lo8(Predicted(h, i)));
    OfRowsRows(f);
  }

  lemma ForcedTopDiffers(f: Plane)
    ensures Rows(f)[0] != ForcedTop(f)
  {
  }

  // ---------------------------------------------------------------------
  // Decoding the planes of a block

  /** Reading planes i..7 from position y, where the packets of planes
      i..7 start, gives their decoded values and ends past the packets. */
  lemma {:induction false} DecodeFrom(buf: seq<bv8>, h: bv8, planes: seq<Plane>, a: bv8,
                                      i: nat, y: nat, rest: seq<bv8>)
    requires |buf| >= MaxBlockLength && |planes| == 8 && i <= 8 && ReadsPlanes(h, a)
    requires 1 <= y <= 2 + 9 * i && y <= |buf| && buf[y..] == PacketsFrom(planes, a, i) + rest
    ensures Planes(buf, h, false, DefFrom(planes, a, i), i, y).0 == DecodedFrom(planes, a, i)
    ensures Planes(buf, h, false, DefFrom(planes, a, i), i, y).1 == y + |PacketsFrom(planes, a, i)|
    decreases 8 - i
  {
    if i < 8 {
      var y' := DecodeOne(buf, h, planes, a, i, y, rest);
      DecodeFrom(buf, h, planes, a, i + 1, y', rest);
      DecodeJoin(buf, h, planes, a, i, y, y');
    }
  }

  /** Plane i of DecodeFrom: its packet decodes to it, and the packets of
      the next planes start at y'. */
  lemma DecodeOne(buf: seq<bv8>, h: bv8, planes: seq<Plane>, a: bv8,
                  i: nat, y: nat, rest: seq<bv8>) returns (y': nat)
    requires |buf| >= MaxBlockLength && |planes| == 8 && i < 8 && ReadsPlanes(h, a)
    requires 1 <= y <= 2 + 9 * i && y <= |buf| && buf[y..] == PacketsFrom(planes, a, i) + rest
    ensures y' == y + |Packet(planes, a, i)| && 1 <= y' <= 2 + 9 * (i + 1)
    ensures y' <= |buf| && buf[y'..] == PacketsFrom(planes, a, i + 1) + rest
    ensures |PacketsFrom(planes, a, i)| == |Packet(planes, a, i)| + |PacketsFrom(planes, a, i + 1)|
    ensures IsCoded(planes, a, i) ==>
      DecodePlane(buf[y..], h, i).0 == Decoded(planes, a, i) && DecodePlane(buf[y..], h, i).1 == |Packet(planes, a, i)|
  {
    var pk := Packet(planes, a, i);
    var tail := PacketsFrom(planes, a, i + 1);
    assert buf[y..] == pk + (tail + rest) by { SeqAssoc(pk, tail, rest); }
    y' := y + |pk|;
    DropPrefix(buf, y, pk, tail + rest);
    if IsCoded(planes, a, i) {
      PacketDecodes(planes, a, h, i, tail + rest);
    }
  }

  /** Plane i of DecodeFrom joined to the planes after it. */
  lemma DecodeJoin(buf: seq<bv8>, h: bv8, planes: seq<Plane>, a: bv8, i: nat, y: nat, y': nat)
    requires |buf| >= MaxBlockLength && |planes| == 8 && i < 8 && ReadsPlanes(h, a)
    requires 1 <= y <= 2 + 9 * i && y' == y + |Packet(planes, a, i)|
    requires |PacketsFrom(planes, a, i)| == |Packet(planes, a, i)| + |PacketsFrom(planes, a, i + 1)|
    requires IsCoded(planes, a, i) ==>
      DecodePlane(buf[y..], h, i).0 == Decoded(planes, a, i) && DecodePlane(buf[y..], h, i).1 == |Packet(planes, a, i)|
    requires Planes(buf, h, false, DefFrom(planes, a, i + 1), i + 1, y').0 == DecodedFrom(planes, a, i + 1)
    requires Planes(buf, h, false, DefFrom(planes, a, i + 1), i + 1, y').1 == y' + |PacketsFrom(planes, a, i + 1)|
    ensures Planes(buf, h, false, DefFrom(planes, a, i), i, y).0 == DecodedFrom(planes, a, i)
    ensures Planes(buf, h, false, DefFrom(planes, a, i), i, y).1 == y + |PacketsFrom(planes, a, i)|
  {
    DefFromHead(planes, a, i);
    var def := DefFrom(planes, a, i);
    var d := Decoded(planes, a, i);
    var ds := DecodedFrom(planes, a, i + 1);
    var yEnd := y' + |PacketsFrom(planes, a, i + 1)|;
    assert DecodedFrom(planes, a, i) == [d] + ds;
    if IsCoded(planes, a, i) {
      JoinCoded(buf, h, false, def, i, y, d, y', ds, yEnd);
    } else {
      UncodedDecoded(planes, a, h, i);
      assert y' == y;
      assert def << 1 == DefFrom(planes, a, i + 1);
      JoinPredicted(buf, h, false, def, i, y, d, ds, yEnd);
    }
  }

  /** Dropping a prefix of a suffix. */
  lemma DropPrefix(buf: seq<bv8>, y: nat, pk: seq<bv8>, tail: seq<bv8>)
    requires y <= |buf| && buf[y..] == pk + tail
    ensures y + |pk| <= |buf| && buf[y + |pk|..] == tail
  {
    assert buf[y + |pk|..] == buf[y..][|pk|..];
  }

  /** The coded planes among i..7 all decode from the packet at offset 2:
      reading planes i..7 in single-plane mode gives their decoded values,
      and ends after that packet once some plane has been read. */
  lemma {:induction false} SingleFrom(buf: seq<bv8>, h: bv8, planes: seq<Plane>, a: bv8,
                                      i: nat, y: nat, p: nat)
    requires |buf| >= MaxBlockLength && |planes| == 8 && i <= 8 && ReadsPlanes(h, a)
    requires 1 <= p <= 9 && (y == 2 || (i >= 1 && y == 2 + p))
    requires forall j :: i <= j < 8 && IsCoded(planes, a, j) ==>
      DecodePlane(buf[2..], h, j).0 == Decoded(planes, a, j) && DecodePlane(buf[2..], h, j).1 == p
    ensures Planes(buf, h, true, DefFrom(planes, a, i), i, y).0 == DecodedFrom(planes, a, i)
    ensures Planes(buf, h, true, DefFrom(planes, a, i), i, y).1 == if CountFrom(planes, a, i) > 0 then 2 + p else y
    decreases 8 - i
  {
    if i < 8 {
      var y' := if IsCoded(planes, a, i) then 2 + p else y;
      SingleFrom(buf, h, planes, a, i + 1, y', p);
      SingleJoin(buf, h, planes, a, i, y, p);
    }
  }

  /** Plane i of SingleFrom joined to the planes after it. */
  lemma SingleJoin(buf: seq<bv8>, h: bv8, planes: seq<Plane>, a: bv8, i: nat, y: nat, p: nat)
    requires |buf| >= MaxBlockLength && |planes| == 8 && i < 8 && ReadsPlanes(h, a)
    requires 1 <= p <= 9 && (y == 2 || (i >= 1 && y == 2 + p))
    requires IsCoded(planes, a, i) ==>
      DecodePlane(buf[2..], h, i).0 == Decoded(planes, a, i) && DecodePlane(buf[2..], h, i).1 == p
    requires var y' := if IsCoded(planes, a, i) then 2 + p else y;
      && Planes(buf, h, true, DefFrom(planes, a, i + 1), i + 1, y').0 == DecodedFrom(planes, a, i + 1)
      && Planes(buf, h, true, DefFrom(planes, a, i + 1), i + 1, y').1
         == if CountFrom(planes, a, i + 1) > 0 then 2 + p else y'
    ensures Planes(buf, h, true, DefFrom(planes, a, i), i, y).0 == DecodedFrom(planes, a, i)
    ensures Planes(buf, h, true, DefFrom(planes, a, i), i, y).1 == if CountFrom(planes, a, i) > 0 then 2 + p else y
  {
    DefFromHead(planes, a, i);
    var def := DefFrom(planes, a, i);
    var d := Decoded(planes, a, i);
    var ds := DecodedFrom(planes, a, i + 1);
    assert DecodedFrom(planes, a, i) == [d] + ds;
    if IsCoded(planes, a, i) {
      var yEnd := 2 + p;
      assert CountFrom(planes, a, i) > 0;
      JoinCoded(buf, h, true, def, i, y, d, 2 + p, ds, yEnd);
    } else {
      assert CountFrom(planes, a, i) == CountFrom(planes, a, i + 1);
      var yEnd := if CountFrom(planes, a, i + 1) > 0 then 2 + p else y;
      UncodedDecoded(planes, a, h, i);
      assert def << 1 == DefFrom(planes, a, i + 1);
      JoinPredicted(buf, h, true, def, i, y, d, ds, yEnd);
    }
  }

  /** Reading a plane whose definition bit is set, joined to the planes
      after it. */
  lemma JoinCoded(buf: seq<bv8>, h: bv8, single: bool, def: bv8, i: nat, y: nat,
                  d: Plane, y': nat, ds: seq<Plane>, yEnd: nat)
    requires |buf| >= MaxBlockLength && i < 8 && 1 <= y <= 2 + 9 * i && def & 0x80 != 0
    requires DecodePlane(buf[Base(single, y)..], h, i).0 == d
    requires Base(single, y) + DecodePlane(buf[Base(single, y)..], h, i).1 == y'
    requires Planes(buf, h, single, def << 1, i + 1, y').0 == ds
    requires Planes(buf, h, single, def << 1, i + 1, y').1 == yEnd
    ensures Planes(buf, h, single, def, i, y).0 == [d] + ds
    ensures Planes(buf, h, single, def, i, y).1 == yEnd
  {
    PlanesCoded(buf, h, single, def, i, y, d, y');
  }

  /** Taking the predicted plane, joined to the planes after it. */
  lemma JoinPredicted(buf: seq<bv8>, h: bv8, single: bool, def: bv8, i: nat, y: nat,
                      d: Plane, ds: seq<Plane>, yEnd: nat)
    requires |buf| >= MaxBlockLength && i < 8 && 1 <= y <= 2 + 9 * i && def & 0x80 == 0
    requires d == Predicted(h, i)
    requires Planes(buf, h, single, def << 1, i + 1, y).0 == ds
    requires Planes(buf, h, single, def << 1, i + 1, y).1 == yEnd
    ensures Planes(buf, h, single, def, i, y).0 == [d] + ds
    ensures Planes(buf, h, single, def, i, y).1 == yEnd
  {
    PlanesPredicted(buf, h, single, def, i, y);
  }

  // ---------------------------------------------------------------------
  // From the decoded planes back to the source

  /** Under 0x01 the planes were transposed before the XORs; transposing
      the stored value back undoes both, since the transpose commutes with
      XOR. Plane j is decoded as the source plane stored in mode a. */
  lemma ModeDecoded(p0: seq<Plane>, a: bv8, j: nat)
    requires |p0| == 8 && j < 8
    ensures Decoded(ModePlanes(p0, a), a, j) == Stored(p0, a, j)
  {
    if a & 0x01 != 0 {
      var k := Partner(j);
      assert FlipAll(p0)[j] == Transpose(p0[j]) && FlipAll(p0)[k] == Transpose(p0[k]);
      MixedFlip(p0[j], p0[k], XorOn(a, j));
    }
  }

  lemma MixedFlip(x: Plane, y: Plane, on: bool)
    ensures Transpose(Mixed(Transpose(x), Transpose(y), on)) == Mixed(x, y, on)
  {
    if on {
      FlipBackXor(x, y);
    } else {
      TransposeInvolution(x);
    }
  }

  lemma FlipBackXor(x: Plane, y: Plane)
    ensures Transpose(Transpose(x) ^ Transpose(y)) == x ^ y
  {
    TransposeXor(x, y);
    TransposeInvolution(x ^ y);
  }

  /** The decoder's XORs undo the encoder's: the pair of planes j, j + 1
      stored in mode a is written back as the two source planes. */
  lemma PairRestores(h: bv8, a: bv8, p0: seq<Plane>, j: nat)
    requires WritesPlanes(h, a) && |p0| == 8 && j < 7 && j % 2 == 0
    ensures EvenOut(h, Stored(p0, a, j), Stored(p0, a, j + 1)) == p0[j]
    ensures OddOut(h, Stored(p0, a, j), Stored(p0, a, j + 1)) == p0[j + 1]
  {
    PairXor(h, a, p0[j], p0[j + 1]);
  }

  lemma PairXor(h: bv8, a: bv8, pe: Plane, po: Plane)
    requires WritesPlanes(h, a)
    ensures EvenOut(h, Mixed(pe, po, a & 0x80 != 0), Mixed(po, pe, a & 0x40 != 0)) == pe
    ensures OddOut(h, Mixed(pe, po, a & 0x80 != 0), Mixed(po, pe, a & 0x40 != 0)) == po
  {
  }

  /** The pair of planes j, j + 1 stored in mode a is written back as the
      source bytes of those planes. */
  lemma PairOut(h: bv8, a: bv8, p0: seq<Plane>, j: nat)
    requires WritesPlanes(h, a) && |p0| == 8 && j < 7 && j % 2 == 0
    ensures PairBytes(h, Stored(p0, a, j), Stored(p0, a, j + 1)) == LE(p0[j]) + LE(p0[j + 1])
  {
    PairRestores(h, a, p0, j);
  }

  /** The pair of planes i, i + 1 a block of mode a decodes to is written
      back as the source bytes of those planes. */
  lemma DecodedPairOut(p0: seq<Plane>, a: bv8, h: bv8, i: nat)
    requires |p0| == 8 && WritesPlanes(h, a) && i < 7 && i % 2 == 0
    ensures PairBytes(h, Decoded(ModePlanes(p0, a), a, i), Decoded(ModePlanes(p0, a), a, i + 1))
         == LE(p0[i]) + LE(p0[i + 1])
  {
    ModeDecoded(p0, a, i);
    ModeDecoded(p0, a, i + 1);
    PairOut(h, a, p0, i);
  }

  /** The bytes of the pairs of planes m..3 written back with WRITE64LE. */
  function SourceBytes(p0: seq<Plane>, m: nat): (bs: seq<bv8>)
    requires |p0| == 8 && m <= 4
    ensures |bs| == 16 * (4 - m)
    decreases 4 - m
  {
    if m == 4 then [] else (LE(p0[2 * m]) + LE(p0[2 * m + 1])) + SourceBytes(p0, m + 1)
  }

  /** Combine reads the first two planes, then the rest. */
  lemma CombinePair(h: bv8, d0: Plane, d1: Plane, rest: seq<Plane>)
    ensures Combine(h, [d0] + ([d1] + rest)) == PairBytes(h, d0, d1) + Combine(h, rest)
  {
    var raw := [d0] + ([d1] + rest);
    assert raw[0] == d0 && raw[1] == d1 && raw[2..] == rest;
  }

  /** The planes i..7 a block of mode a decodes to, i = 2m, are written
      back as the source bytes of those planes, pair by pair. */
  lemma {:induction false} CombineDecoded(p0: seq<Plane>, a: bv8, h: bv8, m: nat, i: nat)
    requires |p0| == 8 && WritesPlanes(h, a) && m <= 4 && i == 2 * m
    ensures Combine(h, DecodedFrom(ModePlanes(p0, a), a, i)) == SourceBytes(p0, m)
    decreases 4 - m
  {
    if m < 4 {
      CombineDecoded(p0, a, h, m + 1, i + 2);
      CombineStep(p0, a, h, m, i);
    }
  }

  /** The first pair of planes m..3 a block of mode a decodes to is written
      back as its source bytes. */
  lemma CombineStep(p0: seq<Plane>, a: bv8, h: bv8, m: nat, i: nat)
    requires |p0| == 8 && WritesPlanes(h, a) && m < 4 && i == 2 * m
    ensures Combine(h, DecodedFrom(ModePlanes(p0, a), a, i))
         == (LE(p0[i]) + LE(p0[i + 1])) + Combine(h, DecodedFrom(ModePlanes(p0, a), a, i + 2))
  {
    var d0, d1 := DecodedPair(p0, a, h, i);
    CombinePair(h, d0, d1, DecodedFrom(ModePlanes(p0, a), a, i + 2));
  }

  /** The first pair of planes i..7 a block of mode a decodes to, and the
      source bytes it is written back as. */
  lemma DecodedPair(p0: seq<Plane>, a: bv8, h: bv8, i: nat) returns (d0: Plane, d1: Plane)
    requires |p0| == 8 && WritesPlanes(h, a) && i < 7 && i % 2 == 0
    ensures DecodedFrom(ModePlanes(p0, a), a, i) == [d0] + ([d1] + DecodedFrom(ModePlanes(p0, a), a, i + 2))
    ensures PairBytes(h, d0, d1) == LE(p0[i]) + LE(p0[i + 1])
  {
    var q := ModePlanes(p0, a);
    d0, d1 := Decoded(q, a, i), Decoded(q, a, i + 1);
    assert DecodedFrom(q, a, i + 1) == [d1] + DecodedFrom(q, a, i + 2);
    DecodedPairOut(p0, a, h, i);
  }

  /** Plane k of a source, written back with WRITE64LE, is its eight bytes. */
  lemma PlaneBytes(src: seq<bv8>, k: nat, o: nat)
    requires |src| == 64 && k < 8 && o == 8 * k
    ensures LE(Load(src)[k]) == src[o..o + 8]
  {
    LEReadLE(src[o..o + 8]);
  }

  /** A suffix is its first sixteen bytes and the rest. */
  lemma SplitSixteen(src: seq<bv8>, i: nat)
    requires i + 16 <= |src|
    ensures src[i..] == (src[i..i + 8] + src[i + 8..i + 16]) + src[i + 16..]
  {
  }

  /** The bytes of the pairs of planes m..3 of a source are its bytes from
      16m on. */
  lemma {:induction false} SourceBytesOf(src: seq<bv8>, m: nat, o: nat)
    requires |src| == 64 && m <= 4 && o == 16 * m
    ensures SourceBytes(Load(src), m) == src[o..]
    decreases 4 - m
  {
    if m < 4 {
      SourceBytesOf(src, m + 1, o + 16);
      PlaneBytes(src, 2 * m, o);
      PlaneBytes(src, 2 * m + 1, o + 8);
      SourceStep(src, Load(src), m, o);
    }
  }

  /** Pair m of planes whose bytes are those of the source at o, followed
      by the later pairs. */
  lemma SourceStep(src: seq<bv8>, p0: seq<Plane>, m: nat, o: nat)
    requires |src| == 64 && |p0| == 8 && m < 4 && o == 16 * m
    requires LE(p0[2 * m]) == src[o..o + 8] && LE(p0[2 * m + 1]) == src[o + 8..o + 16]
    requires SourceBytes(p0, m + 1) == src[o + 16..]
    ensures SourceBytes(p0, m) == src[o..]
  {
    SplitSixteen(src, o);
  }

  /** The planes a block of mode a decodes to are written back as the
      source. */
  lemma PlanesGiveSource(src: seq<bv8>, a: bv8, h: bv8)
    requires |src| == 64 && WritesPlanes(h, a)
    ensures Combine(h, DecodedFrom(ModePlanes(Load(src), a), a, 0)) == src
  {
    CombineDecoded(Load(src), a, h, 0, 0);
    SourceBytesOf(src, 0, 0);
    assert src[0..] == src;
  }
}
