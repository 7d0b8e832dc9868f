/** One 64-byte block of the Donut CHR codec (tools/donut.c): the block
    decoder, the cost model the encoder optimises against, and the encoder
    that tries every block mode.

    A block header byte below 0xc0 reads, bit by bit:
      0x01 planes are stored transposed;
      0x02 a plane-definition byte follows the header (else 0x0c picks one
           of 0x00, 0x55, 0xaa, 0xff);
      0x04 with 0x02: every stored plane reuses the one pb8 packet at offset 2;
      0x10 odd planes are predicted as all ones, 0x20 even planes likewise;
      0x40 odd planes are stored XORed with the even plane before them;
      0x80 even planes are stored XORed with the odd plane after them.
    Header 0x2a is a raw block; a header with none of 0x3e is 64 zero bytes. */
module DonutBlock {
  import opened DonutPlanes

  const RawHeader: bv8 := 0x2a

  /** The largest number of bytes one block can occupy: header, plane
      definition, and eight full pb8 packets. */
  const MaxBlockLength: nat := 74

  /** The eight bytes of a plane as WRITE64LE stores them. */
  function LE(p: Plane): (bs: seq<bv8>)
    ensures |bs| == 8
  {
    var rs := Rows(p);
    [rs[7], rs[6], rs[5], rs[4], rs[3], rs[2], rs[1], rs[0]]
  }

  /** READ64LE of eight bytes. */
  function ReadLE(bs: seq<bv8>): Plane
    requires |bs| == 8
  {
    OfRows([bs[7], bs[6], bs[5], bs[4], bs[3], bs[2], bs[1], bs[0]])
  }

  lemma LEReadLE(bs: seq<bv8>)
    requires |bs| == 8
    ensures LE(ReadLE(bs)) == bs
  {
    RowsOfRows([bs[7], bs[6], bs[5], bs[4], bs[3], bs[2], bs[1], bs[0]]);
  }

  function Zeros(n: nat): (z: seq<bv8>)
    ensures |z| == n && forall i :: 0 <= i < n ==> z[i] == 0
  {
    seq(n, _ => 0)
  }

  /** The plane definition a header implies when no definition byte follows:
      `0xffaa5500 >> ((header & 0x0c) << 1)` truncated to a byte. */
  function DefaultPlaneDef(h: bv8): (d: bv8)
    ensures h & 0x0c == 0x00 ==> d == 0x00
    ensures h & 0x0c == 0x04 ==> d == 0x55
    ensures h & 0x0c == 0x08 ==> d == 0xaa
    ensures h & 0x0c == 0x0c ==> d == 0xff
  {
    (((0xffaa5500 as bv32) >> ((h & 0x0c) << 1)) & 0xff) as bv8
  }

  /** The predicted value of plane i: all ones when the header's 0x20 (even
      planes) or 0x10 (odd planes) bit says so, otherwise zero. */
  function Predicted(h: bv8, i: nat): (p: Plane)
    ensures p == 0 || p == AllOnes
  {
    if (i % 2 == 0 && h & 0x20 != 0) || (i % 2 == 1 && h & 0x10 != 0) then AllOnes else 0
  }

  /** Plane i read from a pb8 packet at the start of src, predicted value as
      the top byte, transposed back when the header says so. */
  function DecodePlane(src: seq<bv8>, h: bv8, i: nat): (r: (Plane, nat))
    requires |src| >= 9
    ensures 1 <= r.1 <= 9
  {
    UsedAtMost(src[0], 8);
    var d := Pb8Decode(src, Lo8(Predicted(h, i)));
    var p := OfRows(d.0);
    (if h & 0x01 != 0 then Transpose(p) else p, d.1)
  }

  /** Where plane i's packet is read: at the read position y, or always at
      offset 2 in single-plane mode. */
  function Base(single: bool, y: nat): nat {
    if single then 2 else y
  }

  /** Planes i..7 of a block, read from position y of the block: a set
      plane-definition bit reads the packet at Base(single, y) and moves the
      read position past it; a clear one leaves the predicted plane. Also
      gives the final read position. */
  function Planes(src: seq<bv8>, h: bv8, single: bool, def: bv8, i: nat, y: nat): (r: (seq<Plane>, nat))
    requires |src| >= MaxBlockLength && i <= 8 && 1 <= y <= 2 + 9 * i
    ensures |r.0| == 8 - i && 1 <= r.1 <= MaxBlockLength
    decreases 8 - i
  {
    if i == 8 then ([], y)
    else if def & 0x80 != 0 then
      var base := Base(single, y);
      var d := DecodePlane(src[base..], h, i);
      var rest := Planes(src, h, single, def << 1, i + 1, base + d.1);
      ([d.0] + rest.0, rest.1)
    else
      var rest := Planes(src, h, single, def << 1, i + 1, y);
      ([Predicted(h, i)] + rest.0, rest.1)
  }

  /** The sixteen output bytes of one pair of planes: with 0x80 the even
      plane is XORed with the odd one, then with 0x40 the odd plane with the
      new even one; the even plane is written first, little-endian. */
  function PairBytes(h: bv8, e: Plane, o: Plane): (out: seq<bv8>)
    ensures |out| == 16
  {
    LE(EvenOut(h, e, o)) + LE(OddOut(h, e, o))
  }

  /** The even plane as written: XORed with the odd one under 0x80. */
  function EvenOut(h: bv8, e: Plane, o: Plane): Plane {
    if h & 0x80 != 0 then e ^ o else e
  }

  /** The odd plane as written: XORed with the even plane as written under
      0x40. (The C code then keeps this value as the previous plane, which
      the next, even, plane never reads.) */
  function OddOut(h: bv8, e: Plane, o: Plane): Plane {
    if h & 0x40 != 0 then o ^ EvenOut(h, e, o) else o
  }

  /** The output bytes of all pairs of planes. */
  function Combine(h: bv8, raw: seq<Plane>): (out: seq<bv8>)
  {
    if |raw| < 2 then [] else PairBytes(h, raw[0], raw[1]) + Combine(h, raw[2..])
  }

  /** Every pair of planes gives 16 bytes. */
  lemma {:induction false} CombineLength(h: bv8, raw: seq<Plane>)
    requires |raw| % 2 == 0
    ensures |Combine(h, raw)| == 8 * |raw|
  {
    if |raw| >= 2 {
      CombineLength(h, raw[2..]);
    }
  }

  /** What donut_unpack_block writes and returns. */
  datatype Unpacked = Unpacked(out: seq<bv8>, used: nat)

  /** The block decoder: the source holds at least the 74 bytes the largest
      block can occupy (donut_decompress pads a short tail with zeros). */
  function BlockDecode(src: seq<bv8>): (r: Unpacked)
    requires |src| >= MaxBlockLength
  {
    var h := src[0];
    if h >= 0xc0 then Unpacked([], 0)
    else if h & 0x3e == 0 then Unpacked(Zeros(64), 1)
    else if h == RawHeader then Unpacked(src[1..65], 65)
    else
      var d := Planes(src, h, SingleMode(h), StartDef(src), 0, StartPos(h));
      Unpacked(Combine(h, d.0), d.1)
  }

  /** The decoder's three fixed cases. */
  lemma BlockDecodeFixed(src: seq<bv8>)
    requires |src| >= MaxBlockLength
    ensures src[0] >= 0xc0 ==> BlockDecode(src) == Unpacked([], 0)
    ensures src[0] < 0xc0 && src[0] & 0x3e == 0 ==> BlockDecode(src) == Unpacked(Zeros(64), 1)
    ensures src[0] == RawHeader ==> BlockDecode(src) == Unpacked(src[1..65], 65)
  {
  }

  /** A decoded block is 64 bytes long and takes 1 to 74 source bytes,
      unless its header is 0xc0 or above. */
  lemma BlockDecodeBounds(src: seq<bv8>)
    requires |src| >= MaxBlockLength
    ensures src[0] < 0xc0 ==> |BlockDecode(src).out| == 64 && 1 <= BlockDecode(src).used <= MaxBlockLength
    ensures src[0] >= 0xc0 ==> BlockDecode(src).used == 0
  {
    var h := src[0];
    CombineLength(h, Planes(src, h, SingleMode(h), StartDef(src), 0, StartPos(h)).0);
  }

  lemma {:induction false} CombineSnoc(h: bv8, raw: seq<Plane>, e: Plane, o: Plane)
    requires |raw| % 2 == 0
    ensures Combine(h, raw + [e, o]) == Combine(h, raw) + PairBytes(h, e, o)
  {
    var pb := PairBytes(h, e, o);
    if raw == [] {
      assert [e, o][2..] == [];
      assert Combine(h, [e, o]) == pb + Combine(h, []);
    } else {
      var rest := raw[2..];
      assert (raw + [e, o])[2..] == rest + [e, o];
      CombineSnoc(h, rest, e, o);
      var first := PairBytes(h, raw[0], raw[1]);
      assert Combine(h, raw + [e, o]) == first + (Combine(h, rest) + pb);
      SeqAssoc(first, Combine(h, rest), pb);
    }
  }

  lemma SeqAssoc<T>(a: seq<T>, b: seq<T>, c: seq<T>)
    ensures a + (b + c) == (a + b) + c
  {
  }

  /** The decoder's reading state after i planes: the planes read so far
      are a prefix of what the specification reads, and reading the rest
      from the current position gives the rest and the same end. */
  ghost predicate ReadState(src: seq<bv8>, h: bv8, single: bool, y0: nat, def0: bv8,
                            i: nat, def: bv8, y: nat, raw: seq<Plane>)
    requires |src| >= MaxBlockLength
  {
    && i <= 8 && |raw| == i && 1 <= y0 <= 2 && 1 <= y <= 2 + 9 * i
    && var d := Planes(src, h, single, def, i, y);
    && var full := Planes(src, h, single, def0, 0, y0);
    raw + d.0 == full.0 && d.1 == full.1
  }

  /** Reading plane i when its definition bit is set. */
  lemma ReadStepCoded(src: seq<bv8>, h: bv8, single: bool, y0: nat, def0: bv8,
                      i: nat, def: bv8, y: nat, raw: seq<Plane>, p: Plane, y': nat)
    requires |src| >= MaxBlockLength && def & 0x80 != 0
    requires ReadState(src, h, single, y0, def0, i, def, y, raw) && i < 8
    requires DecodePlane(src[Base(single, y)..], h, i).0 == p
    requires Base(single, y) + DecodePlane(src[Base(single, y)..], h, i).1 == y'
    ensures ReadState(src, h, single, y0, def0, i + 1, def << 1, y', raw + [p])
  {
    PlanesCoded(src, h, single, def, i, y, p, y');
    SeqAssoc(raw, [p], Planes(src, h, single, def << 1, i + 1, y').0);
  }

  /** Reading plane i when its definition bit is clear: the predicted
      plane, nothing read. */
  lemma ReadStepPredicted(src: seq<bv8>, h: bv8, single: bool, y0: nat, def0: bv8,
                          i: nat, def: bv8, y: nat, raw: seq<Plane>, p: Plane)
    requires |src| >= MaxBlockLength && def & 0x80 == 0
    requires ReadState(src, h, single, y0, def0, i, def, y, raw) && i < 8
    requires p == Predicted(h, i)
    ensures ReadState(src, h, single, y0, def0, i + 1, def << 1, y, raw + [p])
  {
    var d' := Planes(src, h, single, def << 1, i + 1, y);
    PlanesPredicted(src, h, single, def, i, y);
    SeqAssoc(raw, [p], d'.0);
  }

  lemma PlanesCoded(src: seq<bv8>, h: bv8, single: bool, def: bv8, i: nat, y: nat, p: Plane, y': nat)
    requires |src| >= MaxBlockLength && i < 8 && 1 <= y <= 2 + 9 * i && def & 0x80 != 0
    requires DecodePlane(src[Base(single, y)..], h, i).0 == p
    requires Base(single, y) + DecodePlane(src[Base(single, y)..], h, i).1 == y'
    ensures y' <= 2 + 9 * (i + 1)
    ensures Planes(src, h, single, def, i, y).0 == [p] + Planes(src, h, single, def << 1, i + 1, y').0
    ensures Planes(src, h, single, def, i, y).1 == Planes(src, h, single, def << 1, i + 1, y').1
  {
  }

  lemma PlanesPredicted(src: seq<bv8>, h: bv8, single: bool, def: bv8, i: nat, y: nat)
    requires |src| >= MaxBlockLength && i < 8 && 1 <= y <= 2 + 9 * i && def & 0x80 == 0
    ensures var rest := Planes(src, h, single, def << 1, i + 1, y);
      Planes(src, h, single, def, i, y) == ([Predicted(h, i)] + rest.0, rest.1)
  {
  }

  /** The decoder's output state after i planes: every finished pair is
      written, and after an even plane that plane is held in prev. */
  ghost predicate WriteState(h: bv8, i: nat, raw: seq<Plane>, dst: seq<bv8>, prev: Plane) {
    && i <= 8 && |raw| == i
    && if i % 2 == 0 then dst == Combine(h, raw)
       else dst == Combine(h, raw[..i - 1]) && prev == raw[i - 1]
  }

  lemma WriteStepEven(h: bv8, i: nat, raw: seq<Plane>, dst: seq<bv8>, prev: Plane, p: Plane)
    requires WriteState(h, i, raw, dst, prev) && i < 8 && i % 2 == 0
    ensures WriteState(h, i + 1, raw + [p], dst, p)
  {
    assert (raw + [p])[..i] == raw;
  }

  lemma WriteStepOdd(h: bv8, i: nat, raw: seq<Plane>, dst: seq<bv8>, prev: Plane, p: Plane)
    requires WriteState(h, i, raw, dst, prev) && i < 8 && i % 2 == 1
    ensures WriteState(h, i + 1, raw + [p], dst + PairBytes(h, prev, p), p)
  {
    var a := raw[..i - 1];
    assert raw == a + [prev];
    PairSnoc(a, prev, p);
    CombineSnoc(h, a, prev, p);
    assert (i + 1) % 2 == 0 && |a| % 2 == 0;
  }

  lemma PairSnoc<T>(a: seq<T>, x: T, y: T)
    ensures (a + [x]) + [y] == a + [x, y]
  {
  }

  /** The header fields the decoder's plane loop starts from. */
  function StartPos(h: bv8): (y0: nat)
    ensures y0 == 1 || y0 == 2
  {
    if h & 0x02 != 0 then 2 else 1
  }

  function StartDef(src: seq<bv8>): bv8
    requires |src| >= 2
  {
    if src[0] & 0x02 != 0 then src[1] else DefaultPlaneDef(src[0])
  }

  predicate SingleMode(h: bv8) {
    h & 0x02 != 0 && h & 0x04 != 0
  }

  /** Before the first plane the decoder has read nothing of what the
      specification reads. */
  lemma ReadStart(src: seq<bv8>, h: bv8, single: bool, y0: nat, def0: bv8)
    requires |src| >= MaxBlockLength && h == src[0]
    requires single == SingleMode(h) && y0 == StartPos(h) && def0 == StartDef(src)
    ensures ReadState(src, h, single, y0, def0, 0, def0, y0, [])
  {
    assert [] + Planes(src, h, single, def0, 0, y0).0 == Planes(src, h, single, def0, 0, y0).0;
  }

  /** After the eighth plane the decoder's state is the specification's
      result. */
  lemma ReadDone(src: seq<bv8>, h: bv8, single: bool, y0: nat, def0: bv8,
                 i: nat, def: bv8, y: nat, raw: seq<Plane>, dst: seq<bv8>, prev: Plane)
    requires |src| >= MaxBlockLength && h == src[0] && i == 8
    requires h < 0xc0 && h & 0x3e != 0 && h != RawHeader
    requires single == SingleMode(h) && y0 == StartPos(h) && def0 == StartDef(src)
    requires ReadState(src, h, single, y0, def0, i, def, y, raw)
    requires WriteState(h, i, raw, dst, prev)
    ensures Unpacked(dst, y) == BlockDecode(src)
  {
    assert Planes(src, h, single, def, 8, y) == ([], y);
    assert raw + [] == raw;
  }

  /** The plane value donut_unpack_block starts each plane from. */
  method PredictPlane(h: bv8, i: nat) returns (plane: Plane)
    ensures plane == Predicted(h, i)
  {
    plane := 0;
    if i % 2 == 0 && h & 0x20 != 0 {
      plane := AllOnes;
    }
    if i % 2 == 1 && h & 0x10 != 0 {
      plane := AllOnes;
    }
  }

  /** One coded plane of donut_unpack_block: the pb8 packet at the start of
      src with the predicted plane's low byte as top, flipped back when the
      header's 0x01 bit is set. */
  method ReadPlane(src: seq<bv8>, h: bv8, i: nat, predicted: Plane) returns (plane: Plane, used: nat)
    requires |src| >= 9 && predicted == Predicted(h, i)
    ensures plane == DecodePlane(src, h, i).0 && used == DecodePlane(src, h, i).1
  {
    UsedAtMost(src[0], 8);
    plane, used := UnpackPb8(src, Lo8(predicted));
    OfRowsRows(plane);
    if h & 0x01 != 0 {
      plane := FlipPlane(plane);
    }
  }

  /** The decoder's state after i planes, reading and writing. */
  ghost predicate PlanesState(src: seq<bv8>, h: bv8, single: bool, y0: nat, def0: bv8,
                              i: nat, def: bv8, y: nat, raw: seq<Plane>, dst: seq<bv8>, prev: Plane)
    requires |src| >= MaxBlockLength
  {
    ReadState(src, h, single, y0, def0, i, def, y, raw) && WriteState(h, i, raw, dst, prev)
  }

  /** One pass of the plane loop: plane i is the predicted plane or the one
      coded at base, and an odd plane writes out its pair. */
  lemma PlanesStep(src: seq<bv8>, h: bv8, single: bool, y0: nat, def0: bv8,
                   i: nat, def: bv8, y: nat, raw: seq<Plane>, dst: seq<bv8>, prev: Plane,
                   p: Plane, y': nat, dst': seq<bv8>)
    requires |src| >= MaxBlockLength && i < 8
    requires PlanesState(src, h, single, y0, def0, i, def, y, raw, dst, prev)
    requires def & 0x80 != 0 ==>
      && DecodePlane(src[Base(single, y)..], h, i).0 == p
      && Base(single, y) + DecodePlane(src[Base(single, y)..], h, i).1 == y'
    requires def & 0x80 == 0 ==> p == Predicted(h, i) && y' == y
    requires dst' == if i % 2 == 1 then dst + PairBytes(h, prev, p) else dst
    ensures PlanesState(src, h, single, y0, def0, i + 1, def << 1, y', raw + [p], dst', p)
  {
    if def & 0x80 != 0 {
      ReadStepCoded(src, h, single, y0, def0, i, def, y, raw, p, y');
    } else {
      ReadStepPredicted(src, h, single, y0, def0, i, def, y, raw, p);
    }
    if i % 2 == 1 {
      WriteStepOdd(h, i, raw, dst, prev, p);
    } else {
      WriteStepEven(h, i, raw, dst, prev, p);
    }
  }

  /** The plane loop of donut_unpack_block (tools/donut.c:223-244), from
      the plane definition and read position its header set up. */
  method UnpackPlanes(src: seq<bv8>, h: bv8, single: bool, def: bv8, y: nat) returns (dst: seq<bv8>, y': nat)
    requires |src| >= MaxBlockLength && h == src[0]
    requires h < 0xc0 && h & 0x3e != 0 && h != RawHeader
    requires single == SingleMode(h) && y == StartPos(h) && def == StartDef(src)
    ensures Unpacked(dst, y') == BlockDecode(src)
  {
    ghost var y0, def0 := y, def;
    ReadStart(src, h, single, y0, def0);
    var d := def;
    y' := y;
    var prev: Plane := 0;
    dst := [];
    ghost var raw: seq<Plane> := [];
    var i := 0;
    while i < 8
      invariant i <= 8
      invariant PlanesState(src, h, single, y0, def0, i, d, y', raw, dst, prev)
    {
      ghost var y1, dst1 := y', dst;
      var plane := PredictPlane(h, i);
      if d & 0x80 != 0 {
        if single {
          y' := 2;
        }
        var used;
        plane, used := ReadPlane(src[y'..], h, i, plane);
        y' := y' + used;
      }
      if i % 2 == 1 {
        dst := dst + PairBytes(h, prev, plane);
      }
      PlanesStep(src, h, single, y0, def0, i, d, y1, raw, dst1, prev, plane, y', dst);
      d := d << 1;
      raw := raw + [plane];
      prev := plane;
      i := i + 1;
    }
    ReadDone(src, h, single, y0, def0, i, d, y', raw, dst, prev);
  }

  /** donut_unpack_block (tools/donut.c:198-245). */
  method UnpackBlock(src: seq<bv8>) returns (dst: seq<bv8>, y: nat)
    requires |src| >= MaxBlockLength
    ensures Unpacked(dst, y) == BlockDecode(src)
  {
    BlockDecodeFixed(src);
    var h := src[0];
    if h >= 0xc0 {
      return [], 0;
    }
    y := 1;
    if h & 0x3e == 0 {
      return Zeros(64), 1;
    }
    if h == RawHeader {
      return src[1..65], 65;
    }
    var def := DefaultPlaneDef(h);
    var single := false;
    if h & 0x02 != 0 {
      single := h & 0x04 != 0;
      def := src[y];
      y := y + 1;
    }
    assert y == StartPos(h) && def == StartDef(src) && single == SingleMode(h);
    dst, y := UnpackPlanes(src, h, single, def, y);
  }
}
