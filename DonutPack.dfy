/** The Donut block encoder, donut_pack_block (tools/donut.c:354-471), and
    the stream loops around both block coders, donut_compress and
    donut_decompress (tools/donut.c:473-539).

    The encoder tries 24 modes. Each mode offers the basic block, rewritten
    as a single-plane block or with its definition byte elided when that
    applies, and sometimes also a single-plane block whose packet starts
    with a literal row. The encoder keeps the shortest block within the
    cycle limit, the cheaper one between two of the same length, starting
    from the raw block. Every candidate is proved to decode to the source,
    so the block kept does too. */
module DonutPack {
  import opened DonutPlanes
  import opened DonutBlock
  import opened DonutCost
  import opened DonutModes

  // ---------------------------------------------------------------------
  // Packet repetition

  /** n copies of q, one after another. */
  function Repeat(q: seq<bv8>, n: nat): seq<bv8> {
    if n == 0 then [] else q + Repeat(q, n - 1)
  }

  /** n copies of q are n times as long as q. */
  lemma {:induction false} RepeatLength(q: seq<bv8>, n: nat)
    ensures |Repeat(q, n)| == n * |q|
  {
    if n > 0 {
      RepeatLength(q, n - 1);
    }
  }

  /** The packet of the first coded plane among i..7, empty when no plane
      there is coded. */
  function FirstPacket(planes: seq<Plane>, a: bv8, i: nat): (q: seq<bv8>)
    requires |planes| == 8 && i <= 8
    ensures |q| <= 9
    ensures CountFrom(planes, a, i) > 0 ==> |q| >= 1
    decreases 8 - i
  {
    if i == 8 then []
    else if IsCoded(planes, a, i) then Packet(planes, a, i)
    else FirstPacket(planes, a, i + 1)
  }

  /** Every coded plane's packet is the same bytes: the condition under
      which one packet can stand for all of them. */
  predicate SamePackets(planes: seq<Plane>, a: bv8)
    requires |planes| == 8
  {
    forall j :: 0 <= j < 8 && IsCoded(planes, a, j) ==> Packet(planes, a, j) == FirstPacket(planes, a, 0)
  }

  /** When the coded planes among i..7 all have packet q, their packets are
      q once per coded plane. */
  lemma {:induction false} PacketsRepeat(planes: seq<Plane>, a: bv8, i: nat, q: seq<bv8>)
    requires |planes| == 8 && i <= 8
    requires forall j :: i <= j < 8 && IsCoded(planes, a, j) ==> Packet(planes, a, j) == q
    ensures PacketsFrom(planes, a, i) == Repeat(q, CountFrom(planes, a, i))
    decreases 8 - i
  {
    if i < 8 {
      PacketsRepeat(planes, a, i + 1, q);
      RepeatStep(planes, a, i, q);
    }
  }

  lemma RepeatStep(planes: seq<Plane>, a: bv8, i: nat, q: seq<bv8>)
    requires |planes| == 8 && i < 8
    requires IsCoded(planes, a, i) ==> Packet(planes, a, i) == q
    requires PacketsFrom(planes, a, i + 1) == Repeat(q, CountFrom(planes, a, i + 1))
    ensures PacketsFrom(planes, a, i) == Repeat(q, CountFrom(planes, a, i))
  {
    var c := IsCoded(planes, a, i);
    var n := CountFrom(planes, a, i + 1);
    var tail := PacketsFrom(planes, a, i + 1);
    var pk := Packet(planes, a, i);
    PacketsFromStep(planes, a, i, c, n, pk, tail);
    RepeatCons(q, n, c, pk, tail);
  }

  /** Packets and count of planes i..7: plane i's, then the rest's. */
  lemma PacketsFromStep(planes: seq<Plane>, a: bv8, i: nat, c: bool, n: nat, pk: seq<bv8>, tail: seq<bv8>)
    requires |planes| == 8 && i < 8
    requires c == IsCoded(planes, a, i) && n == CountFrom(planes, a, i + 1) && pk == Packet(planes, a, i)
    requires tail == PacketsFrom(planes, a, i + 1)
    ensures PacketsFrom(planes, a, i) == pk + tail
    ensures CountFrom(planes, a, i) == (if c then 1 else 0) + n
    ensures !c ==> pk == []
  {
  }

  /** One more copy of q in front, or nothing. */
  lemma RepeatCons(q: seq<bv8>, n: nat, c: bool, pk: seq<bv8>, tail: seq<bv8>)
    requires tail == Repeat(q, n) && pk == (if c then q else [])
    ensures pk + tail == Repeat(q, (if c then 1 else 0) + n)
  {
    if c {
      assert Repeat(q, n + 1) == q + Repeat(q, n);
    } else {
      assert pk + tail == tail;
    }
  }

  /** The first packet of planes i..7 is the first coded plane's, so it
      starts their packets. */
  lemma {:induction false} FirstPacketStarts(planes: seq<Plane>, a: bv8, i: nat)
    requires |planes| == 8 && i <= 8
    ensures |FirstPacket(planes, a, i)| <= |PacketsFrom(planes, a, i)|
    ensures PacketsFrom(planes, a, i)[..|FirstPacket(planes, a, i)|] == FirstPacket(planes, a, i)
    decreases 8 - i
  {
    if i < 8 && !IsCoded(planes, a, i) {
      FirstPacketStarts(planes, a, i + 1);
    }
  }

  /** n * l divided by n is l. */
  lemma DivideRepeat(n: nat, l: nat)
    requires 0 < n <= 8
    ensures (n * l) % n == 0 && (n * l) / n == l
  {
    if n == 1 {
    } else if n == 2 {
    } else if n == 3 {
    } else if n == 4 {
    } else if n == 5 {
    } else if n == 6 {
    } else if n == 7 {
    } else {
    }
  }

  /** Under SamePackets the payload is count copies of the first packet,
      so its length divided by the count is that packet's length. */
  lemma SamePacketsSplit(planes: seq<Plane>, a: bv8)
    requires |planes| == 8 && SamePackets(planes, a) && CountFrom(planes, a, 0) > 0
    ensures var q := FirstPacket(planes, a, 0); var n := CountFrom(planes, a, 0);
      && PacketsFrom(planes, a, 0) == Repeat(q, n)
      && |PacketsFrom(planes, a, 0)| % n == 0
      && |PacketsFrom(planes, a, 0)| / n == |q|
      && PacketsFrom(planes, a, 0)[..|q|] == q
  {
    PacketsRepeat(planes, a, 0, FirstPacket(planes, a, 0));
    RepeatLength(FirstPacket(planes, a, 0), CountFrom(planes, a, 0));
    DivideRepeat(CountFrom(planes, a, 0), |FirstPacket(planes, a, 0)|);
    FirstPacketStarts(planes, a, 0);
  }

  // ---------------------------------------------------------------------
  // What each block of a mode decodes to

  /** The first bytes of a block and what follows them. */
  lemma Front(h: bv8, def: bv8, ps: seq<bv8>, rest: seq<bv8>)
    ensures var buf := [h, def] + ps + rest;
      |buf| == 2 + |ps| + |rest| && buf[0] == h && buf[1] == def && buf[2..] == ps + rest
  {
    var buf := [h, def] + ps + rest;
    assert buf[2..] == ps + rest;
  }

  lemma FrontElided(h: bv8, ps: seq<bv8>, rest: seq<bv8>)
    ensures var buf := [h] + ps + rest;
      |buf| == 1 + |ps| + |rest| && buf[0] == h && buf[1..] == ps + rest
  {
    var buf := [h] + ps + rest;
    assert buf[1..] == ps + rest;
  }

  /** A block with a plain (not single-plane) header whose packets start at
      y decodes to what its planes are written back as, and is read to the
      end of its packets. */
  lemma PacketsRead(buf: seq<bv8>, h: bv8, planes: seq<Plane>, a: bv8, y: nat, rest: seq<bv8>, out: seq<bv8>)
    requires |buf| >= MaxBlockLength && |planes| == 8 && 1 <= y <= 2
    requires buf[0] == h && h < 0xc0 && h & 0x3e != 0 && h != RawHeader && !SingleMode(h) && StartPos(h) == y
    requires StartDef(buf) == DefFrom(planes, a, 0) && ReadsPlanes(h, a)
    requires buf[y..] == PacketsFrom(planes, a, 0) + rest
    requires Combine(h, DecodedFrom(planes, a, 0)) == out
    ensures BlockDecode(buf) == Unpacked(out, y + |PacketsFrom(planes, a, 0)|)
  {
    DecodeFrom(buf, h, planes, a, 0, y, rest);
    CodedBlock(buf, h, DefFrom(planes, a, 0), y, DecodedFrom(planes, a, 0), y + |PacketsFrom(planes, a, 0)|, out);
  }

  /** A single-plane block whose one packet q every coded plane decodes
      from, followed by anything, decodes to what its planes are written
      back as, and is read to the end of q. */
  lemma OnePacketRead(buf: seq<bv8>, h: bv8, planes: seq<Plane>, a: bv8, q: seq<bv8>, out: seq<bv8>)
    requires |buf| >= MaxBlockLength && |planes| == 8 && 1 <= |q| <= 9 && CountFrom(planes, a, 0) > 0
    requires buf[0] == h && h < 0xc0 && h & 0x3e != 0 && h != RawHeader && SingleMode(h) && StartPos(h) == 2
    requires StartDef(buf) == DefFrom(planes, a, 0) && ReadsPlanes(h, a)
    requires forall j :: 0 <= j < 8 && IsCoded(planes, a, j) ==>
      DecodePlane(buf[2..], h, j).0 == Decoded(planes, a, j) && DecodePlane(buf[2..], h, j).1 == |q|
    requires Combine(h, DecodedFrom(planes, a, 0)) == out
    ensures BlockDecode(buf) == Unpacked(out, 2 + |q|)
  {
    SingleFrom(buf, h, planes, a, 0, 2, |q|);
    CodedBlock(buf, h, DefFrom(planes, a, 0), 2, DecodedFrom(planes, a, 0), 2 + |q|, out);
  }

  /** The header of a basic block: coded, with a definition byte. */
  lemma BasicHeader(a: bv8)
    requires Mode(a)
    ensures var h := a | 0x02;
      && h < 0xc0 && h & 0x3e != 0 && h != RawHeader && !SingleMode(h) && StartPos(h) == 2
      && ReadsPlanes(h, a) && WritesPlanes(h, a)
  {
  }

  /** The header of a single-plane block. */
  lemma SingleHeader(a: bv8)
    requires Mode(a)
    ensures var h := a | 0x06;
      && h < 0xc0 && h & 0x3e != 0 && h != RawHeader && SingleMode(h) && StartPos(h) == 2
      && ReadsPlanes(h, a) && WritesPlanes(h, a)
  {
  }

  /** The header of a block whose definition is elided: no definition byte,
      and the definition its 0x0c bits stand for is def. */
  lemma ElidedHeader(a: bv8, def: bv8, h: bv8)
    requires Mode(a) && IsDefaultDef(def) && h == a | DefaultCode(def)
    ensures && h < 0xc0 && h != RawHeader && h & 0x02 == 0 && !SingleMode(h) && StartPos(h) == 1
      && DefaultPlaneDef(h) == def && h & 0x30 == a & 0x30
      && ReadsPlanes(h, a) && WritesPlanes(h, a)
  {
  }

  /** A coded block decodes to what its planes are written back as, and is
      read up to where its planes end. */
  lemma CodedBlock(buf: seq<bv8>, h: bv8, def: bv8, y0: nat, ds: seq<Plane>, used: nat, out: seq<bv8>)
    requires |buf| >= MaxBlockLength && buf[0] == h && h < 0xc0 && h & 0x3e != 0 && h != RawHeader
    requires StartDef(buf) == def && StartPos(h) == y0
    requires Planes(buf, h, SingleMode(h), def, 0, y0).0 == ds
    requires Planes(buf, h, SingleMode(h), def, 0, y0).1 == used
    requires Combine(h, ds) == out
    ensures BlockDecode(buf) == Unpacked(out, used)
  {
  }

  /** The basic block of a mode decodes to the source. */
  lemma BasicDecodes(src: seq<bv8>, a: bv8)
    requires |src| == 64 && Mode(a)
    ensures Decodes(Basic(ModePlanes(Load(src), a), a), src)
  {
    var block := Basic(ModePlanes(Load(src), a), a);
    forall rest: seq<bv8> | |block + rest| >= MaxBlockLength
      ensures BlockDecode(block + rest) == Unpacked(src, |block|)
    {
      BasicDecodesWith(src, a, rest);
    }
  }

  lemma BasicDecodesWith(src: seq<bv8>, a: bv8, rest: seq<bv8>)
    requires |src| == 64 && Mode(a)
    requires |Basic(ModePlanes(Load(src), a), a) + rest| >= MaxBlockLength
    ensures BlockDecode(Basic(ModePlanes(Load(src), a), a) + rest)
         == Unpacked(src, |Basic(ModePlanes(Load(src), a), a)|)
  {
    PlanesGiveSource(src, a, a | 0x02);
    BasicRead(ModePlanes(Load(src), a), a, rest, src);
  }

  /** The basic block of planes, followed by anything, is read to its end
      and gives what its decoded planes are written back as. */
  lemma BasicRead(planes: seq<Plane>, a: bv8, rest: seq<bv8>, out: seq<bv8>)
    requires |planes| == 8 && Mode(a) && |Basic(planes, a) + rest| >= MaxBlockLength
    requires Combine(a | 0x02, DecodedFrom(planes, a, 0)) == out
    ensures BlockDecode(Basic(planes, a) + rest) == Unpacked(out, |Basic(planes, a)|)
  {
    var h := a | 0x02;
    var def := DefFrom(planes, a, 0);
    var ps := PacketsFrom(planes, a, 0);
    Front(h, def, ps, rest);
    BasicHeader(a);
    PacketsRead([h, def] + ps + rest, h, planes, a, 2, rest, out);
  }

  /** The block with its definition elided decodes to the source. When the
      header it gets has none of the 0x3e bits, the decoder writes the zero
      block: then every plane is predicted zero, so the source is zero. */
  lemma ElidedDecodes(src: seq<bv8>, a: bv8)
    requires |src| == 64 && Mode(a) && IsDefaultDef(DefFrom(ModePlanes(Load(src), a), a, 0))
    ensures Decodes(Elided(ModePlanes(Load(src), a), a), src)
  {
    var block := Elided(ModePlanes(Load(src), a), a);
    forall rest: seq<bv8> | |block + rest| >= MaxBlockLength
      ensures BlockDecode(block + rest) == Unpacked(src, |block|)
    {
      ElidedDecodesWith(src, a, rest);
    }
  }

  lemma ElidedDecodesWith(src: seq<bv8>, a: bv8, rest: seq<bv8>)
    requires |src| == 64 && Mode(a) && IsDefaultDef(DefFrom(ModePlanes(Load(src), a), a, 0))
    requires |Elided(ModePlanes(Load(src), a), a) + rest| >= MaxBlockLength
    ensures BlockDecode(Elided(ModePlanes(Load(src), a), a) + rest)
         == Unpacked(src, |Elided(ModePlanes(Load(src), a), a)|)
  {
    var planes := ModePlanes(Load(src), a);
    var def := DefFrom(planes, a, 0);
    ElidedHeader(a, def, a | DefaultCode(def));
    PlanesGiveSource(src, a, a | DefaultCode(def));
    ElidedRead(planes, a, rest, src);
  }

  /** The elided block of planes, followed by anything, is read to its end
      and gives what its decoded planes are written back as. When its header
      has none of the 0x3e bits the decoder writes the zero block: then
      every plane is predicted zero, so that is what they are written back
      as. */
  lemma ElidedRead(planes: seq<Plane>, a: bv8, rest: seq<bv8>, out: seq<bv8>)
    requires |planes| == 8 && Mode(a) && IsDefaultDef(DefFrom(planes, a, 0))
    requires |Elided(planes, a) + rest| >= MaxBlockLength
    requires Combine(a | DefaultCode(DefFrom(planes, a, 0)), DecodedFrom(planes, a, 0)) == out
    ensures BlockDecode(Elided(planes, a) + rest) == Unpacked(out, |Elided(planes, a)|)
  {
    var def := DefFrom(planes, a, 0);
    var h := a | DefaultCode(def);
    var ps := PacketsFrom(planes, a, 0);
    assert Elided(planes, a) == [h] + ps;
    ElidedBlockRead(planes, a, h, def, ps, rest, Elided(planes, a) + rest, out);
  }

  lemma ElidedBlockRead(planes: seq<Plane>, a: bv8, h: bv8, def: bv8, ps: seq<bv8>, rest: seq<bv8>,
                        buf: seq<bv8>, out: seq<bv8>)
    requires |planes| == 8 && def == DefFrom(planes, a, 0) && ps == PacketsFrom(planes, a, 0)
    requires buf == [h] + ps + rest && |buf| >= MaxBlockLength && Combine(h, DecodedFrom(planes, a, 0)) == out
    requires Mode(a) && IsDefaultDef(def) && h == a | DefaultCode(def)
    ensures BlockDecode(buf) == Unpacked(out, 1 + |ps|)
  {
    if h & 0x3e == 0 {
      ElidedZeroRead(planes, a, h, def, ps, buf, out);
    } else {
      ElidedCodedRead(planes, a, h, def, ps, rest, buf, out);
    }
  }

  /** An elided block with none of the 0x3e bits in its header is the zero
      block, one byte. */
  lemma ElidedZeroRead(planes: seq<Plane>, a: bv8, h: bv8, def: bv8, ps: seq<bv8>, buf: seq<bv8>, out: seq<bv8>)
    requires |planes| == 8 && def == DefFrom(planes, a, 0) && ps == PacketsFrom(planes, a, 0)
    requires |buf| >= MaxBlockLength && buf[0] == h && Combine(h, DecodedFrom(planes, a, 0)) == out
    requires Mode(a) && IsDefaultDef(def) && h == a | DefaultCode(def) && h & 0x3e == 0
    ensures BlockDecode(buf) == Unpacked(out, 1 + |ps|)
  {
    ElidedHeader(a, def, h);
    ZeroOut(planes, a, h, out);
    BlockDecodeFixed(buf);
  }

  /** An elided block with some of the 0x3e bits in its header is read as
      its packets from offset 1. */
  lemma ElidedCodedRead(planes: seq<Plane>, a: bv8, h: bv8, def: bv8, ps: seq<bv8>, rest: seq<bv8>,
                        buf: seq<bv8>, out: seq<bv8>)
    requires |planes| == 8 && def == DefFrom(planes, a, 0) && ps == PacketsFrom(planes, a, 0)
    requires buf == [h] + ps + rest && |buf| >= MaxBlockLength && Combine(h, DecodedFrom(planes, a, 0)) == out
    requires Mode(a) && IsDefaultDef(def) && h == a | DefaultCode(def) && h & 0x3e != 0
    ensures BlockDecode(buf) == Unpacked(out, 1 + |ps|)
  {
    ElidedHeader(a, def, h);
    FrontElided(h, ps, rest);
    PacketsRead(buf, h, planes, a, 1, rest, out);
  }

  /** Planes with no prediction bits and no coded plane are written back
      as zeros, and have no packets. */
  lemma ZeroOut(planes: seq<Plane>, a: bv8, h: bv8, out: seq<bv8>)
    requires |planes| == 8 && h & 0x30 == 0 && a & 0x30 == 0 && DefFrom(planes, a, 0) == 0
    requires Combine(h, DecodedFrom(planes, a, 0)) == out
    ensures out == Zeros(64) && PacketsFrom(planes, a, 0) == []
  {
    DefCount(planes, a);
    NoneCoded(planes, a, 0);
    AllZero(planes, a, h, 0);
    CombineZeros(h, 4);
  }

  /** No plane among i..7 is coded when none is counted. */
  lemma {:induction false} NoneCoded(planes: seq<Plane>, a: bv8, i: nat)
    requires |planes| == 8 && i <= 8 && CountFrom(planes, a, i) == 0
    ensures forall j :: i <= j < 8 ==> !IsCoded(planes, a, j)
    ensures PacketsFrom(planes, a, i) == []
    decreases 8 - i
  {
    if i < 8 {
      NoneCoded(planes, a, i + 1);
    }
  }

  /** n zero planes. */
  function ZeroPlanes(n: nat): (ps: seq<Plane>)
    ensures |ps| == n
  {
    seq(n, _ => 0)
  }

  /** Uncoded planes under a mode predicting zero decode to zero. */
  lemma {:induction false} AllZero(planes: seq<Plane>, a: bv8, h: bv8, i: nat)
    requires |planes| == 8 && i <= 8 && h & 0x30 == 0 && a & 0x30 == 0
    requires forall j :: i <= j < 8 ==> !IsCoded(planes, a, j)
    ensures DecodedFrom(planes, a, i) == ZeroPlanes(8 - i)
    decreases 8 - i
  {
    if i < 8 {
      AllZero(planes, a, h, i + 1);
      UncodedDecoded(planes, a, h, i);
      assert [Decoded(planes, a, i)] + ZeroPlanes(8 - (i + 1)) == ZeroPlanes(8 - i);
    }
  }

  /** Zero planes are written back as zero bytes, whatever the XOR bits. */
  lemma {:induction false} CombineZeros(h: bv8, m: nat)
    ensures Combine(h, ZeroPlanes(2 * m)) == Zeros(16 * m)
  {
    if m > 0 {
      CombineZeros(h, m - 1);
      assert ZeroPlanes(2 * m)[2..] == ZeroPlanes(2 * (m - 1));
      assert LE(0) == Zeros(8);
      assert PairBytes(h, 0, 0) + Zeros(16 * (m - 1)) == Zeros(16 * m);
    }
  }

  /** Under SamePackets, the single-plane block holding the first packet
      once decodes to the source. */
  lemma SingleDecodes(src: seq<bv8>, a: bv8)
    requires |src| == 64 && Mode(a)
    requires SamePackets(ModePlanes(Load(src), a), a) && CountFrom(ModePlanes(Load(src), a), a, 0) > 0
    ensures |FirstPacket(ModePlanes(Load(src), a), a, 0)| <= |PacketsFrom(ModePlanes(Load(src), a), a, 0)|
    ensures Decodes(Single(ModePlanes(Load(src), a), a, |FirstPacket(ModePlanes(Load(src), a), a, 0)|), src)
  {
    var planes := ModePlanes(Load(src), a);
    FirstPacketStarts(planes, a, 0);
    var block := Single(planes, a, |FirstPacket(planes, a, 0)|);
    forall rest: seq<bv8> | |block + rest| >= MaxBlockLength
      ensures BlockDecode(block + rest) == Unpacked(src, |block|)
    {
      SingleDecodesWith(src, a, rest);
    }
  }

  lemma SingleDecodesWith(src: seq<bv8>, a: bv8, rest: seq<bv8>)
    requires |src| == 64 && Mode(a)
    requires SamePackets(ModePlanes(Load(src), a), a) && CountFrom(ModePlanes(Load(src), a), a, 0) > 0
    requires |FirstPacket(ModePlanes(Load(src), a), a, 0)| <= |PacketsFrom(ModePlanes(Load(src), a), a, 0)|
    requires |Single(ModePlanes(Load(src), a), a, |FirstPacket(ModePlanes(Load(src), a), a, 0)|) + rest| >= MaxBlockLength
    ensures BlockDecode(Single(ModePlanes(Load(src), a), a, |FirstPacket(ModePlanes(Load(src), a), a, 0)|) + rest)
         == Unpacked(src, 2 + |FirstPacket(ModePlanes(Load(src), a), a, 0)|)
  {
    PlanesGiveSource(src, a, a | 0x06);
    SingleRead(ModePlanes(Load(src), a), a, rest, src);
  }

  /** Under SamePackets, the single-plane block of planes, followed by
      anything, is read to the end of its one packet and gives what the
      decoded planes are written back as. */
  lemma SingleRead(planes: seq<Plane>, a: bv8, rest: seq<bv8>, out: seq<bv8>)
    requires |planes| == 8 && Mode(a) && SamePackets(planes, a) && CountFrom(planes, a, 0) > 0
    requires |FirstPacket(planes, a, 0)| <= |PacketsFrom(planes, a, 0)|
    requires |Single(planes, a, |FirstPacket(planes, a, 0)|) + rest| >= MaxBlockLength
    requires Combine(a | 0x06, DecodedFrom(planes, a, 0)) == out
    ensures BlockDecode(Single(planes, a, |FirstPacket(planes, a, 0)|) + rest)
         == Unpacked(out, 2 + |FirstPacket(planes, a, 0)|)
  {
    var q := FirstPacket(planes, a, 0);
    FirstPacketStarts(planes, a, 0);
    var h := a | 0x06;
    var def := DefFrom(planes, a, 0);
    assert Single(planes, a, |q|) + rest == [h, def] + q + rest;
    var buf := [h, def] + q + rest;
    Front(h, def, q, rest);
    SingleHeader(a);
    forall j | 0 <= j < 8 && IsCoded(planes, a, j)
      ensures DecodePlane(buf[2..], h, j).0 == Decoded(planes, a, j) && DecodePlane(buf[2..], h, j).1 == |q|
    {
      PacketDecodes(planes, a, h, j, rest);
    }
    OnePacketRead(buf, h, planes, a, q, out);
  }

  /** When every coded plane is stored as the first, the single-plane block
      holding it with the forced top value decodes to the source. */
  lemma MatchedDecodes(src: seq<bv8>, a: bv8)
    requires |src| == 64 && Mode(a) && CountFrom(ModePlanes(Load(src), a), a, 0) > 0
    requires CodedAllAre(ModePlanes(Load(src), a), a, FirstCoded(ModePlanes(Load(src), a), a, 0))
    ensures Decodes(Matched(ModePlanes(Load(src), a), a, FirstCoded(ModePlanes(Load(src), a), a, 0)), src)
  {
    var planes := ModePlanes(Load(src), a);
    var block := Matched(planes, a, FirstCoded(planes, a, 0));
    PlanesGiveSource(src, a, a | 0x06);
    forall rest: seq<bv8> | |block + rest| >= MaxBlockLength
      ensures BlockDecode(block + rest) == Unpacked(src, |block|)
    {
      MatchedRead(planes, a, rest, src);
    }
  }

  /** The matched block of planes, followed by anything, is read to its
      end and gives what the decoded planes are written back as. */
  lemma MatchedRead(planes: seq<Plane>, a: bv8, rest: seq<bv8>, out: seq<bv8>)
    requires |planes| == 8 && Mode(a) && CountFrom(planes, a, 0) > 0
    requires CodedAllAre(planes, a, FirstCoded(planes, a, 0))
    requires |Matched(planes, a, FirstCoded(planes, a, 0)) + rest| >= MaxBlockLength
    requires Combine(a | 0x06, DecodedFrom(planes, a, 0)) == out
    ensures BlockDecode(Matched(planes, a, FirstCoded(planes, a, 0)) + rest)
         == Unpacked(out, |Matched(planes, a, FirstCoded(planes, a, 0))|)
  {
    var f := FirstCoded(planes, a, 0);
    var q := Pb8(Rows(f), ForcedTop(f));
    Pb8Length(Rows(f), ForcedTop(f));
    var h := a | 0x06;
    var def := DefFrom(planes, a, 0);
    assert Matched(planes, a, f) + rest == [h, def] + q + rest;
    var buf := [h, def] + q + rest;
    Front(h, def, q, rest);
    SingleHeader(a);
    forall j | 0 <= j < 8 && IsCoded(planes, a, j)
      ensures DecodePlane(buf[2..], h, j).0 == Decoded(planes, a, j) && DecodePlane(buf[2..], h, j).1 == |q|
    {
      ForcedPacketDecodes(planes, a, h, j, f, rest);
    }
    OnePacketRead(buf, h, planes, a, q, out);
  }

  /** The raw block decodes to the source. */
  lemma RawDecodes(src: seq<bv8>)
    requires |src| == 64
    ensures Decodes([RawHeader] + src, src)
  {
    forall rest: seq<bv8> | |[RawHeader] + src + rest| >= MaxBlockLength
      ensures BlockDecode([RawHeader] + src + rest) == Unpacked(src, 65)
    {
      assert ([RawHeader] + src + rest)[1..65] == src;
    }
  }

  // ---------------------------------------------------------------------
  // The encoder

  /** The cycle limit donut_pack_block works to: 0 stands for 16384,
      practically no limit. */
  function Limit(cpuLimit: int): (l: int)
    ensures cpuLimit != 0 ==> l == cpuLimit
    ensures cpuLimit == 0 ==> l >= CodedBaseCost
  {
    if cpuLimit == 0 then 16384 else cpuLimit
  }

  /** The test donut_pack_block keeps a candidate by: no longer than the
      best so far, cheaper or shorter than it, and within the limit. */
  predicate Better(len: int, cycles: int, shortest: int, leastCost: int, limit: int) {
    len <= shortest && (cycles < leastCost || len < shortest) && cycles <= limit
  }

  /** What the best block so far is known to satisfy: it restores the
      source, is 1 to 65 bytes, is the raw block or within the limit, and
      its cost is the one recorded. */
  ghost predicate Kept(src: seq<bv8>, dst: seq<bv8>, leastCost: int, limit: int)
    requires |src| == 64
  {
    && Decodes(dst, src) && 1 <= |dst| <= 65 && leastCost == BlockCost(dst)
    && (dst == [RawHeader] + src || BlockCost(dst) <= limit)
  }

  /** Offers the candidate block to the best so far. */
  method Offer(ghost src: seq<bv8>, block: seq<bv8>, cycles: int, limit: int, dst: seq<bv8>, leastCost: int)
    returns (dst': seq<bv8>, leastCost': int)
    requires |src| == 64 && Kept(src, dst, leastCost, limit)
    requires |block| >= 1 && Decodes(block, src) && cycles == BlockCost(block)
    ensures Kept(src, dst', leastCost', limit)
    ensures Better(|block|, cycles, |dst|, leastCost, limit) ==> dst' == block && leastCost' == cycles
    ensures !Better(|block|, cycles, |dst|, leastCost, limit) ==> dst' == dst && leastCost' == leastCost
    ensures |dst'| <= |dst| && (cycles <= limit ==> |dst'| <= |block|)
  {
    if Better(|block|, cycles, |dst|, leastCost, limit) {
      dst', leastCost' := block, cycles;
    } else {
      dst', leastCost' := dst, leastCost;
    }
  }

  /** The test the encoder should make before writing a single-plane
      block: more than one coded plane, and every coded plane's packet the
      same bytes. (donut_nes_all_pb8_planes_match only asks that the
      payload repeat with the period of one packet's share of it; see
      Pb8PlanesMatch below.) */
  predicate PacketsShared(planes: seq<Plane>, a: bv8)
    requires |planes| == 8
  {
    CountFrom(planes, a, 0) > 1 && SamePackets(planes, a)
  }

  /** One pass of the mode loop of donut_pack_block (tools/donut.c:392-466)
      in mode a: the basic block, or its rewrite, is offered; when no
      rewrite applied and every coded plane is stored as the same value,
      the single-plane block holding that value with a literal first row
      is offered too. */
  method PackMode(src: seq<bv8>, planes: seq<Plane>, a: bv8, limit: int, dst: seq<bv8>, leastCost: int)
    returns (dst': seq<bv8>, leastCost': int)
    requires |src| == 64 && Mode(a) && planes == ModePlanes(Load(src), a)
    requires Kept(src, dst, leastCost, limit)
    ensures Kept(src, dst', leastCost', limit)
    ensures |dst'| <= |dst|
    ensures BlockCost(Basic(planes, a)) <= limit ==> |dst'| <= |Basic(planes, a)|
  {
    var block, cycles, rewritten := Rewrite(src, planes, a, limit);
    dst', leastCost' := Offer(src, block, cycles, limit, dst, leastCost);
    if CountFrom(planes, a, 0) > 1 && !rewritten && CodedAllAre(planes, a, FirstCoded(planes, a, 0)) {
      MatchedDecodes(src, a);
      block := Matched(planes, a, FirstCoded(planes, a, 0));
      cycles := BlockCost(block);
      dst', leastCost' := Offer(src, block, cycles, limit, dst', leastCost');
    }
  }

  /** The basic block of mode a and its rewrites: as a single-plane block
      when all packets are shared and the limit allows one more cycle per
      coded plane, or else with its definition elided when that is a
      default one. Gives the block, its cost and whether it was
      rewritten; a rewrite is shorter, and within the limit whenever the
      basic block is. */
  method Rewrite(src: seq<bv8>, planes: seq<Plane>, a: bv8, limit: int)
    returns (block: seq<bv8>, cycles: int, rewritten: bool)
    requires |src| == 64 && Mode(a) && planes == ModePlanes(Load(src), a)
    ensures |block| >= 1 && Decodes(block, src) && cycles == BlockCost(block)
    ensures |block| <= |Basic(planes, a)|
    ensures BlockCost(Basic(planes, a)) <= limit ==> cycles <= limit
    ensures !rewritten ==> block == Basic(planes, a)
  {
    var count := CountFrom(planes, a, 0);
    var basic := Basic(planes, a);
    block, cycles, rewritten := basic, BlockCost(basic), false;
    BasicDecodes(src, a);
    if PacketsShared(planes, a) && cycles + count <= limit {
      var share := (|basic| - 2) / count;
      SharedCandidate(src, planes, a);
      block := Single(planes, a, share);
      cycles := cycles + count;
      rewritten := true;
    } else if IsDefaultDef(DefFrom(planes, a, 0)) {
      ElidedCandidate(src, a);
      block := Elided(planes, a);
      cycles := cycles - 5;
      rewritten := true;
    }
  }

  /** Modes run in the order donut_pack_block tries them: the twelve
      without the transpose bit, then the twelve with it, each by 0x10
      steps. */
  predicate TriedBefore(m: bv8, a: bv8) {
    (m & 0x01 < a & 0x01) || (m & 0x01 == a & 0x01 && m < a)
  }

  /** donut_pack_block (tools/donut.c:354-471) with no don't-care mask:
      the block for the 64 source bytes. It starts from the raw block
      (header 0x2a and the source), which is all there is when the limit
      is below the least cost of a coded block; otherwise it tries the 24
      modes and keeps the shortest candidate within the limit, the cheaper
      of two of the same length. */
  method PackBlock(src: seq<bv8>, cpuLimit: int) returns (dst: seq<bv8>)
    requires |src| == 64
    ensures Decodes(dst, src)
    ensures 1 <= |dst| <= 65
    ensures Limit(cpuLimit) < CodedBaseCost ==> dst == [RawHeader] + src
    ensures dst == [RawHeader] + src || BlockCost(dst) <= Limit(cpuLimit)
    ensures forall m :: Mode(m) && BlockCost(Basic(ModePlanes(Load(src), m), m)) <= Limit(cpuLimit) ==>
                          |dst| <= |Basic(ModePlanes(Load(src), m), m)|
  {
    var limit := Limit(cpuLimit);
    dst := [RawHeader] + src;
    var leastCost := RawCost;
    RawDecodes(src);
    if limit < CodedBaseCost {
      NoCodedBlock(src, limit);
      return;
    }
    var planes := Load(src);
    var a: bv8 := 0x00;
    while true
      invariant a & 0x0e == 0 && a <= 0xc1 && (a & 0x01 != 0 ==> a != 0xc0)
      invariant planes == ModePlanes(Load(src), a)
      invariant Kept(src, dst, leastCost, limit)
      invariant ShortestBefore(src, dst, limit, a)
      decreases (if a & 0x01 == 0 then 1 else 0), 0xd0 - a
    {
      if a >= 0xc0 {
        if a & 0x01 != 0 {
          AllTried(src, dst, limit, a);
          break;
        }
        planes := FlipAll(planes);
        FirstRoundTried(src, dst, limit);
        a := 0x01;
      }
      ghost var before := dst;
      dst, leastCost := PackMode(src, planes, a, limit, dst, leastCost);
      NextMode(src, before, dst, limit, a);
      a := a + 0x10;
    }
  }

  /** The basic block of mode m for the source. */
  function BasicOf(src: seq<bv8>, m: bv8): seq<bv8>
    requires |src| == 64
  {
    Basic(ModePlanes(Load(src), m), m)
  }

  /** dst is no longer than the basic block of any mode tried before a
      whose cost is within the limit. */
  ghost predicate ShortestBefore(src: seq<bv8>, dst: seq<bv8>, limit: int, a: bv8)
    requires |src| == 64
  {
    forall m :: Mode(m) && TriedBefore(m, a) && BlockCost(BasicOf(src, m)) <= limit ==> |dst| <= |BasicOf(src, m)|
  }

  /** Past 0xc0 with the transpose bit, every mode has been tried. */
  lemma AllTried(src: seq<bv8>, dst: seq<bv8>, limit: int, a: bv8)
    requires |src| == 64 && a >= 0xc0 && a & 0x01 != 0
    requires ShortestBefore(src, dst, limit, a)
    ensures forall m :: Mode(m) && BlockCost(Basic(ModePlanes(Load(src), m), m)) <= limit ==>
                          |dst| <= |Basic(ModePlanes(Load(src), m), m)|
  {
    forall m | Mode(m)
      ensures TriedBefore(m, a)
    {
    }
  }

  /** Once the modes without the transpose bit are done, the modes tried
      before 0x01 have all been tried. */
  lemma FirstRoundTried(src: seq<bv8>, dst: seq<bv8>, limit: int)
    requires |src| == 64 && ShortestBefore(src, dst, limit, 0xc0)
    ensures ShortestBefore(src, dst, limit, 0x01)
  {
    forall m | TriedBefore(m, 0x01) && Mode(m)
      ensures TriedBefore(m, 0xc0)
    {
    }
  }

  /** The modes tried before the next one are those tried before a, and
      a: a pass that keeps dst no longer, and no longer than mode a's basic
      block when that fits, keeps the invariant. */
  lemma NextMode(src: seq<bv8>, dst: seq<bv8>, dst': seq<bv8>, limit: int, a: bv8)
    requires |src| == 64 && a & 0x0e == 0 && a < 0xc0
    requires ShortestBefore(src, dst, limit, a) && |dst'| <= |dst|
    requires BlockCost(BasicOf(src, a)) <= limit ==> |dst'| <= |BasicOf(src, a)|
    ensures ShortestBefore(src, dst', limit, a + 0x10)
  {
    forall m | Mode(m) && TriedBefore(m, a + 0x10)
      ensures TriedBefore(m, a) || m == a
    {
    }
  }

  /** No basic block fits a limit below the least cost of a coded block. */
  lemma NoCodedBlock(src: seq<bv8>, limit: int)
    requires |src| == 64 && limit < CodedBaseCost
    ensures forall m :: Mode(m) ==> BlockCost(Basic(ModePlanes(Load(src), m), m)) > limit
  {
    forall m | Mode(m)
      ensures BlockCost(Basic(ModePlanes(Load(src), m), m)) > limit
    {
      BasicCost(ModePlanes(Load(src), m), m);
    }
  }

  /** A basic block costs at least as much as any coded block. */
  lemma BasicCost(planes: seq<Plane>, a: bv8)
    requires |planes| == 8 && Mode(a)
    ensures BlockCost(Basic(planes, a)) >= CodedBaseCost
  {
    PacketsAtLeast(planes, a, 0);
    DefCount(planes, a);
    HeaderBits(a);
    CodedCostAtLeast(Basic(planes, a));
  }

  /** Every coded plane among i..7 contributes at least one packet byte. */
  lemma {:induction false} PacketsAtLeast(planes: seq<Plane>, a: bv8, i: nat)
    requires |planes| == 8 && i <= 8
    ensures |PacketsFrom(planes, a, i)| >= CountFrom(planes, a, i)
    decreases 8 - i
  {
    if i < 8 {
      PacketsAtLeast(planes, a, i + 1);
    }
  }

  /** The single-plane rewrite of a basic block whose packets are shared
      keeps one packet's share of the payload: it restores the source, is
      shorter, and costs one cycle more per coded plane. */
  lemma SharedCandidate(src: seq<bv8>, planes: seq<Plane>, a: bv8)
    requires |src| == 64 && Mode(a) && planes == ModePlanes(Load(src), a) && PacketsShared(planes, a)
    ensures var share := (|Basic(planes, a)| - 2) / CountFrom(planes, a, 0);
      && 1 <= share <= |PacketsFrom(planes, a, 0)|
      && Decodes(Single(planes, a, share), src)
      && BlockCost(Single(planes, a, share)) == BlockCost(Basic(planes, a)) + CountFrom(planes, a, 0)
      && |Single(planes, a, share)| < |Basic(planes, a)|
  {
    var l := SharedShare(planes, a);
    SingleDecodes(src, a);
    SharedCost(planes, a, CountFrom(planes, a, 0), l);
  }

  /** Shared packets split the payload evenly: each coded plane's share is
      the first packet, at least one byte. */
  lemma SharedShare(planes: seq<Plane>, a: bv8) returns (l: nat)
    requires |planes| == 8 && PacketsShared(planes, a)
    ensures l == (|Basic(planes, a)| - 2) / CountFrom(planes, a, 0) == |FirstPacket(planes, a, 0)|
    ensures (|Basic(planes, a)| - 2) % CountFrom(planes, a, 0) == 0
    ensures 1 <= l <= |PacketsFrom(planes, a, 0)|
  {
    SamePacketsSplit(planes, a);
    l := |FirstPacket(planes, a, 0)|;
  }

  lemma SharedCost(planes: seq<Plane>, a: bv8, n: nat, l: nat)
    requires |planes| == 8 && Mode(a) && n == CountFrom(planes, a, 0) >= 2
    requires (|Basic(planes, a)| - 2) % n == 0 && l == (|Basic(planes, a)| - 2) / n
    requires 1 <= l <= |PacketsFrom(planes, a, 0)|
    ensures BlockCost(Single(planes, a, l)) == BlockCost(Basic(planes, a)) + n
    ensures |Single(planes, a, l)| < |Basic(planes, a)|
  {
    DefCount(planes, a);
    var basic := Basic(planes, a);
    var single := Single(planes, a, l);
    assert basic[1] == DefFrom(planes, a, 0) == single[1];
    SingleCostOf(basic, single, n, a);
    ShareShorter(|basic| - 2, n, l);
  }

  lemma SingleCostOf(b: seq<bv8>, s: seq<bv8>, n: nat, a: bv8)
    requires Mode(a) && |b| >= 2 && b[0] == a | 0x02 && n == Popcount(b[1]) as nat && n >= 2
    requires (|b| - 2) % n == 0 && |s| == 2 + (|b| - 2) / n && s[0] == a | 0x06 && s[1] == b[1]
    ensures BlockCost(s) == BlockCost(b) + n
  {
    HeaderBits(a);
    SingleCost(b, s, n);
  }

  /** One share of a payload split among two or more planes is smaller
      than the payload. */
  lemma ShareShorter(len: nat, n: nat, l: nat)
    requires n >= 2 && len % n == 0 && l == len / n && l >= 1
    ensures l < len
  {
    DivExact(len, n);
    assert len == l * n;
  }

  /** The headers a mode writes its basic and single-plane blocks with. */
  lemma HeaderBits(a: bv8)
    requires Mode(a)
    ensures var h := a | 0x02;
      h < 0xc0 && h != RawHeader && HasDef(h) && h & 0x04 == 0 && a | 0x06 == h | 0x04
  {
  }

  /** The basic block with its default definition elided restores the
      source, is one byte shorter, and five cycles cheaper. */
  lemma ElidedCandidate(src: seq<bv8>, a: bv8)
    requires |src| == 64 && Mode(a) && IsDefaultDef(DefFrom(ModePlanes(Load(src), a), a, 0))
    ensures var planes := ModePlanes(Load(src), a);
      && Decodes(Elided(planes, a), src)
      && BlockCost(Elided(planes, a)) == BlockCost(Basic(planes, a)) - 5
      && |Elided(planes, a)| < |Basic(planes, a)|
  {
    ElidedDecodes(src, a);
    ElidedShorter(ModePlanes(Load(src), a), a);
  }

  lemma ElidedShorter(planes: seq<Plane>, a: bv8)
    requires |planes| == 8 && Mode(a) && IsDefaultDef(DefFrom(planes, a, 0))
    ensures BlockCost(Elided(planes, a)) == BlockCost(Basic(planes, a)) - 5
    ensures |Elided(planes, a)| < |Basic(planes, a)|
  {
    var def := DefFrom(planes, a, 0);
    ElidedHeader(a, def, a | DefaultCode(def));
    HeaderBits(a);
    ElidedCost(Basic(planes, a), Elided(planes, a));
  }

  // ---------------------------------------------------------------------
  // donut_nes_all_pb8_planes_match as written

  /** Position i of a payload split into shares of the given length,
      counted within its share. */
  function Pos(i: nat, share: nat): (c: nat)
    requires share > 0
    ensures c < share
  {
    if i < share then i else Pos(i - share, share)
  }

  /** What donut_nes_all_pb8_planes_match (tools/donut.c:338-351) accepts
      for the block in buf[..len] with count coded planes: more than one
      plane, a payload (the bytes after header and definition) that splits
      into count shares of equal length, and every payload byte past the
      first share equal to the byte at the same place in the first share. */
  predicate Periodic(buf: seq<bv8>, len: int, count: int)
    requires 2 <= len <= |buf|
  {
    count > 1 && (len - 2) % count == 0 &&
    var share := (len - 2) / count;
    forall i :: share <= i < len - 2 ==> buf[2 + Pos(i, share)] == buf[2 + i]
  }

  /** donut_nes_all_pb8_planes_match (tools/donut.c:338-351), its loop
      walking the payload from the second share on with c cycling through
      the first share. */
  method Pb8PlanesMatch(buf: seq<bv8>, len: int, count: int) returns (r: bool)
    requires 2 <= len <= |buf|
    ensures r == Periodic(buf, len, count)
  {
    if count <= 1 {
      return false;
    }
    var n := len - 2;
    if n % count != 0 {
      return false;
    }
    var share := n / count;
    ShareWithin(n, count, share);
    var i := share;
    var c := 0;
    while i < n
      invariant share <= i <= n && 0 <= c <= share
      invariant i < n ==> share > 0
      invariant share > 0 && i < n ==> (if c == share then 0 else c) == Pos(i, share)
      invariant forall k :: share <= k < i ==> buf[2 + Pos(k, share)] == buf[2 + k]
    {
      if c >= share {
        c := 0;
      }
      if buf[c + 2] != buf[i + 2] {
        return false;
      }
      PosNext(i, share);
      i := i + 1;
      c := c + 1;
    }
    return true;
  }

  /** A share of a payload split evenly is no longer than the payload, and
      is empty only for an empty payload. */
  lemma ShareWithin(n: int, count: int, share: int)
    requires n >= 0 && count > 1 && n % count == 0 && share == n / count
    ensures 0 <= share <= n && (share == 0 ==> n == 0)
  {
    DivExact(n, count);
    assert share >= 0;
    assert share * count == share * (count - 1) + share;
    MulNonneg(share, count - 1);
  }

  lemma MulNonneg(a: int, b: int)
    requires a >= 0 && b >= 0
    ensures a * b >= 0
  {
  }

  /** The next position within a share is one further, or 0 past its end. */
  lemma {:induction false} PosNext(i: nat, share: nat)
    requires share > 0
    ensures Pos(i + 1, share) == if Pos(i, share) + 1 == share then 0 else Pos(i, share) + 1
    decreases i
  {
    if i + 1 >= share && i >= share {
      PosNext(i - share, share);
    }
  }

  /** The planes of the 64 bytes 01 01 01 01 01 01 01 01, e0 e0 e0 e0 e0 e0
      01 80, then 48 zero bytes: plane 0 has every row 0x01, plane 1 rows
      0x80 0x01 0xe0 0xe0 0xe0 0xe0 0xe0 0xe0, and the rest are zero. */
  function ExamplePlanes(): (planes: seq<Plane>)
    ensures |planes| == 8
  {
    [0x0101_0101_0101_0101, 0x8001_e0e0_e0e0_e0e0, 0, 0, 0, 0, 0, 0]
  }

  /** In mode 0x00 the two coded planes of ExamplePlanes have packets of 2
      and 4 bytes, 80 01 and e0 80 01 e0. Their payload 80 01 e0 80 01 e0
      still repeats with period 3, so donut_nes_all_pb8_planes_match
      accepts it and donut_pack_block writes the single-plane block
      06 c0 80 01 e0. The decoder reads only 80 01 from it, for both planes:
      the block is read as 4 bytes, not 5, so it does not restore the
      source. */
  lemma SharedCheckAcceptsUnequalPackets()
    ensures var planes := ExamplePlanes();
      && CountFrom(planes, 0x00, 0) == 2
      && Basic(planes, 0x00) == [0x02, 0xc0, 0x80, 0x01, 0xe0, 0x80, 0x01, 0xe0]
      && Periodic(Basic(planes, 0x00), 8, 2)
      && !SamePackets(planes, 0x00)
      && Single(planes, 0x00, 3) == [0x06, 0xc0, 0x80, 0x01, 0xe0]
      && forall plain :: !Decodes([0x06, 0xc0, 0x80, 0x01, 0xe0], plain)
  {
    var planes := ExamplePlanes();
    ExampleBlocks(planes);
    ExamplePeriodic([0x02, 0xc0, 0x80, 0x01, 0xe0, 0x80, 0x01, 0xe0]);
    SingleReadShort([0x06, 0xc0, 0x80, 0x01, 0xe0]);
  }

  lemma ExampleBlocks(planes: seq<Plane>)
    requires planes == ExamplePlanes()
    ensures CountFrom(planes, 0x00, 0) == 2 && !SamePackets(planes, 0x00)
    ensures Basic(planes, 0x00) == [0x02, 0xc0, 0x80, 0x01, 0xe0, 0x80, 0x01, 0xe0]
    ensures Single(planes, 0x00, 3) == [0x06, 0xc0, 0x80, 0x01, 0xe0]
  {
    ExamplePackets(planes);
    ExampleUnequal(planes);
    ExampleBasic(planes, PacketsFrom(planes, 0x00, 0));
    ExampleSingle(planes, PacketsFrom(planes, 0x00, 0));
  }

  lemma ExampleUnequal(planes: seq<Plane>)
    requires |planes| == 8 && IsCoded(planes, 0x00, 0) && IsCoded(planes, 0x00, 1)
    requires Packet(planes, 0x00, 1) == [0xe0, 0x80, 0x01, 0xe0] && FirstPacket(planes, 0x00, 0) == [0x80, 0x01]
    ensures !SamePackets(planes, 0x00)
  {
    assert Packet(planes, 0x00, 1) != FirstPacket(planes, 0x00, 0);
  }

  lemma ExampleBasic(planes: seq<Plane>, ps: seq<bv8>)
    requires |planes| == 8 && DefFrom(planes, 0x00, 0) == 0xc0 && PacketsFrom(planes, 0x00, 0) == ps
    requires ps == [0x80, 0x01, 0xe0, 0x80, 0x01, 0xe0]
    ensures Basic(planes, 0x00) == [0x02, 0xc0, 0x80, 0x01, 0xe0, 0x80, 0x01, 0xe0]
  {
  }

  lemma ExampleSingle(planes: seq<Plane>, ps: seq<bv8>)
    requires |planes| == 8 && DefFrom(planes, 0x00, 0) == 0xc0 && PacketsFrom(planes, 0x00, 0) == ps
    requires ps == [0x80, 0x01, 0xe0, 0x80, 0x01, 0xe0]
    ensures Single(planes, 0x00, 3) == [0x06, 0xc0, 0x80, 0x01, 0xe0]
  {
    assert ps[..3] == [0x80, 0x01, 0xe0];
  }

  lemma ExamplePackets(planes: seq<Plane>)
    requires planes == ExamplePlanes()
    ensures IsCoded(planes, 0x00, 0) && IsCoded(planes, 0x00, 1)
    ensures Packet(planes, 0x00, 0) == [0x80, 0x01] && Packet(planes, 0x00, 1) == [0xe0, 0x80, 0x01, 0xe0]
    ensures FirstPacket(planes, 0x00, 0) == [0x80, 0x01]
    ensures forall j :: 2 <= j < 8 ==> !IsCoded(planes, 0x00, j)
    ensures CountFrom(planes, 0x00, 0) == 2 && DefFrom(planes, 0x00, 0) == 0xc0
    ensures PacketsFrom(planes, 0x00, 0) == [0x80, 0x01, 0xe0, 0x80, 0x01, 0xe0]
  {
    assert Rows(planes[0]) == [0x01, 0x01, 0x01, 0x01, 0x01, 0x01, 0x01, 0x01];
    assert Rows(planes[1]) == [0x80, 0x01, 0xe0, 0xe0, 0xe0, 0xe0, 0xe0, 0xe0];
  }

  lemma ExamplePeriodic(b: seq<bv8>)
    requires b == [0x02, 0xc0, 0x80, 0x01, 0xe0, 0x80, 0x01, 0xe0]
    ensures Periodic(b, 8, 2)
  {
    assert Pos(3, 3) == 0 && Pos(4, 3) == 1 && Pos(5, 3) == 2;
    forall i | 3 <= i < 6
      ensures b[2 + Pos(i, 3)] == b[2 + i]
    {
    }
  }

  /** The block 06 c0 80 01 e0, followed by anything, is read as 4 bytes. */
  lemma SingleReadShort(block: seq<bv8>)
    requires block == [0x06, 0xc0, 0x80, 0x01, 0xe0]
    ensures forall plain :: !Decodes(block, plain)
  {
    var buf := block + Zeros(MaxBlockLength - 5);
    assert BlockDecode(buf).used == 4;
  }
}
