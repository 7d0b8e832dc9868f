/** The encoder's cost model for one coded block of the Donut CHR codec
    (tools/donut.c:255-286): the cycles the 6502 decoder is estimated to
    spend on a block, from its header, plane definition and length. */
module DonutCost {
  import opened DonutPlanes
  import opened DonutBlock

  /** The cost of a raw block, and the least a coded block costs. */
  const RawCost: int := 1268
  const CodedBaseCost: int := 1298

  /** The number of coded planes a header implies when no definition byte
      follows: `0x08040400 >> ((header & 0x0c) << 1)` truncated to a byte,
      the bits set in DefaultPlaneDef. */
  function DefaultPlaneCount(h: bv8): (n: bv8)
    ensures n as nat == BitCount(DefaultPlaneDef(h))
  {
    DefaultCounts(h);
    (((0x08040400 as bv32) >> ((h & 0x0c) << 1)) & 0xff) as bv8
  }

  lemma DefaultCounts(h: bv8)
    ensures (((0x08040400 as bv32) >> ((h & 0x0c) << 1)) & 0xff) as bv8 as nat == BitCount(DefaultPlaneDef(h))
  {
    assert BitCount(0x00) == 0 && BitCount(0x55) == 4 && BitCount(0xaa) == 4 && BitCount(0xff) == 8;
  }

  /** Whether a header carries its own plane-definition byte. */
  predicate HasDef(h: bv8) {
    h & 0x02 != 0
  }

  /** The number of coded planes a block declares: the bits of its plane
      definition. */
  function DeclaredCount(b: seq<bv8>): (n: nat)
    requires |b| >= 1 && (HasDef(b[0]) ==> |b| >= 2)
    ensures n <= 8
  {
    if HasDef(b[0]) then Popcount(b[1]) as nat else DefaultPlaneCount(b[0]) as nat
  }

  /** Single-plane mode as the cost model sees it: it also needs a
      non-zero plane definition. */
  predicate CostSingle(b: seq<bv8>)
    requires |b| >= 2 || (|b| >= 1 && !HasDef(b[0]))
  {
    HasDef(b[0]) && b[0] & 0x04 != 0 && b[1] != 0
  }

  /** The cycles spent before the planes: header bits and the definition
      byte. */
  function HeaderCost(h: bv8): (c: int)
    ensures CodedBaseCost <= c <= CodedBaseCost + 653
  {
    CodedBaseCost + (if h & 0xc0 != 0 then 640 else 0) + (if h & 0x20 != 0 then 4 else 0)
    + (if h & 0x10 != 0 then 4 else 0) + (if HasDef(h) then 5 else 0)
  }

  /** The cycles spent per coded plane: 614 with the transpose, 75 without. */
  function PlaneCost(h: bv8): (c: int)
    ensures c == 75 || c == 614
  {
    if h & 0x01 != 0 then 614 else 75
  }

  /** donut_block_runtime_cost (tools/donut.c:255-286) of the block b, its
      length being |b|: nothing for an empty block, a header of 0xc0 or
      above, or a definition byte that is missing; 1268 for a raw block;
      otherwise the header's cost, each declared plane's, and six cycles
      for every payload byte beyond one per plane, the payload of a
      single-plane block counting once per plane. */
  function BlockCost(b: seq<bv8>): (c: int)
    ensures |b| >= 1 && b[0] == RawHeader ==> c == RawCost
    ensures |b| == 0 || b[0] >= 0xc0 || (HasDef(b[0]) && |b| < 2 && b[0] != RawHeader) ==> c == 0
  {
    if |b| == 0 then 0
    else if b[0] >= 0xc0 then 0
    else if b[0] == RawHeader then RawCost
    else if HasDef(b[0]) && |b| < 2 then 0
    else
      var h := b[0];
      var count := DeclaredCount(b);
      var single := CostSingle(b);
      var len := |b| - (if HasDef(h) then 2 else 1);
      HeaderCost(h) + count * PlaneCost(h) + (if single then count else 0)
      + ((if single then len * count else len) - count) * 6
  }

  /** A coded block whose payload holds at least one byte per declared
      plane costs at least 1298 cycles: this is why donut_pack_block gives
      up on coding when the limit is below that. */
  lemma CodedCostAtLeast(b: seq<bv8>)
    requires |b| >= 2 && b[0] < 0xc0 && b[0] != RawHeader
    requires var start := if HasDef(b[0]) then 2 else 1;
      (CostSingle(b) ==> |b| > start) && (!CostSingle(b) ==> |b| - start >= DeclaredCount(b))
    ensures BlockCost(b) >= CodedBaseCost
  {
    var start := if HasDef(b[0]) then 2 else 1;
    var len := |b| - start;
    var count := DeclaredCount(b);
    if CostSingle(b) {
      assert len * count >= count by { MulAtLeast(len, count); }
    }
  }

  lemma MulAtLeast(len: int, count: nat)
    requires len >= 1
    ensures len * count >= count
  {
  }

  /** Rewriting a block with a definition byte as a single-plane block
      holding its first 1/count of the payload adds count cycles: the
      payload counts count times over, and each plane one cycle more. */
  lemma SingleCost(b: seq<bv8>, s: seq<bv8>, count: nat)
    requires |b| >= 2 && b[0] < 0xc0 && b[0] != RawHeader && HasDef(b[0]) && b[0] & 0x04 == 0
    requires count == Popcount(b[1]) as nat && count >= 2 && (|b| - 2) % count == 0
    requires |s| == 2 + (|b| - 2) / count && s[0] == b[0] | 0x04 && s[1] == b[1]
    ensures BlockCost(s) == BlockCost(b) + count
  {
    SetSingleBit(b[0]);
    var l := (|b| - 2) / count;
    assert l * count == |b| - 2 by { DivExact(|b| - 2, count); }
    assert s[1] != 0 by { assert Popcount(b[1]) != 0; }
    DefCost(b);
    SingleDefCost(s);
  }

  lemma DefCost(b: seq<bv8>)
    requires |b| >= 2 && b[0] < 0xc0 && b[0] != RawHeader && HasDef(b[0]) && b[0] & 0x04 == 0
    ensures BlockCost(b) == HeaderCost(b[0]) + DeclaredCount(b) * PlaneCost(b[0]) + (|b| - 2 - DeclaredCount(b)) * 6
  {
  }

  lemma SingleDefCost(s: seq<bv8>)
    requires |s| >= 2 && s[0] < 0xc0 && s[0] != RawHeader && HasDef(s[0]) && s[0] & 0x04 != 0 && s[1] != 0
    ensures var count := DeclaredCount(s);
      BlockCost(s) == HeaderCost(s[0]) + count * PlaneCost(s[0]) + count + ((|s| - 2) * count - count) * 6
  {
  }

  lemma DivExact(x: int, c: int)
    requires x >= 0 && c > 0 && x % c == 0
    ensures (x / c) * c == x
  {
  }

  lemma SetSingleBit(h: bv8)
    requires h < 0xc0 && h != RawHeader && HasDef(h) && h & 0x04 == 0
    ensures h | 0x04 < 0xc0 && h | 0x04 != RawHeader && HasDef(h | 0x04) && (h | 0x04) & 0x04 != 0
    ensures HeaderCost(h | 0x04) == HeaderCost(h) && PlaneCost(h | 0x04) == PlaneCost(h)
  {
  }

  /** Dropping the definition byte of a block whose definition is the one
      the header's 0x0c bits imply saves the five cycles of reading it. */
  lemma ElidedCost(b: seq<bv8>, e: seq<bv8>)
    requires |b| >= 2 && b[0] < 0xc0 && b[0] != RawHeader && HasDef(b[0]) && b[0] & 0x04 == 0
    requires |e| == |b| - 1 && e[0] < 0xc0 && e[0] != RawHeader && !HasDef(e[0])
    requires e[0] & 0xf1 == b[0] & 0xf1 && DefaultPlaneDef(e[0]) == b[1]
    ensures BlockCost(e) == BlockCost(b) - 5
  {
    assert !CostSingle(b);
    assert HeaderCost(e[0]) == HeaderCost(b[0]) - 5 && PlaneCost(e[0]) == PlaneCost(b[0]) by {
      SameModeBits(b[0], e[0]);
    }
  }

  lemma SameModeBits(h: bv8, g: bv8)
    requires g & 0xf1 == h & 0xf1 && HasDef(h) && !HasDef(g)
    ensures HeaderCost(g) == HeaderCost(h) - 5 && PlaneCost(g) == PlaneCost(h)
  {
  }
}
