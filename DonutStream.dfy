/** The stream loops of the Donut CHR codec, donut_decompress and
    donut_compress (tools/donut.c:473-534): a run of blocks read or written
    64 source bytes at a time within the capacity of the destination. */
module DonutStream {
  import opened DonutPlanes
  import opened DonutBlock
  import opened DonutModes
  import opened DonutPack
  import Common

  // ---------------------------------------------------------------------
  // Decompression

  /** The bytes the block decoder sees at the read position: the rest of
      the source, padded with zeros to a full block when fewer than 74
      bytes are left, as the scratch space of donut_decompress is. */
  function Window(rest: seq<bv8>): (w: seq<bv8>)
    ensures |w| >= MaxBlockLength
    ensures |rest| >= MaxBlockLength ==> w == rest
    ensures w[..|rest|] == rest || |rest| >= MaxBlockLength
  {
    if |rest| >= MaxBlockLength then rest else rest + Zeros(MaxBlockLength - |rest|)
  }

  /** The block decoder at the read position. */
  function Next(rest: seq<bv8>): Unpacked {
    BlockDecode(Window(rest))
  }

  /** A decoder that gives what the block decoder gives. The two stream
      loops are proved over such a decoder: their proofs then never see the
      block format, which only UnpackAt and PackChunk need. The trigger
      brings the agreement in at a use of the block decoder and nowhere
      else. */
  ghost predicate Agrees(next: seq<bv8> -> Unpacked) {
    forall rest {:trigger Next(rest)} :: next(rest) == Next(rest)
  }

  lemma NextAgrees()
    ensures Agrees(Next)
  {
  }

  /** A block decoder as the stream loop relies on it: a block that takes
      some bytes gives 64. */
  ghost predicate WholeBlocks(next: seq<bv8> -> Unpacked) {
    forall rest :: next(rest).used != 0 ==> |next(rest).out| == 64
  }

  lemma NextWholeBlocks()
    ensures WholeBlocks(Next)
  {
    forall rest | Next(rest).used != 0
      ensures |Next(rest).out| == 64
    {
      BlockDecodeBounds(Window(rest));
    }
  }

  /** What donut_decompress produces from src with room bytes of
      destination, given the block decoder next: blocks decoded one after
      another until the source is used up, fewer than 64 bytes of room are
      left, a header of 0xc0 or above comes (the decoder takes nothing), or
      a block near the end would read past the source. Gives the bytes
      written and the source bytes read. */
  function Stream(next: seq<bv8> -> Unpacked, src: seq<bv8>, room: nat): (r: (seq<bv8>, nat))
    decreases |src|
  {
    if |src| == 0 || room < 64 then ([], 0)
    else
      var b := next(src);
      if b.used == 0 || b.used > |src| then ([], 0)
      else
        var more := Stream(next, src[b.used..], room - 64);
        (b.out + more.0, b.used + more.1)
  }

  /** The stream of the Donut block decoder. */
  function Decoded(src: seq<bv8>, room: nat): (r: (seq<bv8>, nat)) {
    Stream(Next, src, room)
  }

  lemma DecodedBounds(src: seq<bv8>, room: nat)
    ensures |Decoded(src, room).0| <= room && |Decoded(src, room).0| % 64 == 0
    ensures Decoded(src, room).1 <= |src|
  {
    NextWholeBlocks();
    StreamBounds(Next, src, room);
  }

  /** The decompressed stream fits the destination, is whole blocks, and
      reads no further than the source ends. */
  lemma {:induction false} StreamBounds(next: seq<bv8> -> Unpacked, src: seq<bv8>, room: nat)
    requires WholeBlocks(next)
    ensures |Stream(next, src, room).0| <= room
    ensures |Stream(next, src, room).0| % 64 == 0
    ensures Stream(next, src, room).1 <= |src|
    decreases |src|
  {
    if |src| > 0 && room >= 64 {
      var b := next(src);
      if b.used != 0 && b.used <= |src| {
        var more := Stream(next, src[b.used..], room - 64);
        StreamBounds(next, src[b.used..], room - 64);
        assert |Stream(next, src, room).0| == 64 + |more.0|;
        OneBlockMore(|more.0|);
      }
    }
  }

  lemma OneBlockMore(k: nat)
    requires k % 64 == 0
    ensures (64 + k) % 64 == 0
  {
  }

  /** A header of 0xc0 or above stops the stream before anything is
      written. */
  lemma DecodedStops(src: seq<bv8>, room: nat)
    requires |src| > 0 && src[0] >= 0xc0
    ensures Decoded(src, room) == ([], 0)
  {
    if room >= 64 {
      BlockDecodeFixed(Window(src));
    }
  }

  /** donut_decompress (tools/donut.c:473-503): decodes blocks from src
      into a destination of dstCapacity bytes. Gives the bytes written and
      the source bytes read. */
  method Decompress(src: seq<bv8>, dstCapacity: nat) returns (dst: seq<bv8>, bytesRead: nat)
    ensures (dst, bytesRead) == Decoded(src, dstCapacity)
    ensures |dst| <= dstCapacity && |dst| % 64 == 0 && bytesRead <= |src|
  {
    NextAgrees();
    dst, bytesRead := DecompressLoop(Next, src, dstCapacity);
    DecodedBounds(src, dstCapacity);
  }

  /** The loop of donut_decompress, over a decoder next that agrees with
      the block decoder. */
  method DecompressLoop(ghost next: seq<bv8> -> Unpacked, src: seq<bv8>, dstCapacity: nat)
    returns (dst: seq<bv8>, bytesRead: nat)
    requires Agrees(next)
    ensures (dst, bytesRead) == Stream(next, src, dstCapacity)
  {
    dst := [];
    bytesRead := 0;
    ProgressStart(next, src, dstCapacity);
    while true
      invariant Progress(next, src, dstCapacity, dst, bytesRead)
      decreases |src| - bytesRead
    {
      var srcRemain := |src| - bytesRead;
      var dstRemain := dstCapacity - |dst|;
      if srcRemain <= 0 || dstRemain < 64 {
        ProgressEnd(next, src, dstCapacity, dst, bytesRead);
        break;
      }
      var out, l := UnpackAt(next, src[bytesRead..]);
      if l == 0 || l > srcRemain {
        ProgressEnd(next, src, dstCapacity, dst, bytesRead);
        break;
      }
      ProgressStep(next, src, dstCapacity, dst, bytesRead, out, l);
      dst := dst + out;
      bytesRead := bytesRead + l;
    }
  }

  /** Decodes the block at the read position, through a zero-padded
      scratch copy when fewer than 74 bytes are left. */
  method UnpackAt(ghost next: seq<bv8> -> Unpacked, rest: seq<bv8>) returns (out: seq<bv8>, l: nat)
    requires Agrees(next)
    ensures Unpacked(out, l) == next(rest)
    ensures l != 0 ==> |out| == 64
  {
    assert next(rest) == Next(rest);
    BlockDecodeBounds(Window(rest));
    if |rest| < MaxBlockLength {
      out, l := UnpackBlock(rest + Zeros(MaxBlockLength - |rest|));
    } else {
      out, l := UnpackBlock(rest);
    }
  }

  /** The loop state of Decompress: dst and at are what the stream gave so
      far, and the stream from the read position gives the rest. */
  ghost predicate Progress(next: seq<bv8> -> Unpacked, src: seq<bv8>, cap: nat, dst: seq<bv8>, at: nat)
  {
    at <= |src| && |dst| <= cap &&
    var more := Stream(next, src[at..], cap - |dst|);
    Stream(next, src, cap) == (dst + more.0, at + more.1)
  }

  lemma ProgressStart(next: seq<bv8> -> Unpacked, src: seq<bv8>, cap: nat)
    ensures Progress(next, src, cap, [], 0)
  {
    assert src[0..] == src;
    assert [] + Stream(next, src, cap).0 == Stream(next, src, cap).0;
  }

  /** Where the loop stops, the stream from the read position is empty, so
      the loop state is the whole result. */
  lemma ProgressEnd(next: seq<bv8> -> Unpacked, src: seq<bv8>, cap: nat, dst: seq<bv8>, at: nat)
    requires Progress(next, src, cap, dst, at)
    requires at == |src| || cap - |dst| < 64 ||
      next(src[at..]).used == 0 || next(src[at..]).used > |src| - at
    ensures Stream(next, src, cap) == (dst, at)
  {
    assert Stream(next, src[at..], cap - |dst|) == ([], 0);
    assert dst + [] == dst;
  }

  /** One decoded block carries the loop state to the position past it. */
  lemma ProgressStep(next: seq<bv8> -> Unpacked, src: seq<bv8>, cap: nat, dst: seq<bv8>, at: nat,
                     out: seq<bv8>, l: nat)
    requires Progress(next, src, cap, dst, at) && at < |src| && cap - |dst| >= 64
    requires Unpacked(out, l) == next(src[at..]) && 0 < l <= |src| - at && |out| == 64
    ensures Progress(next, src, cap, dst + out, at + l)
  {
    var b := next(src[at..]);
    assert src[at..][b.used..] == src[at + b.used..];
    var more := Stream(next, src[at + b.used..], cap - |dst| - 64);
    assert Stream(next, src[at..], cap - |dst|) == (b.out + more.0, b.used + more.1);
    assert dst + (b.out + more.0) == (dst + b.out) + more.0;
  }

  // ---------------------------------------------------------------------
  // Compression

  /** The decoder next reads block, whatever follows it, as the 64 bytes
      plain. */
  ghost predicate Reads(next: seq<bv8> -> Unpacked, block: seq<bv8>, plain: seq<bv8>) {
    forall rest :: next(block + rest) == Unpacked(plain, |block|)
  }

  /** A block that decodes to plain is read as plain at the head of any
      stream. */
  lemma NextReads(block: seq<bv8>, plain: seq<bv8>)
    requires Decodes(block, plain)
    ensures Reads(Next, block, plain)
  {
    forall rest
      ensures Next(block + rest) == Unpacked(plain, |block|)
    {
      var w := Window(block + rest);
      var tail := w[|block|..];
      assert w == block + tail;
    }
  }

  /** blocks, each non-empty, code the 64-byte chunks plains one for one. */
  ghost predicate Coded(next: seq<bv8> -> Unpacked, blocks: seq<seq<bv8>>, plains: seq<seq<bv8>>) {
    |blocks| == |plains| &&
    forall i :: 0 <= i < |blocks| ==>
      1 <= |blocks[i]| && |plains[i]| == 64 && Reads(next, blocks[i], plains[i])
  }

  /** A run of coded blocks decompresses to the chunks they code, reading
      all of it, given room for every chunk. */
  lemma {:induction false} StreamOfBlocks(next: seq<bv8> -> Unpacked, blocks: seq<seq<bv8>>,
                                          plains: seq<seq<bv8>>, room: nat)
    requires Coded(next, blocks, plains) && room >= 64 * |blocks|
    ensures Stream(next, Common.Flatten(blocks), room) == (Common.Flatten(plains), |Common.Flatten(blocks)|)
    decreases |blocks|
  {
    if blocks != [] {
      var b := blocks[0];
      var t := Common.Flatten(blocks[1..]);
      assert Common.Flatten(blocks) == b + t;
      assert Reads(next, b, plains[0]);
      assert next(b + t) == Unpacked(plains[0], |b|);
      assert (b + t)[|b|..] == t;
      StreamOfBlocks(next, blocks[1..], plains[1..], room - 64);
    }
  }

  /** donut_compress (tools/donut.c:505-534): packs src 64 bytes at a time,
      with no limit on decoding time, into a destination of dstCapacity
      bytes. Gives the bytes written and the source bytes read. Every block
      that fits is written: the loop stops only with less than a block of
      source, or less than the largest block of room, left. What it writes
      decompresses to exactly the source it read. */
  method Compress(src: seq<bv8>, dstCapacity: nat) returns (dst: seq<bv8>, bytesRead: nat)
    ensures bytesRead % 64 == 0 && bytesRead <= |src| && |dst| <= dstCapacity
    ensures bytesRead + 64 > |src| || dstCapacity - |dst| < 65
    ensures |dst| <= bytesRead / 64 * 65
    ensures forall room :: room >= bytesRead ==> Decoded(dst, room) == (src[..bytesRead], |dst|)
    ensures dstCapacity >= |src| / 64 * 65 ==> bytesRead == |src| / 64 * 64
  {
    NextAgrees();
    dst, bytesRead := CompressLoop(Next, src, dstCapacity);
    if dstCapacity >= |src| / 64 * 65 {
      CompressReadsAll(|src|, dstCapacity, bytesRead, |dst|);
    }
  }

  /** The loop of donut_compress, over a decoder next that agrees with the
      block decoder. */
  method CompressLoop(ghost next: seq<bv8> -> Unpacked, src: seq<bv8>, dstCapacity: nat)
    returns (dst: seq<bv8>, bytesRead: nat)
    requires Agrees(next)
    ensures bytesRead % 64 == 0 && bytesRead <= |src| && |dst| <= dstCapacity
    ensures bytesRead + 64 > |src| || dstCapacity - |dst| < 65
    ensures |dst| <= bytesRead / 64 * 65
    ensures forall room :: room >= bytesRead ==> Stream(next, dst, room) == (src[..bytesRead], |dst|)
  {
    dst := [];
    bytesRead := 0;
    ghost var blocks: seq<seq<bv8>> := [];
    ghost var plains: seq<seq<bv8>> := [];
    while true
      invariant bytesRead == 64 * |blocks| <= |src| && |dst| <= dstCapacity
      invariant Coded(next, blocks, plains)
      invariant dst == Common.Flatten(blocks) && src[..bytesRead] == Common.Flatten(plains)
      invariant |dst| <= 65 * |blocks|
      decreases |src| - bytesRead
    {
      var srcRemain := |src| - bytesRead;
      var dstRemain := dstCapacity - |dst|;
      if srcRemain < 64 || dstRemain <= 0 {
        break;
      }
      var plain := src[bytesRead..bytesRead + 64];
      var block := PackChunk(next, plain);
      if dstRemain < 65 && |block| > dstRemain {
        break;
      }
      CodedSnoc(next, blocks, plains, block, plain);
      Common.FlattenSnoc(blocks, block);
      Common.FlattenSnoc(plains, plain);
      assert src[..bytesRead + 64] == src[..bytesRead] + plain;
      blocks := blocks + [block];
      plains := plains + [plain];
      dst := dst + block;
      bytesRead := bytesRead + 64;
    }
    forall room | room >= bytesRead
      ensures Stream(next, dst, room) == (src[..bytesRead], |dst|)
    {
      StreamOfBlocks(next, blocks, plains, room);
    }
  }

  lemma CodedSnoc(next: seq<bv8> -> Unpacked, blocks: seq<seq<bv8>>, plains: seq<seq<bv8>>,
                  block: seq<bv8>, plain: seq<bv8>)
    requires Coded(next, blocks, plains)
    requires 1 <= |block| && |plain| == 64 && Reads(next, block, plain)
    ensures Coded(next, blocks + [block], plains + [plain])
  {
  }

  /** donut_pack_block with no limit on decoding time, as the stream
      loop calls it. */
  method PackChunk(ghost next: seq<bv8> -> Unpacked, plain: seq<bv8>) returns (block: seq<bv8>)
    requires Agrees(next) && |plain| == 64
    ensures 1 <= |block| <= 65 && Reads(next, block, plain)
  {
    block := PackBlock(plain, 0);
    NextReads(block, plain);
    forall rest
      ensures next(block + rest) == Unpacked(plain, |block|)
    {
      assert Next(block + rest) == Unpacked(plain, |block|);
    }
  }

  /** With room for the largest block per chunk, the loop reads every
      whole chunk of the source. */
  lemma CompressReadsAll(n: nat, capacity: nat, read: nat, written: nat)
    requires read % 64 == 0 && read <= n && written <= read / 64 * 65
    requires read + 64 > n || capacity - written < 65
    requires capacity >= n / 64 * 65 && written <= capacity
    ensures read == n / 64 * 64
  {
  }
}
