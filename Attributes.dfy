/** The attribute shadow table (src/attributes.cpp): 128 bytes, two
    nametables' worth of 2-bit palette fields, packed four to a byte, and
    the single "dirty" byte that is sent through the VRAM buffer while
    buffered updates are on. */
module Attributes {
  import opened Common
  import NexxtMap

  /** The nametable whose attribute area a byte belongs to. */
  datatype Nametable = NametableA | NametableD

  /** One one_vram_buffer call: the byte and where it goes, as the offset
      from the start of the nametable's attribute area (0x3c0). */
  datatype VramWrite = VramWrite(value: bv8, nametable: Nametable, offset: nat)

  /** The shadow index of a metatile (attributes.cpp:29-35), in unsigned char
      arithmetic: two metatiles per attribute column, eight attribute bytes
      per row, and the second nametable (meta_x & 0x10) 64 bytes further.
      Coordinates are integers: `& 0x0f` is `% 16`, `>> 1` is `/ 2`, and
      bit 4 is `/ 16 % 2`. */
  function AttributeIndex(metaX: u8, metaY: u8): u8 {
    var i := ((metaY / 2) * 8 + (metaX % 16) / 2) % 0x100;
    if (metaX / 16) % 2 == 1 then (i + 64) % 0x100 else i
  }

  /** The mask of the metatile's 2-bit field: 0b11 moved up 4 for an odd
      row and 2 for an odd column. */
  function FieldMask(metaX: u8, metaY: u8): bv8 {
    if metaY % 2 == 1 then (if metaX % 2 == 1 then 0xc0 else 0x30)
    else (if metaX % 2 == 1 then 0x0c else 0x03)
  }

  /** The attribute moved by the same amount, bits above the byte dropped. */
  function FieldValue(attribute: bv8, metaX: u8, metaY: u8): bv8 {
    var v := if metaY % 2 == 1 then attribute << 4 else attribute;
    if metaX % 2 == 1 then v << 2 else v
  }

  /** The metatile's 2-bit field of an attribute byte. */
  function Field(b: bv8, metaX: u8, metaY: u8): (f: bv8)
    ensures f <= 3
  {
    if metaY % 2 == 1 then (if metaX % 2 == 1 then b >> 6 else (b >> 4) & 3)
    else (if metaX % 2 == 1 then (b >> 2) & 3 else b & 3)
  }

  /** The new attribute byte (attributes.cpp:49). */
  function SetField(b: bv8, metaX: u8, metaY: u8, attribute: bv8): bv8 {
    (b & !FieldMask(metaX, metaY)) | FieldValue(attribute, metaX, metaY)
  }

  /** An attribute up to 3 lands in its field and leaves the other six bits. */
  lemma SetFieldSpec(b: bv8, metaX: u8, metaY: u8, attribute: bv8)
    requires attribute <= 3
    ensures Field(SetField(b, metaX, metaY, attribute), metaX, metaY) == attribute
    ensures SetField(b, metaX, metaY, attribute) & !FieldMask(metaX, metaY) == b & !FieldMask(metaX, metaY)
  {
  }

  /** The fields of the other three metatiles sharing the byte are kept. */
  lemma SetFieldOthers(b: bv8, metaX: u8, metaY: u8, attribute: bv8, otherX: u8, otherY: u8)
    requires attribute <= 3
    requires otherX % 2 != metaX % 2 || otherY % 2 != metaY % 2
    ensures Field(SetField(b, metaX, metaY, attribute), otherX, otherY) == Field(b, otherX, otherY)
  {
  }

  /** Metatiles with coordinates below 16 address the first 64 bytes, the
      same byte the map decoder reads for a 32-tile-wide nametable. */
  lemma AttributeIndexLayout(metaX: u8, metaY: u8)
    requires metaX < 16 && metaY < 16
    ensures AttributeIndex(metaX, metaY) < 64
    ensures AttributeIndex(metaX, metaY) == NexxtMap.AttributeIndex(32, metaY, metaX)
  {
    assert metaX % 16 == metaX && metaX / 16 == 0;
    var i := (metaY / 2) * 8 + metaX / 2;
    assert metaY / 2 <= 7 && metaX / 2 <= 7;
    assert i < 64 && i % 0x100 == i;
  }

  /** Every metatile of the 32x30 screens (16 columns a nametable, 15 rows)
      has its byte inside the 128-byte table. */
  lemma AttributeIndexBound(metaX: u8, metaY: u8)
    requires metaX < 32 && metaY < 16
    ensures AttributeIndex(metaX, metaY) < 128
  {
  }

  lemma Bits76(b: bv8) ensures (b >> 6) as int == b as int / 16 / 4 % 4 {}
  lemma Bits54(b: bv8) ensures ((b >> 4) & 3) as int == b as int / 16 % 4 { Shift4(b); Bits10(b >> 4); }
  lemma Bits32(b: bv8) ensures ((b >> 2) & 3) as int == b as int / 4 % 4 { Shift2(b); Bits10(b >> 2); }
  lemma Bits10(b: bv8) ensures (b & 3) as int == b as int % 4 {}
  lemma Shift4(b: bv8) ensures (b >> 4) as int == b as int / 16 {}
  lemma Shift2(b: bv8) ensures (b >> 2) as int == b as int / 4 {}

  /** The field as an integer is the map decoder's 2-bit quadrant field of
      the byte (`>> 4` for an odd row, `>> 2` for an odd column, `& 0b11`). */
  lemma FieldAsInteger(b: bv8, metaX: u8, metaY: u8)
    ensures Field(b, metaX, metaY) as int == NexxtMap.QuadrantField(b as int, metaY, metaX)
  {
    if metaY % 2 == 1 {
      if metaX % 2 == 1 {
        FieldHigh(b, metaX, metaY);
      } else {
        FieldUpperMiddle(b, metaX, metaY);
      }
    } else {
      if metaX % 2 == 1 {
        FieldLowerMiddle(b, metaX, metaY);
      } else {
        FieldLow(b, metaX, metaY);
      }
    }
  }

  lemma FieldHigh(b: bv8, metaX: u8, metaY: u8)
    requires metaX % 2 == 1 && metaY % 2 == 1
    ensures Field(b, metaX, metaY) as int == NexxtMap.QuadrantField(b as int, metaY, metaX)
  {
    assert NexxtMap.QuadrantField(b as int, metaY, metaX) == b as int / 16 / 4 % 4;
    assert Field(b, metaX, metaY) == b >> 6;
    Bits76(b);
  }

  lemma FieldUpperMiddle(b: bv8, metaX: u8, metaY: u8)
    requires metaX % 2 == 0 && metaY % 2 == 1
    ensures Field(b, metaX, metaY) as int == NexxtMap.QuadrantField(b as int, metaY, metaX)
  {
    assert NexxtMap.QuadrantField(b as int, metaY, metaX) == b as int / 16 % 4;
    assert Field(b, metaX, metaY) == (b >> 4) & 3;
    Bits54(b);
  }

  lemma FieldLowerMiddle(b: bv8, metaX: u8, metaY: u8)
    requires metaX % 2 == 1 && metaY % 2 == 0
    ensures Field(b, metaX, metaY) as int == NexxtMap.QuadrantField(b as int, metaY, metaX)
  {
    assert NexxtMap.QuadrantField(b as int, metaY, metaX) == b as int / 4 % 4;
    assert Field(b, metaX, metaY) == (b >> 2) & 3;
    Bits32(b);
  }

  lemma FieldLow(b: bv8, metaX: u8, metaY: u8)
    requires metaX % 2 == 0 && metaY % 2 == 0
    ensures Field(b, metaX, metaY) as int == NexxtMap.QuadrantField(b as int, metaY, metaX)
  {
    assert NexxtMap.QuadrantField(b as int, metaY, metaX) == b as int % 4;
    assert Field(b, metaX, metaY) == b & 3;
    Bits10(b);
  }

  /** The stored field, read back as an integer. */
  lemma FieldOfSet(b: bv8, metaX: u8, metaY: u8, attribute: bv8)
    requires attribute <= 3
    ensures NexxtMap.QuadrantField(SetField(b, metaX, metaY, attribute) as int, metaY, metaX) == attribute as int
  {
    var s := SetField(b, metaX, metaY, attribute);
    assert Field(s, metaX, metaY) == attribute by { SetFieldSpec(b, metaX, metaY, attribute); }
    FieldAsInteger(s, metaX, metaY);
  }

  /** The byte values of a table, as the map decoder's Integers. */
  function Values(bs: seq<bv8>): (r: seq<u8>)
    ensures |r| == |bs| && forall i :: 0 <= i < |bs| ==> r[i] == bs[i] as int
  {
    seq(|bs|, i requires 0 <= i < |bs| => bs[i] as int)
  }

  /** The game's packing and the map decoder's unpacking agree: after the
      game stores an attribute for a metatile of the first nametable, the
      map decoder reads that attribute back from those 64 bytes. */
  lemma SetThenExtract(shadow: seq<bv8>, metaX: u8, metaY: u8, attribute: bv8)
    requires |shadow| == 128 && metaX < 16 && metaY < 16 && attribute <= 3
    ensures var i := AttributeIndex(metaX, metaY);
      var after := shadow[i := SetField(shadow[i], metaX, metaY, attribute)];
      NexxtMap.ExtractAttribute(Some(Values(after[..64])), 32, metaY, metaX)
        == Ok(Some(attribute as int))
  {
    var i := AttributeIndex(metaX, metaY);
    var b := SetField(shadow[i], metaX, metaY, attribute);
    var after := shadow[i := b];
    AttributeIndexLayout(metaX, metaY);
    FieldOfSet(shadow[i], metaX, metaY, attribute);
    var vs := Values(after[..64]);
    assert vs[i] == b as int;
    assert NexxtMap.ExtractAttribute(Some(vs), 32, metaY, metaX) == Ok(Some(NexxtMap.QuadrantField(vs[i], metaY, metaX)));
  }

  /** The write send_dirty_to_vram_buffer issues for a dirty index below 128
      (attributes.cpp:14-19): the first 64 bytes go to nametable A, the rest
      to nametable D. */
  function DirtyWrite(shadow: seq<bv8>, index: u8): (w: VramWrite)
    requires index < |shadow| && index < 128
    ensures w.offset < 64 && w.value == shadow[index]
  {
    if index < 64 then VramWrite(shadow[index], NametableA, index)
    else VramWrite(shadow[index], NametableD, index - 64)
  }

  /** The shadow table and its buffered-update state. */
  class AttributeTable {
    var shadow: array<bv8>
    var dirtyIndex: u8
    var buffered: bool
    /** The one_vram_buffer calls issued so far, oldest first. */
    var sent: seq<VramWrite>

    /** 0xff marks "nothing dirty"; set only ever stores an index below 128. */
    ghost predicate Valid()
      reads this
    {
      shadow.Length == 128 && (dirtyIndex < 128 || dirtyIndex == 0xff)
    }

    /** The globals' static initial values: all zero, not buffered. */
    constructor()
      ensures Valid() && fresh(shadow)
      ensures shadow[..] == seq(128, _ => 0 as bv8)
      ensures dirtyIndex == 0 && !buffered && sent == []
    {
      shadow := new bv8[128](_ => 0);
      dirtyIndex := 0;
      buffered := false;
      sent := [];
    }

    /** send_dirty_to_vram_buffer (attributes.cpp:10-20): nothing for 0xff,
        otherwise the dirty byte's current value. */
    method SendDirtyToVramBuffer()
      requires Valid()
      modifies this`sent
      ensures sent == old(sent) + (if dirtyIndex == 0xff then [] else [DirtyWrite(shadow[..], dirtyIndex)])
    {
      if dirtyIndex == 0xff {
        return;
      }
      sent := sent + [DirtyWrite(shadow[..], dirtyIndex)];
    }

    /** flush_vram_update (attributes.cpp:22-25). */
    method FlushVramUpdate()
      requires Valid()
      modifies this`sent, this`buffered
      ensures !buffered
      ensures sent == old(sent) + (if dirtyIndex == 0xff then [] else [DirtyWrite(shadow[..], dirtyIndex)])
    {
      SendDirtyToVramBuffer();
      buffered := false;
    }

    /** enable_vram_buffer (attributes.cpp:64-67). */
    method EnableVramBuffer()
      requires Valid()
      modifies this`buffered, this`dirtyIndex
      ensures Valid() && buffered && dirtyIndex == 0xff
    {
      buffered := true;
      dirtyIndex := 0xff;
    }

    /** set (attributes.cpp:27-55). The index must land inside the table;
        while buffered, moving to another byte first sends the old dirty
        byte and then makes the new one dirty. */
    method Set(metaX: u8, metaY: u8, attribute: bv8)
      requires Valid() && AttributeIndex(metaX, metaY) < 128
      modifies shadow, this`sent, this`dirtyIndex
      ensures Valid()
      ensures var i := AttributeIndex(metaX, metaY);
        shadow[..] == old(shadow[..])[i := SetField(old(shadow[i]), metaX, metaY, attribute)]
      ensures var i := AttributeIndex(metaX, metaY);
        if buffered && i != old(dirtyIndex) then
          && dirtyIndex == i
          && sent == old(sent) + (if old(dirtyIndex) == 0xff then [] else [DirtyWrite(shadow[..], old(dirtyIndex))])
        else dirtyIndex == old(dirtyIndex) && sent == old(sent)
    {
      var attributeIndex := AttributeIndex(metaX, metaY);
      var mask := FieldMask(metaX, metaY);
      var value := FieldValue(attribute, metaX, metaY);
      var updated := (shadow[attributeIndex] & !mask) | value;
      assert updated == SetField(shadow[attributeIndex], metaX, metaY, attribute);
      shadow[attributeIndex] := updated;
      if buffered && attributeIndex != dirtyIndex {
        SendDirtyToVramBuffer();
        dirtyIndex := attributeIndex;
      }
    }
  }

  /** A byte other than the one just set is sent with the value it had
      before: set never changes it. */
  lemma DirtyWriteUnchanged(shadow: seq<bv8>, i: u8, b: bv8, dirty: u8)
    requires |shadow| == 128 && i < 128 && dirty < 128 && dirty != i
    ensures DirtyWrite(shadow[i := b], dirty) == DirtyWrite(shadow, dirty)
  {
  }
}
