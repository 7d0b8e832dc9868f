/** The NEXXT map-file decoder (tools/nexxt.rb, class MapFile): the
    dimension footer, the row-major tile grid, and the 2x2 metatiles with
    their 2-bit attributes. */
module NexxtMap {
  import opened Common
  import opened Ruby

  /** The width, the height and the bytes left once the footer is popped. */
  datatype Dimensions = Dimensions(width: nat, height: nat, rest: seq<u8>)

  /** extract_dimensions (nexxt.rb:129-142): a 1024-byte nametable is 32x30
      and keeps all its bytes; otherwise the last four bytes are popped as
      width low, width high, height low, height high. */
  function ExtractDimensions(bytes: seq<u8>): Result<Dimensions, Error> {
    if |bytes| == 1024 then Ok(Dimensions(32, 30, bytes))
    else if |bytes| < 4 then Err(InvalidSizes)
    else
      var n := |bytes| - 4;
      Ok(Dimensions(bytes[n + 1] as int * 256 + bytes[n] as int, bytes[n + 3] as int * 256 + bytes[n + 2] as int, bytes[..n]))
  }

  /** The footer NEXXT appends to a map, as the inverse extract_dimensions is
      checked against. */
  function Footer(width: nat, height: nat): seq<u8>
    requires width < 0x1_0000 && height < 0x1_0000
  {
    [width % 256, width / 256, height % 256, height / 256]
  }

  lemma ExtractFooter(body: seq<u8>, width: nat, height: nat)
    requires width < 0x1_0000 && height < 0x1_0000
    requires |body| != 1020
    ensures ExtractDimensions(body + Footer(width, height)) == Ok(Dimensions(width, height, body))
  {
    var b := body + Footer(width, height);
    var n := |body|;
    assert b[n] == width % 256 && b[n + 1] == width / 256;
    assert b[n + 2] == height % 256 && b[n + 3] == height / 256;
    assert b[..n] == body;
  }

  /** extract_dimensions fails exactly when there is no complete footer. */
  lemma ExtractDimensionsFails(bytes: seq<u8>)
    ensures ExtractDimensions(bytes).Err? <==> |bytes| < 4
    ensures ExtractDimensions(bytes).Ok? ==> |ExtractDimensions(bytes).value.rest| == if |bytes| == 1024 then 1024 else |bytes| - 4
  {
  }

  /** `bytes[i]`: nil past the end. */
  function ByteAt(bytes: seq<u8>, i: nat): Option<u8> {
    if i < |bytes| then Some(bytes[i]) else None
  }

  /** organize_in_tiles (nexxt.rb:144-150). */
  function OrganizeInTiles(bytes: seq<u8>, width: nat, height: nat): (tiles: seq<seq<Option<u8>>>)
    ensures |tiles| == height && forall r :: 0 <= r < height ==> |tiles[r]| == width
  {
    seq(height, row requires 0 <= row < height => seq(width, column requires 0 <= column < width => ByteAt(bytes, row * width + column)))
  }

  function Values(cells: seq<Option<u8>>): seq<u8> {
    if cells == [] then [] else (if cells[0].Some? then [cells[0].value] else []) + Values(cells[1..])
  }

  /** Reading the grid row after row gives back the first width * height
      bytes, whenever there are that many. */
  lemma TilesRowMajor(bytes: seq<u8>, width: nat, height: nat)
    requires width * height <= |bytes|
    ensures Values(Flatten(OrganizeInTiles(bytes, width, height))) == bytes[..width * height]
  {
    TilesRowMajorFrom(bytes, width, height, 0);
  }

  lemma {:induction false} TilesRowMajorFrom(bytes: seq<u8>, width: nat, height: nat, r: nat)
    requires width * height <= |bytes| && r <= height
    ensures Values(Flatten(OrganizeInTiles(bytes, width, height)[r..])) == bytes[r * width..width * height]
    decreases height - r
  {
    var tiles := OrganizeInTiles(bytes, width, height);
    if r == height {
      assert tiles[r..] == [];
    } else {
      var lo, mid, hi := r * width, (r + 1) * width, width * height;
      MulSucc(r, width);
      assert mid <= hi by { MulMono(r + 1, height, width); }
      TilesRowMajorFrom(bytes, width, height, r + 1);
      FlattenCons(tiles[r..]);
      assert tiles[r..][1..] == tiles[r + 1..];
      RowValues(bytes, width, height, r);
      ValuesAppend(tiles[r], Flatten(tiles[r + 1..]));
      SliceSplit(bytes, lo, mid, hi);
    }
  }

  lemma FlattenCons<T>(rows: seq<seq<T>>)
    requires rows != []
    ensures Flatten(rows) == rows[0] + Flatten(rows[1..])
  {
  }

  lemma SliceSplit<T>(s: seq<T>, lo: nat, mid: nat, hi: nat)
    requires lo <= mid <= hi <= |s|
    ensures s[lo..hi] == s[lo..mid] + s[mid..hi]
  {
  }

  lemma MulMono(a: nat, b: nat, c: nat)
    requires a <= b
    ensures a * c <= c * b
  {
  }

  lemma RowValues(bytes: seq<u8>, width: nat, height: nat, r: nat)
    requires r < height && (r + 1) * width <= |bytes|
    ensures Values(OrganizeInTiles(bytes, width, height)[r]) == bytes[r * width..(r + 1) * width]
  {
    var row := OrganizeInTiles(bytes, width, height)[r];
    forall c | 0 <= c < width ensures row[c] == Some(bytes[r * width + c]) {
    }
    SomeValues(row, bytes[r * width..(r + 1) * width]);
  }

  lemma {:induction false} SomeValues(cells: seq<Option<u8>>, bs: seq<u8>)
    requires |cells| == |bs| && forall i :: 0 <= i < |cells| ==> cells[i] == Some(bs[i])
    ensures Values(cells) == bs
  {
    if cells != [] {
      SomeValues(cells[1..], bs[1..]);
    }
  }

  lemma {:induction false} ValuesAppend(a: seq<Option<u8>>, b: seq<Option<u8>>)
    ensures Values(a + b) == Values(a) + Values(b)
  {
    if a != [] {
      assert (a + b)[1..] == a[1..] + b;
      ValuesAppend(a[1..], b);
    } else {
      assert a + b == b;
    }
  }

  /** `@raw_bytes[(width * height)..]`: nil when the start is past the end. */
  function AttributesOf(bytes: seq<u8>, width: nat, height: nat): Option<seq<u8>> {
    if width * height <= |bytes| then Some(bytes[width * height..]) else None
  }

  /** The shift that selects a metatile's quadrant in its attribute byte. */
  function QuadrantShift(metaRow: nat, metaColumn: nat): nat {
    (if metaRow % 2 == 1 then 4 else 0) + (if metaColumn % 2 == 1 then 2 else 0)
  }

  function Pow2(k: nat): (p: nat)
    ensures p >= 1
  {
    if k == 0 then 1 else 2 * Pow2(k - 1)
  }

  /** The attribute byte of a metatile: one per 2x2 block of metatiles. */
  function AttributeIndex(width: nat, metaRow: nat, metaColumn: nat): nat {
    (metaRow / 2) * (width / 4) + metaColumn / 2
  }

  /** An attribute: an Integer 0..3, or the `false` that `nil & 3` gives. */
  type Attribute = Option<nat>

  /** extract_attribute (nexxt.rb:152-157). nil attributes have no `[]`; a
      missing byte has no `>>`, but `nil & 3` is false. On a byte, `>> k`
      and `& 3` are division by 2^k and the remainder modulo 4. */
  function ExtractAttribute(attributes: Option<seq<u8>>, width: nat, metaRow: nat, metaColumn: nat): (r: Result<Attribute, Error>)
    ensures r.Ok? && r.value.Some? ==> r.value.value <= 3
  {
    match attributes
    case None => Err(NoMethod)
    case Some(a) =>
      var i := AttributeIndex(width, metaRow, metaColumn);
      if i >= |a| then
        if metaRow % 2 == 1 || metaColumn % 2 == 1 then Err(NoMethod) else Ok(None)
      else Ok(Some(QuadrantField(a[i], metaRow, metaColumn)))
  }

  /** The 2-bit field of an attribute byte: `>> 4` on an odd metatile row,
      `>> 2` on an odd metatile column, then `& 0b11`. */
  function QuadrantField(b: nat, metaRow: nat, metaColumn: nat): (f: nat)
    ensures f <= 3
  {
    var v1 := if metaRow % 2 == 1 then b / 16 else b;
    var v2 := if metaColumn % 2 == 1 then v1 / 4 else v1;
    v2 % 4
  }

  /** The attribute is the 2-bit field of its byte at the quadrant's shift. */
  lemma ExtractAttributeField(a: seq<u8>, width: nat, metaRow: nat, metaColumn: nat)
    requires AttributeIndex(width, metaRow, metaColumn) < |a|
    ensures ExtractAttribute(Some(a), width, metaRow, metaColumn)
         == Ok(Some(a[AttributeIndex(width, metaRow, metaColumn)] / Pow2(QuadrantShift(metaRow, metaColumn)) % 4))
  {
    QuadrantFieldShift(a[AttributeIndex(width, metaRow, metaColumn)], metaRow, metaColumn);
  }

  lemma QuadrantFieldShift(b: nat, metaRow: nat, metaColumn: nat)
    ensures QuadrantField(b, metaRow, metaColumn) == b / Pow2(QuadrantShift(metaRow, metaColumn)) % 4
  {
    assert Pow2(2) == 4 && Pow2(4) == 16 && Pow2(6) == 64;
    assert b / 16 / 4 == b / 64;
  }

  /** The attribute bytes cover every quadrant: no metatile is left with
      `false`, and one can only be missing for a nil attribute byte. */
  lemma ExtractAttributePresent(a: seq<u8>, width: nat, metaRow: nat, metaColumn: nat)
    ensures ExtractAttribute(Some(a), width, metaRow, metaColumn).Ok? && ExtractAttribute(Some(a), width, metaRow, metaColumn).value.None?
        <==> AttributeIndex(width, metaRow, metaColumn) >= |a| && metaRow % 2 == 0 && metaColumn % 2 == 0
  {
  }

  datatype Metatile = Metatile(
    upperLeft: Option<u8>, upperRight: Option<u8>,
    lowerLeft: Option<u8>, lowerRight: Option<u8>,
    attribute: Attribute)

  predicate IsGrid(tiles: seq<seq<Option<u8>>>, width: nat, height: nat) {
    |tiles| == height && forall r :: 0 <= r < height ==> |tiles[r]| == width
  }

  /** extract_metatile_tiles (nexxt.rb:159-170) with extract_attribute. */
  function MetatileAt(tiles: seq<seq<Option<u8>>>, attributes: Option<seq<u8>>, width: nat, height: nat,
                      metaRow: nat, metaColumn: nat): Result<Metatile, Error>
    requires IsGrid(tiles, width, height) && metaRow < height / 2 && metaColumn < width / 2
  {
    var upper, left := 2 * metaRow, 2 * metaColumn;
    var attribute :- ExtractAttribute(attributes, width, metaRow, metaColumn);
    Ok(Metatile(tiles[upper][left], tiles[upper][left + 1], tiles[upper + 1][left], tiles[upper + 1][left + 1], attribute))
  }

  /** Metatiles (metaRow, c) for c from metaColumn to width / 2. */
  function MetatileRow(tiles: seq<seq<Option<u8>>>, attributes: Option<seq<u8>>, width: nat, height: nat,
                       metaRow: nat, metaColumn: nat): Result<seq<Metatile>, Error>
    requires IsGrid(tiles, width, height) && metaRow < height / 2 && metaColumn <= width / 2
    decreases width / 2 - metaColumn
  {
    if metaColumn == width / 2 then Ok([])
    else
      var m :- MetatileAt(tiles, attributes, width, height, metaRow, metaColumn);
      var rest :- MetatileRow(tiles, attributes, width, height, metaRow, metaColumn + 1);
      Ok([m] + rest)
  }

  /** organize_in_metatiles (nexxt.rb:172-182): rows from metaRow on, flattened. */
  function MetatileRows(tiles: seq<seq<Option<u8>>>, attributes: Option<seq<u8>>, width: nat, height: nat,
                        metaRow: nat): Result<seq<Metatile>, Error>
    requires IsGrid(tiles, width, height) && metaRow <= height / 2
    decreases height / 2 - metaRow
  {
    if metaRow == height / 2 then Ok([])
    else
      var row :- MetatileRow(tiles, attributes, width, height, metaRow, 0);
      var rest :- MetatileRows(tiles, attributes, width, height, metaRow + 1);
      Ok(row + rest)
  }

  function OrganizeInMetatiles(tiles: seq<seq<Option<u8>>>, attributes: Option<seq<u8>>, width: nat, height: nat): Result<seq<Metatile>, Error>
    requires IsGrid(tiles, width, height)
  {
    MetatileRows(tiles, attributes, width, height, 0)
  }

  /** A row of metatiles succeeds exactly when each of its metatiles does. */
  lemma {:induction false} MetatileRowOk(tiles: seq<seq<Option<u8>>>, attributes: Option<seq<u8>>, width: nat, height: nat,
                                         metaRow: nat, metaColumn: nat)
    requires IsGrid(tiles, width, height) && metaRow < height / 2 && metaColumn <= width / 2
    ensures MetatileRow(tiles, attributes, width, height, metaRow, metaColumn).Ok?
        <==> (forall c :: metaColumn <= c < width / 2 ==> MetatileAt(tiles, attributes, width, height, metaRow, c).Ok?)
    decreases width / 2 - metaColumn
  {
    if metaColumn < width / 2 {
      MetatileRowOk(tiles, attributes, width, height, metaRow, metaColumn + 1);
    }
  }

  lemma {:induction false} MetatileRowLength(tiles: seq<seq<Option<u8>>>, attributes: Option<seq<u8>>, width: nat, height: nat,
                                             metaRow: nat, metaColumn: nat)
    requires IsGrid(tiles, width, height) && metaRow < height / 2 && metaColumn <= width / 2
    requires MetatileRow(tiles, attributes, width, height, metaRow, metaColumn).Ok?
    ensures |MetatileRow(tiles, attributes, width, height, metaRow, metaColumn).value| == width / 2 - metaColumn
    decreases width / 2 - metaColumn
  {
    if metaColumn < width / 2 {
      MetatileRowLength(tiles, attributes, width, height, metaRow, metaColumn + 1);
    }
  }

  /** The rows from metaRow on all succeed exactly when each of their metatiles does. */
  lemma {:induction false} MetatileRowsOk(tiles: seq<seq<Option<u8>>>, attributes: Option<seq<u8>>, width: nat, height: nat,
                                          metaRow: nat)
    requires IsGrid(tiles, width, height) && metaRow <= height / 2
    ensures MetatileRows(tiles, attributes, width, height, metaRow).Ok?
        <==> (forall mr, c :: metaRow <= mr < height / 2 && 0 <= c < width / 2 ==>
                MetatileAt(tiles, attributes, width, height, mr, c).Ok?)
    decreases height / 2 - metaRow
  {
    if metaRow < height / 2 {
      MetatileRowOk(tiles, attributes, width, height, metaRow, 0);
      MetatileRowsOk(tiles, attributes, width, height, metaRow + 1);
    }
  }

  lemma MulSucc(k: nat, w: nat)
    ensures (k + 1) * w == w + k * w
  {
  }

  /** An index below rows * w is row i / w, column i % w. */
  lemma RowMajorSplit(i: nat, rows: nat, w: nat)
    requires i < rows * w
    ensures w > 0 && i / w < rows && i == (i / w) * w + i % w
  {
    if i / w >= rows { MulMono(rows, i / w, w); }
  }

  /** The same, in the form MetatileRowsAt takes from the first row on. */
  lemma RowMajorCoordinates(i: nat, rows: nat, w: nat) returns (r: nat, c: nat)
    requires i < rows * w
    ensures r < rows && c < w && i == (r - 0) * w + c
  {
    RowMajorSplit(i, rows, w);
    r, c := i / w, i % w;
  }

  lemma {:induction false} MetatileRowsLength(tiles: seq<seq<Option<u8>>>, attributes: Option<seq<u8>>, width: nat, height: nat,
                                              metaRow: nat)
    requires IsGrid(tiles, width, height) && metaRow <= height / 2
    requires MetatileRows(tiles, attributes, width, height, metaRow).Ok?
    ensures |MetatileRows(tiles, attributes, width, height, metaRow).value| == (height / 2 - metaRow) * (width / 2)
    decreases height / 2 - metaRow
  {
    if metaRow < height / 2 {
      MetatileRowLength(tiles, attributes, width, height, metaRow, 0);
      MetatileRowsLength(tiles, attributes, width, height, metaRow + 1);
      MulSucc(height / 2 - metaRow - 1, width / 2);
    }
  }

  lemma {:induction false} MetatileRowAt(tiles: seq<seq<Option<u8>>>, attributes: Option<seq<u8>>, width: nat, height: nat,
                                         metaRow: nat, metaColumn: nat, c: nat)
    requires IsGrid(tiles, width, height) && metaRow < height / 2 && metaColumn <= c < width / 2
    requires MetatileRow(tiles, attributes, width, height, metaRow, metaColumn).Ok?
    ensures MetatileAt(tiles, attributes, width, height, metaRow, c).Ok?
    ensures var r := MetatileRow(tiles, attributes, width, height, metaRow, metaColumn).value;
      c - metaColumn < |r| && r[c - metaColumn] == MetatileAt(tiles, attributes, width, height, metaRow, c).value
    decreases c - metaColumn
  {
    if c > metaColumn {
      MetatileRowAt(tiles, attributes, width, height, metaRow, metaColumn + 1, c);
    }
  }

  lemma ZeroMul(k: nat, w: nat)
    requires k == 0
    ensures k * w == 0
  {
  }

  lemma IndexStep(i: nat, k: nat, w: nat, c: nat)
    requires k > 0 && i == k * w + c
    ensures i >= w && i - w == (k - 1) * w + c
  {
  }

  /** Metatile (mr, c) sits at row-major position i = (mr - metaRow) * (width / 2) + c. */
  lemma {:induction false} MetatileRowsAt(tiles: seq<seq<Option<u8>>>, attributes: Option<seq<u8>>, width: nat, height: nat,
                                          metaRow: nat, mr: nat, c: nat, i: nat)
    requires IsGrid(tiles, width, height) && metaRow <= mr < height / 2 && c < width / 2
    requires MetatileRows(tiles, attributes, width, height, metaRow).Ok?
    requires i == (mr - metaRow) * (width / 2) + c
    ensures MetatileAt(tiles, attributes, width, height, mr, c).Ok?
    ensures var ms := MetatileRows(tiles, attributes, width, height, metaRow).value;
      i < |ms| && ms[i] == MetatileAt(tiles, attributes, width, height, mr, c).value
    decreases mr - metaRow
  {
    var ms := MetatileRows(tiles, attributes, width, height, metaRow).value;
    var row := MetatileRow(tiles, attributes, width, height, metaRow, 0).value;
    var rest := MetatileRows(tiles, attributes, width, height, metaRow + 1).value;
    assert ms == row + rest;
    if mr == metaRow {
      assert i == c by { ZeroMul(mr - metaRow, width / 2); }
      MetatileRowAt(tiles, attributes, width, height, metaRow, 0, c);
      assert ms[c] == row[c];
    } else {
      MetatileRowLength(tiles, attributes, width, height, metaRow, 0);
      IndexStep(i, mr - metaRow, width / 2, c);
      MetatileRowsAt(tiles, attributes, width, height, metaRow + 1, mr, c, i - width / 2);
      assert ms[i] == rest[i - width / 2];
    }
  }

  /** The metatiles are the (height/2) x (width/2) blocks in row-major order;
      metatile (mr, mc) takes tiles (2mr, 2mc), (2mr, 2mc+1), (2mr+1, 2mc),
      (2mr+1, 2mc+1) and the attribute of its quadrant. */
  lemma OrganizeInMetatilesSpec(tiles: seq<seq<Option<u8>>>, attributes: Option<seq<u8>>, width: nat, height: nat,
                                mr: nat, mc: nat)
    requires IsGrid(tiles, width, height)
    requires OrganizeInMetatiles(tiles, attributes, width, height).Ok?
    requires mr < height / 2 && mc < width / 2
    ensures var ms := OrganizeInMetatiles(tiles, attributes, width, height).value;
      && |ms| == (height / 2) * (width / 2)
      && mr * (width / 2) + mc < |ms|
      && ExtractAttribute(attributes, width, mr, mc).Ok?
      && ms[mr * (width / 2) + mc] == Metatile(
           tiles[2 * mr][2 * mc], tiles[2 * mr][2 * mc + 1], tiles[2 * mr + 1][2 * mc], tiles[2 * mr + 1][2 * mc + 1],
           ExtractAttribute(attributes, width, mr, mc).value)
  {
    MetatileRowsLength(tiles, attributes, width, height, 0);
    MetatileRowsAt(tiles, attributes, width, height, 0, mr, mc, mr * (width / 2) + mc);
  }

  datatype MapFile = MapFile(
    width: nat, height: nat,
    tiles: seq<seq<Option<u8>>>,
    attributes: Option<seq<u8>>,
    metatiles: seq<Metatile>)

  /** MapFile.new (nexxt.rb:114-121). */
  function NewMapFile(raw: seq<u8>): Result<MapFile, Error> {
    var dims :- ExtractDimensions(raw);
    var tiles := OrganizeInTiles(dims.rest, dims.width, dims.height);
    var attributes := AttributesOf(dims.rest, dims.width, dims.height);
    var metatiles :- OrganizeInMetatiles(tiles, attributes, dims.width, dims.height);
    Ok(MapFile(dims.width, dims.height, tiles, attributes, metatiles))
  }

  /** A metatile whose attribute byte exists gets a number attribute. */
  lemma MetatilePresent(tiles: seq<seq<Option<u8>>>, a: seq<u8>, width: nat, height: nat, mr: nat, c: nat)
    requires IsGrid(tiles, width, height) && mr < height / 2 && c < width / 2
    requires AttributeIndex(width, mr, c) < |a|
    ensures MetatileAt(tiles, Some(a), width, height, mr, c).Ok?
    ensures MetatileAt(tiles, Some(a), width, height, mr, c).value.attribute.Some?
  {
  }

  predicate AttributesCover(a: seq<u8>, width: nat, height: nat) {
    forall mr, c :: 0 <= mr < height / 2 && 0 <= c < width / 2 ==> AttributeIndex(width, mr, c) < |a|
  }

  lemma AllMetatilesOk(tiles: seq<seq<Option<u8>>>, a: seq<u8>, width: nat, height: nat)
    requires IsGrid(tiles, width, height) && AttributesCover(a, width, height)
    ensures MetatileRows(tiles, Some(a), width, height, 0).Ok?
  {
    forall mr, c | 0 <= mr < height / 2 && 0 <= c < width / 2
      ensures MetatileAt(tiles, Some(a), width, height, mr, c).Ok?
    {
      MetatilePresent(tiles, a, width, height, mr, c);
    }
    MetatileRowsOk(tiles, Some(a), width, height, 0);
  }

  /** The metatile at row-major position i, row mr and column c, has a number attribute. */
  lemma AttributePresentAt(tiles: seq<seq<Option<u8>>>, a: seq<u8>, width: nat, height: nat, mr: nat, c: nat, i: nat)
    requires IsGrid(tiles, width, height) && AttributesCover(a, width, height)
    requires MetatileRows(tiles, Some(a), width, height, 0).Ok?
    requires mr < height / 2 && c < width / 2 && i == (mr - 0) * (width / 2) + c
    ensures var ms := MetatileRows(tiles, Some(a), width, height, 0).value;
      i < |ms| && ms[i].attribute.Some?
  {
    MetatileRowsAt(tiles, Some(a), width, height, 0, mr, c, i);
    MetatilePresent(tiles, a, width, height, mr, c);
  }

  /** With enough attribute bytes for every quadrant, every metatile has a number attribute. */
  lemma AllAttributesPresent(tiles: seq<seq<Option<u8>>>, a: seq<u8>, width: nat, height: nat)
    requires IsGrid(tiles, width, height) && AttributesCover(a, width, height)
    ensures OrganizeInMetatiles(tiles, Some(a), width, height).Ok?
    ensures var ms := OrganizeInMetatiles(tiles, Some(a), width, height).value;
      |ms| == (height / 2) * (width / 2) && forall i :: 0 <= i < |ms| ==> ms[i].attribute.Some?
  {
    AllMetatilesOk(tiles, a, width, height);
    MetatileRowsLength(tiles, Some(a), width, height, 0);
    forall i | 0 <= i < (height / 2) * (width / 2)
      ensures MetatileRows(tiles, Some(a), width, height, 0).value[i].attribute.Some?
    {
      var mr, c := RowMajorCoordinates(i, height / 2, width / 2);
      AttributePresentAt(tiles, a, width, height, mr, c, i);
    }
  }

  /** A 1024-byte nametable: 30 rows of 32 tiles, then the 64 attribute
      bytes, and 15 x 16 metatiles whose attributes are all numbers. */
  lemma NametableLayout(raw: seq<u8>)
    requires |raw| == 1024
    ensures NewMapFile(raw).Ok?
    ensures var m := NewMapFile(raw).value;
      && m.width == 32 && m.height == 30
      && m.attributes == Some(raw[960..])
      && |m.metatiles| == 240
      && forall i :: 0 <= i < 240 ==> m.metatiles[i].attribute.Some?
  {
    var tiles := OrganizeInTiles(raw, 32, 30);
    forall mr, c | 0 <= mr < 15 && 0 <= c < 16 ensures AttributeIndex(32, mr, c) < |raw[960..]| {
      assert AttributeIndex(32, mr, c) == (mr / 2) * 8 + c / 2;
    }
    assert AttributesCover(raw[960..], 32, 30);
    AllAttributesPresent(tiles, raw[960..], 32, 30);
  }
}
