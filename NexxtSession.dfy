/** The NEXXT session-file decoder (tools/nexxt.rb, class Session): flat
    `Key=Value` lines folded into a nested table, the run-length hexadecimal
    data format, and the metasprite slots. */
module NexxtSession {
  import opened Common
  import opened Ruby

  // ---------------------------------------------------------------------
  // Nested table

  /** A Hash key: a String, or nil (the key an empty path stores under). */
  datatype Key = Name(name: string) | Nil

  /** A value of the nested table: a String, or a Hash in insertion order. */
  datatype Node = Leaf(text: string) | Table(fields: seq<(Key, Node)>)

  type Fields = seq<(Key, Node)>
  type Path = seq<string>

  const RootKey: string := "_root"

  /** Hash#dig with String keys: nil as soon as a key is missing, and a
      TypeError when it has to continue through a String. */
  function Dig(t: Fields, p: Path): Result<Option<Node>, Error>
    requires p != []
    decreases |p|
  {
    var v: Option<Node> := Get(t, Name(p[0]));
    if |p| == 1 then Ok(v)
    else match v
      case None => Ok(None)
      case Some(Leaf(_)) => Err(TypeError)
      case Some(Table(f)) => Dig(f, p[1..])
  }

  // ---------------------------------------------------------------------
  // Lines and the flat table

  function IndexOf(s: string, c: char): (i: nat)
    ensures i <= |s| && (i < |s| ==> s[i] == c)
    ensures forall j :: 0 <= j < i ==> s[j] != c
  {
    if s == [] then 0 else if s[0] == c then 0 else 1 + IndexOf(s[1..], c)
  }

  /** A line cut before its newline, without the carriage return of a
      "\r\n" separator. */
  function Chomp(line: string): string {
    if line != [] && line[|line| - 1] == '\r' then line[..|line| - 1] else line
  }

  /** String#lines(chomp: true): chomp removes a separator, "\n" or
      "\r\n", so a last line with no newline after it is kept whole, a
      final '\r' included. */
  function Lines(text: string): (ls: seq<string>)
    ensures forall i :: 0 <= i < |ls| ==> '\n' !in ls[i]
    decreases |text|
  {
    if text == [] then []
    else
      var i := IndexOf(text, '\n');
      if i == |text| then [text]
      else [Chomp(text[..i])] + Lines(text[i + 1..])
  }

  /** A text that does not end in a newline ends in its last line unchanged;
      a "\r\n" before it loses its '\r'. */
  lemma UnterminatedLineKept(line: string, rest: string)
    requires '\n' !in line && line != []
    ensures Lines(line) == [line]
    ensures Lines(line + "\r\n" + rest) == [line] + Lines(rest)
  {
    var t := line + "\r\n" + rest;
    IndexOfAbsent(line, '\n');
    assert t[|line| + 1] == '\n' && t[..|line| + 1] == line + "\r" && t[|line| + 2..] == rest;
    assert forall j :: 0 <= j < |line| + 1 ==> t[j] != '\n';
    IndexOfAt(t, '\n', |line| + 1);
  }

  lemma {:induction false} IndexOfAbsent(s: string, c: char)
    requires c !in s
    ensures IndexOf(s, c) == |s|
  {
    if s != [] {
      IndexOfAbsent(s[1..], c);
    }
  }

  /** IndexOf finds the first occurrence. */
  lemma {:induction false} IndexOfAt(s: string, c: char, k: nat)
    requires k < |s| && s[k] == c && forall j :: 0 <= j < k ==> s[j] != c
    ensures IndexOf(s, c) == k
  {
    if k > 0 {
      IndexOfAt(s[1..], c, k - 1);
    }
  }

  /** The lines that contain '=', each split at its first '=' (split(/=/, 2)). */
  function Entries(ls: seq<string>): (es: seq<(string, string)>)
    ensures forall i :: 0 <= i < |es| ==> '=' !in es[i].0
  {
    if ls == [] then []
    else
      var i := IndexOf(ls[0], '=');
      var rest := Entries(ls[1..]);
      if i == |ls[0]| then rest else [(ls[0][..i], ls[0][i + 1..])] + rest
  }

  /** `flat_table`: the entries as a Hash, a repeated key taking its last value. */
  function FlatTable(text: string): (h: seq<(string, string)>)
    ensures UniqueKeys(h)
  {
    ToH(Entries(Lines(text)))
  }

  /** A session file of one `key=value` line with no newline after it: the
      value is everything after the '=', a final '\r' included. */
  lemma UnterminatedEntry(key: string, value: string)
    requires '=' !in key && '\n' !in key && '\n' !in value
    ensures FlatTable(key + "=" + value) == ToH([(key, value)])
  {
    var line := key + "=" + value;
    assert '\n' !in line by {
      assert forall j :: 0 <= j < |line| ==> line[j] == (if j < |key| then key[j] else if j == |key| then '=' else value[j - |key| - 1]);
    }
    UnterminatedLineKept(line, "");
    assert forall j :: 0 <= j < |key| ==> line[j] != '=';
    IndexOfAt(line, '=', |key|);
    assert line[..|key|] == key && line[|key| + 1..] == value;
    assert Entries([line]) == [(key, value)];
  }

  /** "CHRMain=00\r" at the end of a session file: the value keeps its
      '\r', which decode_hex rejects. */
  lemma UnterminatedReturnRejected()
    ensures FlatTable("CHRMain=00\r") == ToH([("CHRMain", "00\r")])
    ensures Decode("00\r", []) == Err(InvalidString)
  {
    UnterminatedEntry("CHRMain", "00\r");
    assert "CHRMain" + "=" + "00\r" == "CHRMain=00\r";
    TrailingReturnRejected(0, "\r");
    assert HexByte(0) + "\r" == "00\r";
  }

  /** A byte followed by a lone '\r' does not decode. */
  lemma TrailingReturnRejected(b: u8, cr: string)
    requires cr == "\r"
    ensures Decode(HexByte(b) + cr, []) == Err(InvalidString)
  {
    var s := HexByte(b) + cr;
    assert NextToken(s) == Some((Literal(b), 2));
    assert s[2..] == cr;
    assert RestOfLine(cr) == cr;
    assert NextToken(cr) == None;
  }

  // ---------------------------------------------------------------------
  // decompose_key

  /** The character class [A-Z0-9]. */
  predicate UpperOrDigit(c: char) { 'A' <= c <= 'Z' || '0' <= c <= '9' }

  /** A zero-width match of /(?<=[^A-Z0-9])(?=[A-Z0-9])|(?<=CHR)/ at position p
      strictly inside the key (a match at the very end would only give a
      trailing empty field, which String#split drops). */
  predicate IsSplitPoint(key: string, p: nat)
    requires 0 < p < |key|
  {
    (!UpperOrDigit(key[p - 1]) && UpperOrDigit(key[p])) || (p >= 3 && key[p - 3] == 'C' && key[p - 2] == 'H' && key[p - 1] == 'R')
  }

  /** The fields of key[start..], scanning for split points from position i. */
  function Pieces(key: string, start: nat, i: nat): (ps: seq<string>)
    requires start < i <= |key|
    ensures |ps| >= 1
    decreases |key| - i
  {
    if i == |key| then [key[start..]]
    else if IsSplitPoint(key, i) then [key[start..i]] + Pieces(key, i, i + 1)
    else Pieces(key, start, i + 1)
  }

  function RemoveUnderscores(s: string): (r: string)
    ensures '_' !in r
  {
    if s == [] then [] else (if s[0] == '_' then [] else [s[0]]) + RemoveUnderscores(s[1..])
  }

  function MapRemoveUnderscores(ps: seq<string>): (r: seq<string>)
    ensures |r| == |ps| && forall i :: 0 <= i < |ps| ==> r[i] == RemoveUnderscores(ps[i])
  {
    if ps == [] then [] else [RemoveUnderscores(ps[0])] + MapRemoveUnderscores(ps[1..])
  }

  /** decompose_key: split at every split point, then delete underscores. */
  function DecomposeKey(key: string): (path: Path)
    ensures forall i :: 0 <= i < |path| ==> '_' !in path[i]
  {
    if key == [] then [] else MapRemoveUnderscores(Pieces(key, 0, 1))
  }

  function Concat(ps: seq<string>): string {
    if ps == [] then [] else ps[0] + Concat(ps[1..])
  }

  /** The positions, counted from base, where one field ends and the next begins. */
  function Boundaries(ps: seq<string>, base: nat): set<nat>
    decreases |ps|
  {
    if |ps| <= 1 then {} else {base + |ps[0]|} + Boundaries(ps[1..], base + |ps[0]|)
  }

  function SplitPointsFrom(key: string, i: nat): set<nat> {
    set p | 0 < p && i <= p < |key| && IsSplitPoint(key, p)
  }

  lemma {:induction false} PiecesConcat(key: string, start: nat, i: nat)
    requires start < i <= |key|
    ensures Concat(Pieces(key, start, i)) == key[start..]
    ensures forall k :: 0 <= k < |Pieces(key, start, i)| ==> Pieces(key, start, i)[k] != []
    decreases |key| - i
  {
    var ps := Pieces(key, start, i);
    if i == |key| {
      assert Concat(ps) == key[start..] + Concat([]);
    } else if IsSplitPoint(key, i) {
      PiecesConcat(key, i, i + 1);
      var tail := Pieces(key, i, i + 1);
      assert ps == [key[start..i]] + tail;
      assert ps[1..] == tail;
      assert key[start..] == key[start..i] + key[i..];
    } else {
      PiecesConcat(key, start, i + 1);
    }
  }

  lemma {:induction false} PiecesBoundaries(key: string, start: nat, i: nat)
    requires start < i <= |key|
    ensures Boundaries(Pieces(key, start, i), start) == SplitPointsFrom(key, i)
    decreases |key| - i
  {
    var ps := Pieces(key, start, i);
    if i == |key| {
      assert SplitPointsFrom(key, i) == {};
    } else if IsSplitPoint(key, i) {
      PiecesBoundaries(key, i, i + 1);
      var tail := Pieces(key, i, i + 1);
      assert ps == [key[start..i]] + tail;
      assert ps[1..] == tail;
      assert Boundaries(ps, start) == {i} + Boundaries(tail, i);
      assert SplitPointsFrom(key, i) == {i} + SplitPointsFrom(key, i + 1);
    } else {
      PiecesBoundaries(key, start, i + 1);
      assert SplitPointsFrom(key, i) == SplitPointsFrom(key, i + 1);
    }
  }

  /** decompose_key as a characterisation: the key is cut into non-empty
      fields exactly at its split points, and the underscores are removed. */
  lemma DecomposeKeySpec(key: string)
    requires key != []
    ensures exists ps: seq<string> ::
      && Concat(ps) == key
      && (forall k :: 0 <= k < |ps| ==> ps[k] != [])
      && Boundaries(ps, 0) == (set p | 0 < p < |key| && IsSplitPoint(key, p))
      && DecomposeKey(key) == MapRemoveUnderscores(ps)
  {
    PiecesConcat(key, 0, 1);
    PiecesBoundaries(key, 0, 1);
    var ps := Pieces(key, 0, 1);
    assert SplitPointsFrom(key, 1) == (set p | 0 < p < |key| && IsSplitPoint(key, p));
  }

  /** A path segment never contains '_', so it can never name the `_root` slot
      that keeps a demoted scalar. */
  lemma SegmentsAreNotRoot(key: string)
    ensures forall i :: 0 <= i < |DecomposeKey(key)| ==> DecomposeKey(key)[i] != RootKey
  {
    forall i | 0 <= i < |DecomposeKey(key)| ensures DecomposeKey(key)[i] != RootKey {
      assert RootKey[0] == '_';
    }
  }

  lemma {:induction false} RemoveUnderscoresNone(s: string)
    requires '_' !in s
    ensures RemoveUnderscores(s) == s
  {
    if s != [] {
      assert '_' !in s[1..];
      RemoveUnderscoresNone(s[1..]);
    }
  }

  /** Positions without a split point are skipped over. */
  lemma {:induction false} PiecesSkip(key: string, start: nat, i: nat, j: nat)
    requires start < i <= j <= |key|
    requires forall p :: i <= p < j ==> !IsSplitPoint(key, p)
    ensures Pieces(key, start, i) == Pieces(key, start, j)
    decreases j - i
  {
    if i < j {
      PiecesSkip(key, start, i + 1, j);
    }
  }

  lemma {:induction false} MapRemoveUnderscoresNone(ps: seq<string>)
    requires forall i :: 0 <= i < |ps| ==> '_' !in ps[i]
    ensures MapRemoveUnderscores(ps) == ps
  {
    if ps != [] {
      RemoveUnderscoresNone(ps[0]);
      MapRemoveUnderscoresNone(ps[1..]);
    }
  }

  lemma PiecesChr()
    ensures Pieces("CHRMain", 0, 1) == ["CHR", "Main"]
  {
    var k := "CHRMain";
    assert !IsSplitPoint(k, 1) && !IsSplitPoint(k, 2) && IsSplitPoint(k, 3);
    assert !IsSplitPoint(k, 4) && !IsSplitPoint(k, 5) && !IsSplitPoint(k, 6);
    PiecesSkip(k, 0, 1, 3);
    PiecesSkip(k, 3, 4, 7);
    assert Pieces(k, 0, 1) == [k[..3]] + Pieces(k, 3, 4) == [k[..3], k[3..]];
    assert k[..3] == "CHR" && k[3..] == "Main";
  }

  lemma PiecesChrLower()
    ensures Pieces("ChrMain", 0, 1) == ["Chr", "Main"]
  {
    var k := "ChrMain";
    assert !IsSplitPoint(k, 1) && !IsSplitPoint(k, 2) && IsSplitPoint(k, 3);
    assert !IsSplitPoint(k, 4) && !IsSplitPoint(k, 5) && !IsSplitPoint(k, 6);
    PiecesSkip(k, 0, 1, 3);
    PiecesSkip(k, 3, 4, 7);
    assert Pieces(k, 0, 1) == [k[..3]] + Pieces(k, 3, 4) == [k[..3], k[3..]];
    assert k[..3] == "Chr" && k[3..] == "Main";
  }

  const GridKey: string := "VarSpriteGridX"

  lemma PiecesGrid()
    ensures Pieces(GridKey, 0, 1) == ["Var", "Sprite", "Grid", "X"]
  {
    var k := GridKey;
    PiecesGridVar();
    PiecesGridSprite();
    PiecesGridGrid();
    assert Pieces(k, 13, 14) == [k[13..]];
    assert k[..3] == "Var" && k[3..9] == "Sprite" && k[9..13] == "Grid" && k[13..] == "X";
  }

  lemma PiecesGridVar()
    ensures Pieces(GridKey, 0, 1) == [GridKey[..3]] + Pieces(GridKey, 3, 4)
  {
    var k := GridKey;
    assert !IsSplitPoint(k, 1) && !IsSplitPoint(k, 2) && IsSplitPoint(k, 3);
    PiecesSkip(k, 0, 1, 3);
  }

  lemma PiecesGridSprite()
    ensures Pieces(GridKey, 3, 4) == [GridKey[3..9]] + Pieces(GridKey, 9, 10)
  {
    var k := GridKey;
    assert !IsSplitPoint(k, 4) && !IsSplitPoint(k, 5) && !IsSplitPoint(k, 6);
    assert !IsSplitPoint(k, 7) && !IsSplitPoint(k, 8) && IsSplitPoint(k, 9);
    PiecesSkip(k, 3, 4, 9);
  }

  lemma PiecesGridGrid()
    ensures Pieces(GridKey, 9, 10) == [GridKey[9..13]] + Pieces(GridKey, 13, 14)
  {
    var k := GridKey;
    assert !IsSplitPoint(k, 10) && !IsSplitPoint(k, 11) && !IsSplitPoint(k, 12);
    assert IsSplitPoint(k, 13);
    PiecesSkip(k, 9, 10, 13);
  }

  /** decompose_key of a key whose fields have no underscore is its fields. */
  lemma DecomposeKeyFromPieces(key: string, ps: seq<string>)
    requires key != [] && Pieces(key, 0, 1) == ps
    requires forall i :: 0 <= i < |ps| ==> '_' !in ps[i]
    ensures DecomposeKey(key) == ps
  {
    MapRemoveUnderscoresNone(ps);
  }

  /** "CHR" is split off only in capitals. */
  lemma DecomposeKeyChrExamples()
    ensures DecomposeKey("CHRMain") == ["CHR", "Main"]
    ensures DecomposeKey("ChrMain") == ["Chr", "Main"]
  {
    PiecesChr();
    assert '_' !in "CHR" && '_' !in "Main" && '_' !in "Chr";
    DecomposeKeyFromPieces("CHRMain", ["CHR", "Main"]);
    PiecesChrLower();
    DecomposeKeyFromPieces("ChrMain", ["Chr", "Main"]);
  }

  /** Every capital after a lower-case letter starts a new segment. */
  lemma DecomposeKeyGridExample()
    ensures DecomposeKey(GridKey) == ["Var", "Sprite", "Grid", "X"]
  {
    PiecesGrid();
    assert '_' !in "Var" && '_' !in "Sprite" && '_' !in "Grid" && '_' !in "X";
    DecomposeKeyFromPieces(GridKey, ["Var", "Sprite", "Grid", "X"]);
  }

  // ---------------------------------------------------------------------
  // parse_table

  /** What the reduce in parse_table walks into under one segment: a missing
      key becomes {} and a String is demoted to {'_root' => string}. */
  function ChildFields(v: Option<Node>): Fields {
    match v
    case None => []
    case Some(Leaf(s)) => [(Name(RootKey), Leaf(s))]
    case Some(Table(f)) => f
  }

  /** The reduce over the whole path (nexxt.rb:39-42): every segment, the last
      one included, is made to hold a Hash. */
  function Reduce(t: Fields, p: Path): Fields
    decreases |p|
  {
    if p == [] then t
    else Put(t, Name(p[0]), Table(Reduce(ChildFields(Get(t, Name(p[0]))), p[1..])))
  }

  /** `table.dig(*prefix)[k] = v`, defined when the prefix leads through Hashes. */
  function StoreAt(t: Fields, prefix: Path, k: Key, v: Node): Option<Fields>
    decreases |prefix|
  {
    if prefix == [] then Some(Put(t, k, v))
    else
      var child: Option<Node> := Get(t, Name(prefix[0]));
      match child
      case Some(Table(f)) =>
        var f' :- StoreAt(f, prefix[1..], k, v);
        Some(Put(t, Name(prefix[0]), Table(f')))
      case _ => None
  }

  /** One entry stored in a single descent: each segment but the last becomes
      a Hash (a String found there is demoted under '_root'), and the last
      segment takes the value, replacing whatever it held. An empty path
      stores under nil. */
  function Insert(t: Fields, p: Path, value: string): Fields
    decreases |p|
  {
    if p == [] then Put(t, Nil, Leaf(value))
    else if |p| == 1 then Put(t, Name(p[0]), Leaf(value))
    else Put(t, Name(p[0]), Table(Insert(ChildFields(Get(t, Name(p[0]))), p[1..], value)))
  }

  /** The table parse_table builds: the entries stored in order. */
  function ParseSpec(flat: seq<(string, string)>): Fields {
    if flat == [] then []
    else
      var last := flat[|flat| - 1];
      Insert(ParseSpec(flat[..|flat| - 1]), DecomposeKey(last.0), last.1)
  }

  /** The reduce followed by the assignment through dig is the single descent. */
  lemma {:induction false} ReduceThenStore(t: Fields, p: Path, value: string)
    requires p != []
    ensures StoreAt(Reduce(t, p), p[..|p| - 1], Name(p[|p| - 1]), Leaf(value)) == Some(Insert(t, p, value))
    decreases |p|
  {
    var a := Name(p[0]);
    var c := ChildFields(Get(t, a));
    if |p| == 1 {
      PutPut(t, a, Table(Reduce(c, [])), Leaf(value));
    } else {
      var r := Reduce(c, p[1..]);
      GetPut(t, a, Table(r), a);
      ReduceThenStore(c, p[1..], value);
      assert p[..|p| - 1][1..] == p[1..][..|p[1..]| - 1];
      assert p[1..][|p[1..]| - 1] == p[|p| - 1];
      PutPut(t, a, Table(r), Table(Insert(c, p[1..], value)));
    }
  }

  /** The body of parse_table's loop for one entry: the reduce, then the
      assignment through dig, or a plain store for a path of one segment. */
  method StoreEntry(table: Fields, key: string, value: string) returns (t: Fields)
    ensures t == Insert(table, DecomposeKey(key), value)
  {
    var path := DecomposeKey(key);
    t := Reduce(table, path);
    if |path| > 1 {
      ReduceThenStore(table, path, value);
      var stored := StoreAt(t, path[..|path| - 1], Name(path[|path| - 1]), Leaf(value));
      t := stored.value;
    } else if |path| == 1 {
      var c := ChildFields(Get(table, Name(path[0])));
      assert Reduce(c, path[1..]) == c;
      assert t == Put(table, Name(path[0]), Table(c));
      PutPut(table, Name(path[0]), Table(c), Leaf(value));
      t := Put(t, Name(path[0]), Leaf(value));
      assert t == Insert(table, path, value);
    } else {
      t := Put(t, Nil, Leaf(value));
      assert t == Insert(table, path, value);
    }
  }

  /** parse_table (nexxt.rb:35-52): the entries stored one after the other. */
  method ParseTable(flat: seq<(string, string)>) returns (table: Fields)
    ensures table == ParseSpec(flat)
  {
    table := [];
    var i := 0;
    while i < |flat|
      invariant 0 <= i <= |flat|
      invariant table == ParseSpec(flat[..i])
    {
      table := StoreEntry(table, flat[i].0, flat[i].1);
      assert flat[..i + 1][..i] == flat[..i];
      i := i + 1;
    }
    assert flat[..i] == flat;
  }

  lemma DecomposeFooBar()
    ensures DecomposeKey("Foo") == ["Foo"]
    ensures DecomposeKey("FooBar") == ["Foo", "Bar"]
  {
    PiecesFoo();
    PiecesFooBar();
    assert '_' !in "Foo" && '_' !in "Bar";
    DecomposeKeyFromPieces("Foo", ["Foo"]);
    DecomposeKeyFromPieces("FooBar", ["Foo", "Bar"]);
  }

  lemma PiecesFoo()
    ensures Pieces("Foo", 0, 1) == ["Foo"]
  {
    var k := "Foo";
    assert !IsSplitPoint(k, 1) && !IsSplitPoint(k, 2);
    PiecesSkip(k, 0, 1, 3);
    assert Pieces(k, 0, 1) == [k[0..]];
  }

  lemma PiecesFooBar()
    ensures Pieces("FooBar", 0, 1) == ["Foo", "Bar"]
  {
    var k := "FooBar";
    assert !IsSplitPoint(k, 1) && !IsSplitPoint(k, 2) && IsSplitPoint(k, 3);
    assert !IsSplitPoint(k, 4) && !IsSplitPoint(k, 5);
    PiecesSkip(k, 0, 1, 3);
    PiecesSkip(k, 3, 4, 6);
    assert Pieces(k, 0, 1) == [k[..3]] + Pieces(k, 3, 4) == [k[..3], k[3..]];
    assert k[..3] == "Foo" && k[3..] == "Bar";
  }

  /** A scalar on a strict prefix of a later key is kept under '_root'. */
  lemma ParseDemotionExample()
    ensures ParseSpec([("Foo", "1"), ("FooBar", "2")])
         == [(Name("Foo"), Table([(Name(RootKey), Leaf("1")), (Name("Bar"), Leaf("2"))]))]
  {
    DecomposeFooBar();
    var flat := [("Foo", "1"), ("FooBar", "2")];
    var t1: Fields := [(Name("Foo"), Leaf("1"))];
    var c: Fields := [(Name(RootKey), Leaf("1"))];
    var inner: Fields := [(Name(RootKey), Leaf("1")), (Name("Bar"), Leaf("2"))];
    calc {
      ParseSpec(flat[..1]);
      { assert flat[..1][..0] == []; }
      Insert([], ["Foo"], "1");
      t1;
    }
    assert Get(t1, Name("Foo")) == Some(Leaf("1"));
    calc {
      Insert(c, ["Bar"], "2");
      Put(c, Name("Bar"), Leaf("2"));
      { assert RootKey[0] != "Bar"[0]; assert c[1..] == []; }
      [c[0]] + Put([], Name("Bar"), Leaf("2"));
      inner;
    }
    calc {
      ParseSpec(flat);
      { assert flat[..|flat| - 1] == flat[..1]; }
      Insert(t1, ["Foo", "Bar"], "2");
      { assert ["Foo", "Bar"][1..] == ["Bar"]; }
      Put(t1, Name("Foo"), Table(Insert(c, ["Bar"], "2")));
      [(Name("Foo"), Table(inner))];
    }
  }

  /** After an entry is stored, digging along its path finds its value. */
  lemma {:induction false} DigInsert(t: Fields, p: Path, value: string)
    requires p != []
    ensures Dig(Insert(t, p, value), p) == Ok(Some(Leaf(value)))
    decreases |p|
  {
    var a := Name(p[0]);
    if |p| == 1 {
      GetPut(t, a, Leaf(value), a);
    } else {
      var c := ChildFields(Get(t, a));
      GetPut(t, a, Table(Insert(c, p[1..], value)), a);
      DigInsert(c, p[1..], value);
    }
  }

  /** A String found on a strict prefix q of the new path is kept under '_root'
      in the Hash that replaces it. */
  lemma {:induction false} InsertDemotes(t: Fields, p: Path, value: string, q: Path, s: string)
    requires q != [] && |q| < |p| && p[..|q|] == q
    requires forall i :: 0 <= i < |p| ==> p[i] != RootKey
    requires Dig(t, q) == Ok(Some(Leaf(s)))
    ensures Dig(Insert(t, p, value), q + [RootKey]) == Ok(Some(Leaf(s)))
    decreases |q|
  {
    var a := Name(p[0]);
    var c := ChildFields(Get(t, a));
    var inner := Insert(c, p[1..], value);
    GetPut(t, a, Table(inner), a);
    assert q[0] == p[0];
    if |q| == 1 {
      assert Get(t, a) == Some(Leaf(s));
      assert (q + [RootKey])[1..] == [RootKey];
      if |p| == 2 {
        GetPut(c, Name(p[1]), Leaf(value), Name(RootKey));
      } else {
        GetPut(c, Name(p[1]), Table(Insert(ChildFields(Get(c, Name(p[1]))), p[2..], value)), Name(RootKey));
      }
    } else {
      var child: Option<Node> := Get(t, a);
      assert child.Some? && child.value.Table?;
      assert (q + [RootKey])[1..] == q[1..] + [RootKey];
      assert p[1..][..|q[1..]|] == q[1..];
      InsertDemotes(c, p[1..], value, q[1..], s);
    }
  }

  /** A later key equal to an existing prefix replaces that whole subtree: the
      path now ends at a String, so digging deeper fails. */
  lemma InsertOverwrites(t: Fields, p: Path, value: string, q: Path)
    requires p != [] && q != []
    ensures Dig(Insert(t, p, value), p + q) == Err(TypeError)
  {
    DigInsert(t, p, value);
    DigThroughLeaf(Insert(t, p, value), p, value, q);
  }

  lemma {:induction false} DigThroughLeaf(t: Fields, p: Path, value: string, q: Path)
    requires p != [] && q != []
    requires Dig(t, p) == Ok(Some(Leaf(value)))
    ensures Dig(t, p + q) == Err(TypeError)
    decreases |p|
  {
    assert (p + q)[0] == p[0];
    if |p| > 1 {
      var child: Option<Node> := Get(t, Name(p[0]));
      assert (p + q)[1..] == p[1..] + q;
      DigThroughLeaf(child.value.fields, p[1..], value, q);
    }
  }

  /** Entries under a different first segment are untouched. */
  lemma InsertFrame(t: Fields, p: Path, value: string, x: Key)
    requires p != [] ==> x != Name(p[0])
    requires p == [] ==> x != Nil
    ensures Get(Insert(t, p, value), x) == Get(t, x)
  {
    if p == [] {
      GetPut(t, Nil, Leaf(value), x);
    } else if |p| == 1 {
      GetPut(t, Name(p[0]), Leaf(value), x);
    } else {
      GetPut(t, Name(p[0]), Table(Insert(ChildFields(Get(t, Name(p[0]))), p[1..], value)), x);
    }
  }

  // ---------------------------------------------------------------------
  // decode_hex

  /** The character class [0-9a-f]. */
  predicate IsHex(c: char) { '0' <= c <= '9' || 'a' <= c <= 'f' }

  function HexDigit(c: char): (d: nat)
    requires IsHex(c)
    ensures d < 16
  {
    if c <= '9' then c as int - '0' as int else c as int - 'a' as int + 10
  }

  /** The length of the run of hexadecimal digits at the start of s. */
  function HexRun(s: string): (n: nat)
    ensures n <= |s| && (forall i :: 0 <= i < n ==> IsHex(s[i])) && (n < |s| ==> !IsHex(s[n]))
  {
    if s != [] && IsHex(s[0]) then 1 + HexRun(s[1..]) else 0
  }

  /** String#to_i(16) of a string of hexadecimal digits. */
  function HexValue(s: string): nat
    requires forall i :: 0 <= i < |s| ==> IsHex(s[i])
  {
    if s == [] then 0 else HexValue(s[..|s| - 1]) * 16 + HexDigit(s[|s| - 1])
  }

  /** A literal byte `hh`, or a run `[n]` that repeats the previous value. */
  datatype Token = Literal(byte: u8) | Run(count: nat)

  /** The match of /\A(?:\[(?<rle>[0-9a-f]+)\]|(?<literal>[0-9a-f]{2}))/:
      the token and the number of characters it spans. */
  function NextToken(s: string): (r: Option<(Token, nat)>)
    ensures r.Some? ==> 0 < r.value.1 <= |s|
  {
    if s != [] && s[0] == '[' then
      var n := HexRun(s[1..]);
      if n > 0 && 1 + n < |s| && s[1 + n] == ']' then Some((Run(HexValue(s[1..1 + n])), n + 2))
      else None
    else if |s| >= 2 && IsHex(s[0]) && IsHex(s[1]) then
      Some((Literal(HexDigit(s[0]) * 16 + HexDigit(s[1])), 2))
    else None
  }

  /** The `(?<rest>.*)` group: '.' does not match a newline, so the rest
      stops at the first one. */
  function RestOfLine(s: string): (r: string)
    ensures '\n' !in r && |r| <= |s|
  {
    s[..IndexOf(s, '\n')]
  }

  /** `values[-1] || 0`. */
  function Last(values: seq<u8>): u8 {
    if values == [] then 0 else values[|values| - 1]
  }

  function Repeat(b: u8, n: nat): (r: seq<u8>)
    ensures |r| == n && forall i :: 0 <= i < n ==> r[i] == b
  {
    if n == 0 then [] else [b] + Repeat(b, n - 1)
  }

  /** One token applied to the values decoded so far: a literal appends its
      byte, `[n]` appends n - 1 copies of the last value; `[0]` multiplies an
      array by -1, which raises. */
  function Apply(values: seq<u8>, tok: Token): Result<seq<u8>, Error> {
    match tok
    case Literal(b) => Ok(values + [b])
    case Run(n) => if n == 0 then Err(NegativeArgument) else Ok(values + Repeat(Last(values), n - 1))
  }

  /** The decoding loop of decode_hex as a recursive definition. */
  function Decode(s: string, values: seq<u8>): Result<seq<u8>, Error>
    decreases |s|
  {
    if s == [] then Ok(values)
    else match NextToken(s)
      case None => Err(InvalidString)
      case Some((tok, k)) =>
        var v :- Apply(values, tok);
        Decode(RestOfLine(s[k..]), v)
  }

  /** What decode_hex returns for what dig found: nil for nil, an empty String
      or an empty Hash (`empty?`); a non-empty Hash has no `match`. */
  function DecodeHexSpec(x: Option<Node>): Result<Option<seq<u8>>, Error> {
    match x
    case None => Ok(None)
    case Some(Leaf(s)) =>
      if s == [] then Ok(None)
      else
        var v :- Decode(s, []);
        Ok(Some(v))
    case Some(Table(f)) => if f == [] then Ok(None) else Err(NoMethod)
  }

  /** decode_hex (nexxt.rb:59-75): consume the string token by token. */
  method DecodeHex(x: Option<Node>) returns (r: Result<Option<seq<u8>>, Error>)
    ensures r == DecodeHexSpec(x)
    ensures (x == None || x == Some(Leaf(""))) ==> r == Ok(None)
  {
    match x {
      case None => return Ok(None);
      case Some(Table(f)) =>
        if f == [] { return Ok(None); }
        return Err(NoMethod);
      case Some(Leaf(s)) =>
        if s == [] { return Ok(None); }
        var str := s;
        var values: seq<u8> := [];
        while str != []
          invariant Decode(str, values) == Decode(s, [])
          decreases |str|
        {
          var m := NextToken(str);
          if m.None? {
            return Err(InvalidString);
          }
          var tok, k := m.value.0, m.value.1;
          match tok {
            case Run(n) =>
              if n == 0 {
                return Err(NegativeArgument);
              }
              values := values + Repeat(Last(values), n - 1);
            case Literal(b) =>
              values := values + [b];
          }
          str := RestOfLine(str[k..]);
        }
        return Ok(Some(values));
    }
  }

  /** The token sequence of a string that lexes completely. */
  function Tokens(s: string): Option<seq<Token>>
    decreases |s|
  {
    if s == [] then Some([])
    else match NextToken(s)
      case None => None
      case Some((t, k)) =>
        var ts :- Tokens(RestOfLine(s[k..]));
        Some([t] + ts)
  }

  /** How many values the tokens add: one per literal, n - 1 per `[n]`. */
  function Growth(ts: seq<Token>): int {
    if ts == [] then 0
    else (match ts[0] case Literal(_) => 1 case Run(n) => n - 1) + Growth(ts[1..])
  }

  /** The decoded length is the number of literals plus the sum of n - 1 over
      the runs, and a string that decodes lexes completely. */
  lemma {:induction false} DecodeLength(s: string, values: seq<u8>)
    requires Decode(s, values).Ok?
    ensures Tokens(s).Some?
    ensures |Decode(s, values).value| == |values| + Growth(Tokens(s).value)
    decreases |s|
  {
    if s != [] {
      var t, k := NextToken(s).value.0, NextToken(s).value.1;
      var v := Apply(values, t).value;
      DecodeLength(RestOfLine(s[k..]), v);
      var ts := Tokens(RestOfLine(s[k..])).value;
      assert Tokens(s).value == [t] + ts;
      assert ([t] + ts)[1..] == ts;
    }
  }

  /** Every decoded value was already there or comes from the string: a run
      never invents a value, it repeats the last one (or 0 at the start). */
  lemma {:induction false} DecodeExtends(s: string, values: seq<u8>)
    requires Decode(s, values).Ok?
    ensures |Decode(s, values).value| >= |values|
    ensures Decode(s, values).value[..|values|] == values
    decreases |s|
  {
    if s != [] {
      var t, k := NextToken(s).value.0, NextToken(s).value.1;
      var v := Apply(values, t).value;
      DecodeExtends(RestOfLine(s[k..]), v);
      assert v[..|values|] == values;
    }
  }

  /** A run repeats the last literal. */
  lemma DecodeRunExample()
    ensures Decode("0102[3]", []) == Ok([1, 2, 2, 2])
  {
    var v: seq<u8> := [1, 2, 2, 2];
    var w := v[1..];
    assert RunLength(v) == 1;
    assert RunLength(w) == 3 by {
      assert w[1..][1..] == [2];
    }
    EncodeHexCons(v);
    EncodeHexCons(w);
    assert w[3..] == [];
    assert HexByte(1) == "01" && HexByte(2) == "02" && ToHex(3) == "3";
    assert EncodeHex(v) == "0102[3]";
    DecodeEncode(v, []);
    assert [] + v == v;
  }

  /** A run before any literal repeats 0. */
  lemma DecodeLeadingRunExample()
    ensures Decode("[5]", []) == Ok([0, 0, 0, 0])
  {
    calc {
      Decode("[5]", []);
      { assert "[5]" == "[" + ToHex(5) + "]" + ""; }
      Decode("[" + ToHex(5) + "]" + "", []);
      { DecodeRunStep(5, "", []); assert Last([]) == 0; assert [] + Repeat(0, 4) == Repeat(0, 4); }
      Decode("", Repeat(0, 4));
      { assert Repeat(0, 4) == [0, 0, 0, 0]; }
      Ok([0, 0, 0, 0]);
    }
  }

  lemma DecodeErrorExamples()
    ensures Decode("[0]", []) == Err(NegativeArgument)
    ensures Decode("0g", []) == Err(InvalidString)
    ensures Decode("ff[", []) == Err(InvalidString)
  {
    assert HexRun("0]") == 1;
    assert NextToken("[0]") == Some((Run(0), 3));
    assert NextToken("ff[") == Some((Literal(255), 2));
    assert RestOfLine("ff["[2..]) == "[";
    assert HexRun("") == 0;
  }

  // An encoder in the same format, as the inverse decode_hex is checked against.

  function HexChar(d: nat): (c: char)
    requires d < 16
    ensures IsHex(c) && HexDigit(c) == d
  {
    if d < 10 then ('0' as int + d) as char else ('a' as int + d - 10) as char
  }

  /** A byte as two lower-case hexadecimal digits. */
  function HexByte(b: u8): string {
    [HexChar(b / 16), HexChar(b % 16)]
  }

  /** A positive count in lower-case hexadecimal, without leading zeros. */
  function ToHex(n: nat): (s: string)
    ensures |s| >= 1 && forall i :: 0 <= i < |s| ==> IsHex(s[i])
    decreases n
  {
    if n < 16 then [HexChar(n)] else ToHex(n / 16) + [HexChar(n % 16)]
  }

  lemma {:induction false} HexValueToHex(n: nat)
    ensures HexValue(ToHex(n)) == n
    decreases n
  {
    if n >= 16 {
      HexValueToHex(n / 16);
      var s := ToHex(n);
      assert s[..|s| - 1] == ToHex(n / 16);
    }
  }

  lemma {:induction false} HexRunPrefix(hx: string, rest: string)
    requires forall i :: 0 <= i < |hx| ==> IsHex(hx[i])
    requires rest != [] && !IsHex(rest[0])
    ensures HexRun(hx + rest) == |hx|
  {
    if hx != [] {
      assert (hx + rest)[1..] == hx[1..] + rest;
      HexRunPrefix(hx[1..], rest);
    } else {
      assert hx + rest == rest;
    }
  }

  /** The length of the run of equal values at the start of v. */
  function RunLength(v: seq<u8>): (k: nat)
    requires v != []
    ensures 1 <= k <= |v| && forall i :: 0 <= i < k ==> v[i] == v[0]
  {
    if |v| == 1 || v[1] != v[0] then 1 else 1 + RunLength(v[1..])
  }

  /** Each run of equal bytes as the byte, followed by `[n]` with its length
      when it is longer than one. */
  function EncodeHex(v: seq<u8>): (s: string)
    ensures forall i :: 0 <= i < |s| ==> s[i] != '\n'
    decreases |v|
  {
    if v == [] then []
    else
      var k := RunLength(v);
      HexByte(v[0]) + (if k == 1 then [] else "[" + ToHex(k) + "]") + EncodeHex(v[k..])
  }

  lemma RestOfLineNoNewline(s: string)
    requires forall i :: 0 <= i < |s| ==> s[i] != '\n'
    ensures RestOfLine(s) == s
  {
  }

  lemma DecodeLiteralStep(b: u8, rest: string, values: seq<u8>)
    requires forall i :: 0 <= i < |rest| ==> rest[i] != '\n'
    ensures Decode(HexByte(b) + rest, values) == Decode(rest, values + [b])
  {
    var s := HexByte(b) + rest;
    assert NextToken(s) == Some((Literal(b), 2));
    assert s[2..] == rest;
    RestOfLineNoNewline(rest);
  }

  lemma {:induction false} DecodeRunStep(k: nat, rest: string, values: seq<u8>)
    requires k >= 1 && RestOfLine(rest) == rest
    ensures Decode("[" + ToHex(k) + "]" + rest, values) == Decode(rest, values + Repeat(Last(values), k - 1))
  {
    var s := "[" + ToHex(k) + "]" + rest;
    var v := values + Repeat(Last(values), k - 1);
    NextTokenRun(k, rest);
    assert Apply(values, Run(k)) == Ok(v);
    DecodeToken(s, values, Run(k), |ToHex(k)| + 2, rest, v);
  }

  /** `[n]` in hexadecimal lexes as the run of n, and the rest follows it. */
  lemma NextTokenRun(k: nat, rest: string)
    ensures NextToken("[" + ToHex(k) + "]" + rest) == Some((Run(k), |ToHex(k)| + 2))
    ensures ("[" + ToHex(k) + "]" + rest)[|ToHex(k)| + 2..] == rest
  {
    var hx := ToHex(k);
    var r := "[" + hx + "]" + rest;
    assert r == "[" + (hx + ("]" + rest));
    assert r[1..] == hx + ("]" + rest);
    HexRunPrefix(hx, "]" + rest);
    assert r[1..1 + |hx|] == hx;
    HexValueToHex(k);
  }

  /** One step of the decoding loop. */
  lemma DecodeToken(s: string, values: seq<u8>, tok: Token, n: nat, rest: string, v: seq<u8>)
    requires s != [] && NextToken(s) == Some((tok, n)) && RestOfLine(s[n..]) == rest
    requires Apply(values, tok) == Ok(v)
    ensures Decode(s, values) == Decode(rest, v)
  {
  }

  lemma {:induction false} DecodeEncode(v: seq<u8>, values: seq<u8>)
    ensures Decode(EncodeHex(v), values) == Ok(values + v)
    decreases |v|
  {
    if v == [] {
      assert values + v == values;
    } else {
      var k := RunLength(v);
      DecodeEncode(v[k..], values + v[..k]);
      if k == 1 {
        DecodeEncodeLiteral(v, values);
      } else {
        DecodeEncodeRun(v, values);
      }
    }
  }

  lemma EncodeHexCons(v: seq<u8>)
    requires v != []
    ensures var k := RunLength(v);
      EncodeHex(v) == HexByte(v[0]) + (if k == 1 then [] else "[" + ToHex(k) + "]") + EncodeHex(v[k..])
  {
  }

  lemma SplitAppend<T>(values: seq<T>, v: seq<T>, k: nat)
    requires k <= |v|
    ensures values + v[..k] + v[k..] == values + v
  {
    assert v[..k] + v[k..] == v;
  }

  lemma ConcatAssoc<T>(a: seq<T>, b: seq<T>, c: seq<T>)
    ensures (a + b) + c == a + (b + c)
  {
  }

  /** A lone byte is written as its two digits. */
  lemma DecodeEncodeLiteral(v: seq<u8>, values: seq<u8>)
    requires v != [] && RunLength(v) == 1
    requires Decode(EncodeHex(v[1..]), values + v[..1]) == Ok(values + v[..1] + v[1..])
    ensures Decode(EncodeHex(v), values) == Ok(values + v)
  {
    var b, tail := v[0], EncodeHex(v[1..]);
    assert EncodeHex(v) == HexByte(b) + tail by {
      EncodeHexCons(v);
      assert HexByte(b) + [] == HexByte(b);
    }
    assert Decode(HexByte(b) + tail, values) == Decode(tail, values + [b]) by {
      DecodeLiteralStep(b, tail, values);
    }
    assert values + [b] == values + v[..1];
    SplitAppend(values, v, 1);
  }

  /** A run of k > 1 equal bytes is written as the byte and `[k]`. */
  lemma DecodeEncodeRun(v: seq<u8>, values: seq<u8>)
    requires v != [] && RunLength(v) > 1
    requires var k := RunLength(v);
      Decode(EncodeHex(v[k..]), values + v[..k]) == Ok(values + v[..k] + v[k..])
    ensures Decode(EncodeHex(v), values) == Ok(values + v)
  {
    var b, k := v[0], RunLength(v);
    var tail := EncodeHex(v[k..]);
    var run := "[" + ToHex(k) + "]" + tail;
    assert EncodeHex(v) == HexByte(b) + run by {
      EncodeHexCons(v);
      ConcatAssoc(HexByte(b), "[" + ToHex(k) + "]", tail);
    }
    assert Decode(HexByte(b) + run, values) == Decode(run, values + [b]) by {
      DecodeLiteralStep(b, run, values);
    }
    assert Decode(run, values + [b]) == Decode(tail, values + v[..k]) by {
      RestOfLineNoNewline(tail);
      DecodeRunStep(k, tail, values + [b]);
      RunPrefix(v, values);
    }
    SplitAppend(values, v, k);
  }

  lemma RunPrefix(v: seq<u8>, values: seq<u8>)
    requires v != []
    ensures values + [v[0]] + Repeat(Last(values + [v[0]]), RunLength(v) - 1) == values + v[..RunLength(v)]
  {
    var k := RunLength(v);
    assert Last(values + [v[0]]) == v[0];
    assert [v[0]] + Repeat(v[0], k - 1) == v[..k];
    assert values + [v[0]] + Repeat(v[0], k - 1) == values + ([v[0]] + Repeat(v[0], k - 1));
  }

  /** decode_hex inverts the run-length encoding of any non-empty byte string. */
  lemma DecodeHexRoundTrip(v: seq<u8>)
    requires v != []
    ensures DecodeHexSpec(Some(Leaf(EncodeHex(v)))) == Ok(Some(v))
  {
    DecodeEncode(v, []);
    assert [] + v == v;
  }

  // ---------------------------------------------------------------------
  // metasprite_names and make_metasprites

  datatype Sprite = Sprite(x: int, y: int, tile: u8, attribute: u8)
  datatype Metasprite = Metasprite(name: string, sprites: Option<seq<Sprite>>)
  datatype Offset = Offset(x: int, y: int)

  /** `key =~ /\d/`. */
  predicate HasDigit(s: string) {
    exists i :: 0 <= i < |s| && IsDigit(s[i])
  }

  /** The select and map of metasprite_names: String values under a key with
      a digit, as [value, key.to_i]. A nil key never matches. */
  function NamedIndices(f: Fields): (r: seq<(string, int)>)
    ensures |r| <= |f|
  {
    if f == [] then []
    else
      var rest := NamedIndices(f[1..]);
      match f[0]
      case (Name(k), Leaf(v)) => if HasDigit(k) then [(v, ToI(k))] + rest else rest
      case _ => rest
  }

  /** metasprite_names (nexxt.rb:77-81); only a Hash has `select`. */
  function MetaspriteNames(x: Option<Node>): Result<seq<(string, int)>, Error> {
    match x
    case Some(Table(f)) => Ok(ToH(NamedIndices(f)))
    case _ => Err(NoMethod)
  }

  /** A pair is selected iff some field holds that String under a key with a
      digit whose to_i is the index. */
  lemma {:induction false} NamedIndicesSpec(f: Fields, name: string, index: int)
    ensures (name, index) in NamedIndices(f) <==>
      exists j :: 0 <= j < |f| && f[j].0.Name? && f[j].1 == Leaf(name)
                  && HasDigit(f[j].0.name) && ToI(f[j].0.name) == index
  {
    if f != [] {
      NamedIndicesSpec(f[1..], name, index);
      if (name, index) in NamedIndices(f[1..]) {
        var j :| 0 <= j < |f[1..]| && f[1..][j].0.Name? && f[1..][j].1 == Leaf(name)
                 && HasDigit(f[1..][j].0.name) && ToI(f[1..][j].0.name) == index;
        assert f[j + 1] == f[1..][j];
      }
      if exists j :: 0 <= j < |f| && f[j].0.Name? && f[j].1 == Leaf(name)
                     && HasDigit(f[j].0.name) && ToI(f[j].0.name) == index {
        var j :| 0 <= j < |f| && f[j].0.Name? && f[j].1 == Leaf(name)
                 && HasDigit(f[j].0.name) && ToI(f[j].0.name) == index;
        if j > 0 {
          assert f[1..][j - 1] == f[j];
        }
      }
    }
  }

  /** The sentinel of an unused sprite row: y, attribute and x all 255,
      whatever the tile. */
  predicate Sentinel(row: seq<u8>) {
    |row| == 4 && row[0] == 255 && row[2] == 255 && row[3] == 255
  }

  function Min(a: nat, b: nat): nat { if a < b then a else b }

  /** One 256-byte slot: its 4-byte rows (y, tile, attribute, x) without the
      sentinels, moved by the grid offset; a short row raises. */
  function SlotSprites(slot: seq<u8>, off: Offset): Result<seq<Sprite>, Error>
    decreases |slot|
  {
    if slot == [] then Ok([])
    else
      var row := slot[..Min(4, |slot|)];
      var rest :- SlotSprites(slot[|row|..], off);
      if Sentinel(row) then Ok(rest)
      else if |row| < 4 then Err(InvalidBytes)
      else Ok([Sprite(row[3] - off.x, row[0] - off.y, row[1], row[2])] + rest)
  }

  /** each_slice(256), each slot decoded. */
  function Slots(bytes: seq<u8>, off: Offset): Result<seq<seq<Sprite>>, Error>
    decreases |bytes|
  {
    if bytes == [] then Ok([])
    else
      var n := Min(256, |bytes|);
      var first :- SlotSprites(bytes[..n], off);
      var rest :- Slots(bytes[n..], off);
      Ok([first] + rest)
  }

  /** Array#[] with an Integer: a negative index counts from the end, and an
      index out of range gives nil. */
  function At<T>(a: seq<T>, i: int): (r: Option<T>)
    ensures r.Some? <==> -|a| <= i < |a|
  {
    if 0 <= i < |a| then Some(a[i]) else if -|a| <= i < 0 then Some(a[|a| + i]) else None
  }

  function NameMetasprites(names: seq<(string, int)>, slots: seq<seq<Sprite>>): (ms: seq<Metasprite>)
    ensures |ms| == |names|
    ensures forall i :: 0 <= i < |names| ==> ms[i] == Metasprite(names[i].0, At(slots, names[i].1))
  {
    if names == [] then [] else [Metasprite(names[0].0, At(slots, names[0].1))] + NameMetasprites(names[1..], slots)
  }

  /** make_metasprites (nexxt.rb:83-98): nil bytes have no each_slice. */
  function MakeMetasprites(names: seq<(string, int)>, bytes: Option<seq<u8>>, off: Offset): Result<seq<Metasprite>, Error> {
    match bytes
    case None => Err(NoMethod)
    case Some(b) =>
      var slots :- Slots(b, off);
      Ok(NameMetasprites(names, slots))
  }

  /** A slot decodes iff its length is a multiple of 4. */
  lemma {:induction false} SlotSpritesOk(slot: seq<u8>, off: Offset)
    ensures SlotSprites(slot, off).Ok? <==> |slot| % 4 == 0
    ensures SlotSprites(slot, off).Err? ==> SlotSprites(slot, off).error == InvalidBytes
    decreases |slot|
  {
    if slot != [] {
      SlotSpritesOk(slot[Min(4, |slot|)..], off);
    }
  }

  /** The bytes decode iff their length is a multiple of 4, and then into
      ceil(n / 256) slots. */
  lemma {:induction false} SlotsOk(bytes: seq<u8>, off: Offset)
    ensures Slots(bytes, off).Ok? <==> |bytes| % 4 == 0
    ensures Slots(bytes, off).Err? ==> Slots(bytes, off).error == InvalidBytes
    ensures Slots(bytes, off).Ok? ==> |Slots(bytes, off).value| == (|bytes| + 255) / 256
    decreases |bytes|
  {
    if bytes != [] {
      var n := Min(256, |bytes|);
      SlotSpritesOk(bytes[..n], off);
      SlotsOk(bytes[n..], off);
    }
  }

  /** make_metasprites fails exactly on nil bytes and on an incomplete row;
      otherwise it names one metasprite per name, in order, with nil sprites
      for an index outside the slots. */
  lemma MakeMetaspritesSpec(names: seq<(string, int)>, bytes: Option<seq<u8>>, off: Offset)
    ensures bytes.None? ==> MakeMetasprites(names, bytes, off) == Err(NoMethod)
    ensures bytes.Some? ==> (MakeMetasprites(names, bytes, off).Ok? <==> |bytes.value| % 4 == 0)
    ensures bytes.Some? && |bytes.value| % 4 != 0 ==> MakeMetasprites(names, bytes, off) == Err(InvalidBytes)
    ensures MakeMetasprites(names, bytes, off).Ok? ==>
      var ms := MakeMetasprites(names, bytes, off).value;
      && |ms| == |names|
      && forall i :: 0 <= i < |names| ==>
           ms[i].name == names[i].0
           && (ms[i].sprites.None? <==> names[i].1 >= (|bytes.value| + 255) / 256 || names[i].1 < -((|bytes.value| + 255) / 256))
  {
    if bytes.Some? {
      SlotsOk(bytes.value, off);
    }
  }

  // The layout NEXXT writes a slot in, as the inverse the decoder is checked against.

  /** A sprite whose row (y, tile, attribute, x, before the offset) fits in
      bytes and is not a sentinel. */
  predicate Storable(sp: Sprite, off: Offset) {
    && 0 <= sp.y + off.y < 256 && 0 <= sp.x + off.x < 256
    && !(sp.y + off.y == 255 && sp.attribute == 255 && sp.x + off.x == 255)
  }

  /** The sprites as stored rows. */
  function SlotBytes(ss: seq<Sprite>, off: Offset): (b: seq<u8>)
    requires forall i :: 0 <= i < |ss| ==> Storable(ss[i], off)
    ensures |b| == 4 * |ss|
  {
    if ss == [] then []
    else
      assert Storable(ss[0], off);
      var row: seq<u8> := [ss[0].y + off.y, ss[0].tile, ss[0].attribute, ss[0].x + off.x];
      row + SlotBytes(ss[1..], off)
  }

  /** Unused rows: all four bytes 255. */
  function Padding(rows: nat): (b: seq<u8>)
    ensures |b| == 4 * rows
  {
    if rows == 0 then [] else [255, 255, 255, 255] + Padding(rows - 1)
  }

  lemma {:induction false} SlotPadding(rows: nat, off: Offset)
    ensures SlotSprites(Padding(rows), off) == Ok([])
  {
    if rows > 0 {
      var p := Padding(rows);
      assert p[..4] == [255, 255, 255, 255];
      assert p[4..] == Padding(rows - 1);
      SlotPadding(rows - 1, off);
    }
  }

  /** A full row that is not a sentinel puts its sprite in front of the rest. */
  lemma SlotSpritesRow(row: seq<u8>, rest: seq<u8>, off: Offset, tail: seq<Sprite>)
    requires |row| == 4 && !Sentinel(row) && SlotSprites(rest, off) == Ok(tail)
    ensures SlotSprites(row + rest, off) == Ok([Sprite(row[3] - off.x, row[0] - off.y, row[1], row[2])] + tail)
  {
    var slot := row + rest;
    assert slot[..Min(4, |slot|)] == row;
    assert slot[4..] == rest;
  }

  /** A slot written as its sprites followed by sentinel rows decodes to
      exactly those sprites. */
  lemma {:induction false} SlotRoundTrip(ss: seq<Sprite>, rows: nat, off: Offset)
    requires forall i :: 0 <= i < |ss| ==> Storable(ss[i], off)
    ensures SlotSprites(SlotBytes(ss, off) + Padding(rows), off) == Ok(ss)
  {
    if ss == [] {
      assert SlotBytes(ss, off) + Padding(rows) == Padding(rows);
      SlotPadding(rows, off);
    } else {
      var sp := ss[0];
      var row: seq<u8> := [sp.y + off.y, sp.tile, sp.attribute, sp.x + off.x];
      var rest := SlotBytes(ss[1..], off) + Padding(rows);
      assert SlotBytes(ss, off) + Padding(rows) == row + rest by {
        ConcatAssoc(row, SlotBytes(ss[1..], off), Padding(rows));
      }
      assert Sprite(row[3] - off.x, row[0] - off.y, row[1], row[2]) == sp;
      assert SlotSprites(row + rest, off) == Ok([sp] + ss[1..]) by {
        SlotRoundTrip(ss[1..], rows, off);
        SlotSpritesRow(row, rest, off, ss[1..]);
      }
      assert [sp] + ss[1..] == ss;
    }
  }

  // ---------------------------------------------------------------------
  // Session#initialize

  /** `grid['X'].to_i`: nil.to_i is 0, and a Hash has no to_i. */
  function CoordinateOf(v: Option<Node>): Result<int, Error> {
    match v
    case None => Ok(0)
    case Some(Leaf(s)) => Ok(ToI(s))
    case Some(Table(_)) => Err(NoMethod)
  }

  /** The metasprite offset read from `Var/Sprite/Grid` (nexxt.rb:16-21): nil
      has no `[]`; on a String, `['X']` is "X" or nil, both reading as 0. */
  function GridOffset(grid: Option<Node>): Result<Offset, Error> {
    match grid
    case None => Err(NoMethod)
    case Some(Leaf(_)) => Ok(Offset(0, 0))
    case Some(Table(f)) =>
      var x :- CoordinateOf(Get(f, Name("X")));
      var y :- CoordinateOf(Get(f, Name("Y")));
      Ok(Offset(x, y))
  }

  /** A grid table gives an offset unless X or Y is itself a table; a missing
      X or Y reads as 0, like `nil.to_i`. */
  lemma GridOffsetDefaults(f: Fields)
    ensures GridOffset(Some(Table(f))).Ok? <==>
      (Get(f, Name("X")).None? || Get(f, Name("X")).value.Leaf?) &&
      (Get(f, Name("Y")).None? || Get(f, Name("Y")).value.Leaf?)
    ensures GridOffset(Some(Table(f))).Ok? && Get(f, Name("X")).None? ==>
      GridOffset(Some(Table(f))).value.x == 0
    ensures GridOffset(Some(Table(f))).Ok? && Get(f, Name("Y")).None? ==>
      GridOffset(Some(Table(f))).value.y == 0
  {
  }

  datatype Session = Session(
    flatTable: seq<(string, string)>,
    table: Fields,
    chrMain: Option<seq<u8>>,
    chrCopy: Option<seq<u8>>,
    chrUndo: Option<seq<u8>>,
    offset: Offset,
    metasprites: seq<Metasprite>)

  /** Session.new(text), each step in the order initialize runs them; the
      first exception is the result. */
  function NewSession(text: string): Result<Session, Error> {
    var flat := FlatTable(text);
    SessionOf(flat, ParseSpec(flat))
  }

  /** The steps of initialize after the table is built. */
  function SessionOf(flat: seq<(string, string)>, table: Fields): Result<Session, Error> {
    var mainNode :- Dig(table, ["CHR", "Main"]);
    var chrMain :- DecodeHexSpec(mainNode);
    var copyNode :- Dig(table, ["CHR", "Copy"]);
    var chrCopy :- DecodeHexSpec(copyNode);
    var undoNode :- Dig(table, ["CHR", "Undo"]);
    var chrUndo :- DecodeHexSpec(undoNode);
    var grid :- Dig(table, ["Var", "Sprite", "Grid"]);
    var offset :- GridOffset(grid);
    var namesNode :- Dig(table, ["Meta", "Sprite"]);
    var names :- MetaspriteNames(namesNode);
    var bytesNode :- Dig(table, ["Meta", "Sprites"]);
    var bytes :- DecodeHexSpec(bytesNode);
    var metasprites :- MakeMetasprites(names, bytes, offset);
    Ok(Session(flat, table, chrMain, chrCopy, chrUndo, offset, metasprites))
  }

  /** A session decodes only when it has a Var/Sprite/Grid entry, a
      Meta/Sprite table and non-empty Meta/Sprites data. */
  lemma NewSessionNeeds(text: string)
    requires NewSession(text).Ok?
    ensures var table := ParseSpec(FlatTable(text));
      && Dig(table, ["Var", "Sprite", "Grid"]).Ok? && Dig(table, ["Var", "Sprite", "Grid"]).value.Some?
      && Dig(table, ["Meta", "Sprite"]).Ok? && Dig(table, ["Meta", "Sprite"]).value.Some?
      && Dig(table, ["Meta", "Sprite"]).value.value.Table?
      && DecodeHexSpec(Dig(table, ["Meta", "Sprites"]).value).Ok?
      && DecodeHexSpec(Dig(table, ["Meta", "Sprites"]).value).value.Some?
  {
    var flat := FlatTable(text);
    SessionOfNeeds(flat, ParseSpec(flat));
  }

  lemma SessionOfNeeds(flat: seq<(string, string)>, table: Fields)
    requires SessionOf(flat, table).Ok?
    ensures && Dig(table, ["Var", "Sprite", "Grid"]).Ok? && Dig(table, ["Var", "Sprite", "Grid"]).value.Some?
      && Dig(table, ["Meta", "Sprite"]).Ok? && Dig(table, ["Meta", "Sprite"]).value.Some?
      && Dig(table, ["Meta", "Sprite"]).value.value.Table?
      && DecodeHexSpec(Dig(table, ["Meta", "Sprites"]).value).Ok?
      && DecodeHexSpec(Dig(table, ["Meta", "Sprites"]).value).value.Some?
  {
  }

  /** initialize (nexxt.rb:8-27). */
  method Initialize(text: string) returns (r: Result<Session, Error>)
    ensures r == NewSession(text)
  {
    var flat := FlatTable(text);
    var table := ParseTable(flat);
    var mainNode :- Dig(table, ["CHR", "Main"]);
    var chrMain :- DecodeHex(mainNode);
    var copyNode :- Dig(table, ["CHR", "Copy"]);
    var chrCopy :- DecodeHex(copyNode);
    var undoNode :- Dig(table, ["CHR", "Undo"]);
    var chrUndo :- DecodeHex(undoNode);
    var grid :- Dig(table, ["Var", "Sprite", "Grid"]);
    var offset :- GridOffset(grid);
    var namesNode :- Dig(table, ["Meta", "Sprite"]);
    var names :- MetaspriteNames(namesNode);
    var bytesNode :- Dig(table, ["Meta", "Sprites"]);
    var bytes :- DecodeHex(bytesNode);
    var metasprites :- MakeMetasprites(names, bytes, offset);
    return Ok(Session(flat, table, chrMain, chrCopy, chrUndo, offset, metasprites));
  }
}
