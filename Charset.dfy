/** The compile-time string-to-tile translation of src/charset.hpp: each
    character of a literal becomes the index of the background tile that
    draws it. */
module Charset {
  import opened Common

  /** The tile of the digit 0; the other digits follow it. */
  const DigitsBaseTile: u8 := 0x64
  /** The tile every untranslatable character becomes in a release build. */
  const Unmapped: u8 := 0xff

  /** TranslateUnicode (charset.hpp:38-74), on code points. The default
      branch trips fake_assert in a debug build and yields 0xff otherwise;
      the model takes the release-build value. */
  function TranslateUnicode(c: nat): (t: u8)
    ensures c < 0x20 ==> t == c
    ensures '0' as nat <= c <= '9' as nat ==> t == DigitsBaseTile + (c - '0' as nat)
  {
    if c <= 0x1f then c
    else if c == ' ' as nat then 0x02
    else if c == '!' as nat then 0x2f
    else if c == '?' as nat then 0x3f
    else if c == '-' as nat then 0x1c
    else if '0' as nat <= c <= '9' as nat then c - '0' as nat + 0x64
    else if 'a' as nat <= c <= 'i' as nat then c - 'a' as nat + 0x04
    else if 'k' as nat <= c <= 'y' as nat then c - 'k' as nat + 0x0d
    else if c == 'B' as nat then 0x1f
    else if c == 'H' as nat then 0x1d
    else if c == 'P' as nat then 0x1e
    else if c == 'G' as nat || c == 'F' as nat || c == 'M' as nat || c == 'R' as nat || c == 'S' as nat then 0x6f
    else Unmapped
  }

  /** The lower-case letters the charset has a tile for: every one but 'j'
      and 'z'. */
  predicate MappedLetter(c: char) {
    ('a' <= c <= 'i') || ('k' <= c <= 'y')
  }

  /** The lower-case letters occupy the consecutive tiles 0x04..0x1b in
      alphabetical order, skipping 'j'. */
  lemma LettersConsecutive(c: char)
    requires MappedLetter(c)
    ensures 0x04 <= TranslateUnicode(c as nat) <= 0x1b
    ensures c < 'j' ==> TranslateUnicode(c as nat) == 0x04 + (c as nat - 'a' as nat)
    ensures c > 'j' ==> TranslateUnicode(c as nat) == 0x04 + (c as nat - 'a' as nat) - 1
  {
  }

  /** Distinct mapped letters get distinct tiles. */
  lemma LettersInjective(c: char, d: char)
    requires MappedLetter(c) && MappedLetter(d) && c != d
    ensures TranslateUnicode(c as nat) != TranslateUnicode(d as nat)
  {
    LettersConsecutive(c);
    LettersConsecutive(d);
  }

  /** 'j', 'z' and the upper-case letters without a glyph fall through to the
      release-build default. */
  lemma UnmappedCharacters()
    ensures TranslateUnicode('j' as nat) == Unmapped
    ensures TranslateUnicode('z' as nat) == Unmapped
    ensures TranslateUnicode('A' as nat) == Unmapped
    ensures TranslateUnicode(0x80) == Unmapped
  {
  }

  /** A character gets the 0xff tile exactly when none of the switch's
      cases names it. */
  lemma UnmappedExactly(c: nat)
    ensures TranslateUnicode(c) == Unmapped <==>
      !(c < 0x20 || c == ' ' as nat || c == '!' as nat || c == '?' as nat || c == '-' as nat
        || ('0' as nat <= c <= '9' as nat) || (c < 0x80 && MappedLetter(c as char))
        || c == 'B' as nat || c == 'H' as nat || c == 'P' as nat
        || c == 'G' as nat || c == 'F' as nat || c == 'M' as nat || c == 'R' as nat || c == 'S' as nat)
  {
  }

  /** The tiles of a whole literal, character by character. */
  function Translate(src: seq<nat>): (tiles: seq<u8>)
    ensures |tiles| == |src|
    ensures forall i :: 0 <= i < |src| ==> tiles[i] == TranslateUnicode(src[i])
  {
    seq(|src|, i requires 0 <= i < |src| => TranslateUnicode(src[i]))
  }

  /** The code points of a Dafny string. */
  function CodePoints(s: string): (cs: seq<nat>)
    ensures |cs| == |s| && forall i :: 0 <= i < |s| ==> cs[i] == s[i] as nat
  {
    seq(|s|, i requires 0 <= i < |s| => s[i] as nat)
  }

  /** `"..."_ts`: the tiles of a string literal, its terminating NUL
      included (a C array of N chars holds the NUL). */
  function Ts(s: string): (tiles: seq<u8>)
    ensures |tiles| == |s| + 1 && tiles[|s|] == 0
  {
    Translate(CodePoints(s) + [0])
  }

  /** The three source widths of TileString (charset.hpp:15-36). */
  datatype Width = Char | Char16 | Char32

  /** A TileString: `Str[N]`, filled in one pass over the source. */
  class TileString {
    var str: array<u8>

    /** The TileString constructors (charset.hpp:15-36): Str[J++] =
        TranslateUnicode(Src[I]) for each I < N, J moving in step with I.
        As in TranslateUnicode, this is the release build, where the
        fake_assert checks of the source width are no-ops, so the width
        does not change the result. */
    constructor(w: Width, src: seq<nat>)
      ensures str.Length == |src| && str[..] == Translate(src)
      ensures fresh(str)
    {
      var a := new u8[|src|];
      var i := 0;
      var j := 0;
      while i < |src|
        invariant 0 <= i <= |src| && j == i
        invariant forall k :: 0 <= k < i ==> a[k] == TranslateUnicode(src[k])
      {
        var newChar := TranslateUnicode(src[i]);
        a[j] := newChar;
        j := j + 1;
        i := i + 1;
      }
      str := a;
    }
  }
}
