/** The cheat-code matcher of src/cheats.cpp. Every pushed tile is stored
    in a four-tile buffer; on each fourth push the buffer is compared with
    the three codes and the index starts over, so codes are recognised in
    consecutive groups of four pushes, not anywhere in the input. The
    sound effect and the VRAM echo of a recognised code are left out. */
module Cheats {
  import opened Common
  import Charset
  import opened Stages

  /** The tiles of "high", "cafe" and "fate" (charset tiles 0x04 + letter
      offset, 't' one lower since 'j' has no tile). */
  const High: seq<u8> := [0x0b, 0x0c, 0x0a, 0x0b]
  const Cafe: seq<u8> := [0x06, 0x04, 0x09, 0x08]
  const Fate: seq<u8> := [0x09, 0x04, 0x16, 0x08]

  /** The codes are the first four tiles of the literals "high"_ts,
      "cafe"_ts and "fate"_ts, the bytes memcmp compares. */
  lemma CodesAreLiterals()
    ensures High == Charset.Ts("high")[..4]
    ensures Cafe == Charset.Ts("cafe")[..4]
    ensures Fate == Charset.Ts("fate")[..4]
  {
    Charset.LettersConsecutive('h');
    Charset.LettersConsecutive('i');
    Charset.LettersConsecutive('g');
    Charset.LettersConsecutive('c');
    Charset.LettersConsecutive('a');
    Charset.LettersConsecutive('f');
    Charset.LettersConsecutive('e');
    Charset.LettersConsecutive('t');
  }

  /** The cheat state together with the story-completion flags a "fate"
      code sets. */
  datatype Entry = Entry(code: seq<u8>, index: nat, higherLevel: bool, infiniteEnergy: bool,
                         completion: seq<bool>)

  predicate Wf(e: Entry) {
    |e.code| == 4 && e.index < 4 && |e.completion| == NumStages
  }

  /** The story completion after "fate": the four stages before the last
      are marked completed, the last is left as it was. */
  function Completed(completion: seq<bool>): (r: seq<bool>)
    requires |completion| == NumStages
    ensures |r| == NumStages
    ensures forall i :: 0 <= i < MarshmallowMountain ==> r[i]
    ensures r[MarshmallowMountain] == completion[MarshmallowMountain]
  {
    completion[StarlitStables := true][RainbowRetreat := true][FairyForest := true][GlitteryGrotto := true]
  }

  /** push_code (cheats.cpp:17-40): the tile goes in at the index; on the
      fourth one the group is compared with the codes in turn, the first
      match taking effect, and the index returns to 0. A flag is never
      lowered. */
  function Push(e: Entry, c: u8): (r: Entry)
    requires Wf(e)
    ensures Wf(r)
    ensures r.index == (e.index + 1) % 4
    ensures r.code == e.code[e.index := c]
    ensures e.index < 3 ==>
      r.higherLevel == e.higherLevel && r.infiniteEnergy == e.infiniteEnergy && r.completion == e.completion
    ensures e.index == 3 ==> r.higherLevel == (e.higherLevel || r.code == High)
    ensures e.index == 3 ==> r.infiniteEnergy == (e.infiniteEnergy || r.code == Cafe)
    ensures e.index == 3 ==> r.completion == if r.code == Fate then Completed(e.completion) else e.completion
  {
    var code := e.code[e.index := c];
    if e.index + 1 < 4 then e.(code := code, index := e.index + 1)
    else if code == High then e.(code := code, index := 0, higherLevel := true)
    else if code == Cafe then e.(code := code, index := 0, infiniteEnergy := true)
    else if code == Fate then e.(code := code, index := 0, completion := Completed(e.completion))
    else e.(code := code, index := 0)
  }

  /** The pushes of cs, one after the other. */
  function PushAll(e: Entry, cs: seq<u8>): (r: Entry)
    requires Wf(e)
    ensures Wf(r)
  {
    if cs == [] then e else Push(PushAll(e, cs[..|cs| - 1]), cs[|cs| - 1])
  }

  /** The k-th group of four pushes. */
  function Group(cs: seq<u8>, k: nat): seq<u8>
    requires 4 * k + 4 <= |cs|
  {
    cs[4 * k..4 * k + 4]
  }

  /** Some group of four pushes spells the code. */
  ghost predicate HasGroup(cs: seq<u8>, code: seq<u8>) {
    exists k: nat :: 4 * k + 4 <= |cs| && Group(cs, k) == code
  }

  /** What the pushes of cs leave, starting on a group boundary from e:
      the index at |cs| mod 4 with the unfinished group in the buffer, and
      each flag raised exactly when one of the completed groups spells its
      code. */
  ghost predicate Summarises(e: Entry, cs: seq<u8>, r: Entry)
    requires Wf(e) && Wf(r)
  {
    r.index == |cs| % 4
    && r.code[..r.index] == cs[|cs| - r.index..]
    && r.higherLevel == (e.higherLevel || HasGroup(cs, High))
    && r.infiniteEnergy == (e.infiniteEnergy || HasGroup(cs, Cafe))
    && r.completion == (if HasGroup(cs, Fate) then Completed(e.completion) else e.completion)
  }

  /** Starting on a group boundary, the pushes of cs leave the index at
      |cs| mod 4 with the unfinished group in the buffer, and raise each
      flag exactly when one of the completed groups spells its code. */
  lemma {:induction false} PushAllFlags(e: Entry, cs: seq<u8>)
    requires Wf(e) && e.index == 0
    ensures Summarises(e, cs, PushAll(e, cs))
  {
    if cs == [] {
      assert !HasGroup(cs, High) && !HasGroup(cs, Cafe) && !HasGroup(cs, Fate);
    } else {
      var init := cs[..|cs| - 1];
      PushAllFlags(e, init);
      var p := PushAll(e, init);
      assert PushAll(e, cs) == Push(p, cs[|cs| - 1]);
      if p.index < 3 {
        PushWithinGroup(e, init, cs, p);
      } else {
        PushEndsGroup(e, init, cs, p);
      }
    }
  }

  /** A push that does not complete a group keeps the summary. */
  lemma PushWithinGroup(e: Entry, init: seq<u8>, cs: seq<u8>, p: Entry)
    requires Wf(e) && Wf(p) && Summarises(e, init, p) && p.index < 3
    requires |cs| == |init| + 1 && init == cs[..|init|]
    ensures Summarises(e, cs, Push(p, cs[|init|]))
  {
    var r := Push(p, cs[|init|]);
    assert r.index == p.index + 1 == |cs| % 4;
    Extend(p.code, init, cs, p.index);
    SameGroups(init, cs, High);
    SameGroups(init, cs, Cafe);
    SameGroups(init, cs, Fate);
    assert r.code[..r.index] == cs[|cs| - r.index..];
    assert r.higherLevel == p.higherLevel && r.infiniteEnergy == p.infiniteEnergy;
    assert r.completion == p.completion;
  }

  /** The push that completes a group adds its match to the summary. */
  lemma PushEndsGroup(e: Entry, init: seq<u8>, cs: seq<u8>, p: Entry)
    requires Wf(e) && Wf(p) && Summarises(e, init, p) && p.index == 3
    requires |cs| == |init| + 1 && init == cs[..|init|]
    ensures Summarises(e, cs, Push(p, cs[|init|]))
  {
    var n := |cs|;
    Extend(p.code, init, cs, p.index);
    var k := (n - 4) / 4;
    assert 4 * k + 4 == n;
    assert p.code[3 := cs[n - 1]] == Group(cs, k);
    NewGroup(init, cs, High, k);
    NewGroup(init, cs, Cafe, k);
    NewGroup(init, cs, Fate, k);
    if HasGroup(init, Fate) {
      CompletedIdempotent(e.completion);
    }
  }

  /** The buffer holding the unfinished group of init, with the next push
      stored at the index, holds the unfinished group of init + [c]. */
  lemma Extend(code: seq<u8>, init: seq<u8>, cs: seq<u8>, i: nat)
    requires |code| == 4 && i < 4 && i <= |init| && |cs| == |init| + 1 && init == cs[..|init|]
    requires code[..i] == init[|init| - i..]
    ensures code[i := cs[|init|]][..i + 1] == cs[|cs| - (i + 1)..]
  {
    var d := code[i := cs[|init|]][..i + 1];
    assert d == code[..i] + [cs[|init|]];
    assert cs[|cs| - (i + 1)..] == init[|init| - i..] + [cs[|init|]];
  }

  /** Appending a push that does not complete a group adds no group. */
  lemma SameGroups(init: seq<u8>, cs: seq<u8>, code: seq<u8>)
    requires |cs| == |init| + 1 && init == cs[..|init|] && |cs| % 4 != 0
    ensures HasGroup(cs, code) == HasGroup(init, code)
  {
    if HasGroup(cs, code) {
      var k: nat :| 4 * k + 4 <= |cs| && Group(cs, k) == code;
      assert Group(init, k) == Group(cs, k);
    }
    if HasGroup(init, code) {
      var k: nat :| 4 * k + 4 <= |init| && Group(init, k) == code;
      assert Group(init, k) == Group(cs, k);
    }
  }

  /** Appending the push that completes a group adds exactly that group. */
  lemma NewGroup(init: seq<u8>, cs: seq<u8>, code: seq<u8>, last: nat)
    requires |cs| == |init| + 1 && init == cs[..|init|] && 4 * last + 4 == |cs|
    ensures HasGroup(cs, code) == (HasGroup(init, code) || Group(cs, last) == code)
  {
    if HasGroup(cs, code) {
      var k: nat :| 4 * k + 4 <= |cs| && Group(cs, k) == code;
      if 4 * k + 4 <= |init| {
        assert Group(init, k) == Group(cs, k);
      } else {
        assert k == last;
      }
    }
    if HasGroup(init, code) {
      var k: nat :| 4 * k + 4 <= |init| && Group(init, k) == code;
      assert Group(init, k) == Group(cs, k);
    }
  }

  lemma CompletedIdempotent(completion: seq<bool>)
    requires |completion| == NumStages
    ensures Completed(Completed(completion)) == Completed(completion)
  {
  }

  /** The codes are matched in aligned groups, not as a sliding window:
      one stray push before "high" keeps the level where it was. */
  lemma StrayPushHidesCode(e: Entry, x: u8, cs: seq<u8>)
    requires Wf(e) && e.index == 0 && !e.higherLevel && cs == [x] + High
    ensures !PushAll(e, cs).higherLevel
  {
    PushAllFlags(e, cs);
    forall k: nat | 4 * k + 4 <= |cs|
      ensures Group(cs, k) != High
    {
      assert Group(cs, k)[1] == High[0] != High[1];
    }
  }

  /** After four stray pushes, "high" falls on a group and is matched. */
  lemma AlignedCodeMatches(e: Entry, x: u8, cs: seq<u8>)
    requires Wf(e) && e.index == 0 && cs == [x, x, x, x] + High
    ensures PushAll(e, cs).higherLevel
  {
    PushAllFlags(e, cs);
    assert Group(cs, 1) == High;
  }

  /** Cheats (cheats.hpp:4-16). */
  class Cheats {
    const code: array<u8>
    var index: u8
    var higherLevel: bool
    var infiniteEnergy: bool

    ghost predicate Valid()
      reads this
    {
      code.Length == 4 && index < 4
    }

    /** The cheat state, with the story completion it acts on. */
    ghost function Snapshot(storyCompletion: array<bool>): Entry
      reads this, code, storyCompletion
    {
      Entry(code[..], index as nat, higherLevel, infiniteEnergy, storyCompletion[..])
    }

    /** Cheats() (cheats.cpp:13-15): an empty buffer and both flags down. */
    constructor()
      ensures Valid() && fresh(code)
      ensures code[..] == [0, 0, 0, 0] && index == 0 && !higherLevel && !infiniteEnergy
    {
      code := new u8[4](_ => 0);
      index := 0;
      higherLevel := false;
      infiniteEnergy := false;
    }

    /** push_code (cheats.cpp:17-40). */
    method PushCode(c: u8, storyCompletion: array<bool>)
      requires Valid() && storyCompletion.Length == NumStages
      modifies this, code, storyCompletion
      ensures Valid()
      ensures Snapshot(storyCompletion) == Push(old(Snapshot(storyCompletion)), c)
    {
      code[index] := c;
      index := index + 1;
      if index == 4 {
        index := 0;
        if code[..] == High {
          higherLevel := true;
        } else if code[..] == Cafe {
          infiniteEnergy := true;
        } else if code[..] == Fate {
          storyCompletion[StarlitStables] := true;
          storyCompletion[RainbowRetreat] := true;
          storyCompletion[FairyForest] := true;
          storyCompletion[GlitteryGrotto] := true;
        }
      }
    }

    /** reset (cheats.cpp:42-46): the index and both flags go back; the
        buffer and the story completion stay. */
    method Reset()
      requires Valid()
      modifies this
      ensures Valid() && index == 0 && !higherLevel && !infiniteEnergy
    {
      index := 0;
      higherLevel := false;
      infiniteEnergy := false;
    }
  }
}
