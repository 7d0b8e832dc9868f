/** The world map of src/world-map.cpp: which stages can be picked given
    the story progress, the choice of the stage the cursor starts on, the
    cursor moves between available stages, and the transitions out of the
    map. Drawing, palettes, music and the ending cutscene's sprites are
    left out; the map's globals (current stage, game state) are fields. */
module WorldMap {
  import opened Common
  import opened Stages
  import opened Input

  /** The game modes the map distinguishes (world-map.cpp:68-90). */
  datatype GameMode = Story | Endless | TimeTrial

  /** The game states the map moves between (world-map.cpp:219-244). */
  datatype GameState = TitleScreen | Map | Gameplay

  /** The sound the stage cursor makes (world-map.cpp:150-158). */
  datatype Sfx = UiAbort | UiOptionsCycle

  /** Marshmallow Mountain, the index NUM_STAGES - 1. */
  const Last: nat := NumStages - 1

  predicate AllCompleted(completion: seq<bool>, n: nat)
    requires n <= |completion|
  {
    forall i :: 0 <= i < n ==> completion[i]
  }

  /** The available stages (world-map.cpp:68-90). In story mode a stage
      before the last is available while it is not completed, and the
      last once all the others are; in the other modes every stage before
      the last is available, and the last once story mode has completed
      it. */
  function Availability(mode: GameMode, completion: seq<bool>): (av: seq<bool>)
    requires |completion| == NumStages
    ensures |av| == NumStages
    ensures mode == Story ==> forall i :: 0 <= i < Last ==> av[i] == !completion[i]
    ensures mode == Story ==> (av[Last] <==> AllCompleted(completion, Last))
    ensures mode != Story ==> (forall i :: 0 <= i < Last ==> av[i]) && av[Last] == completion[Last]
  {
    seq(NumStages, i requires 0 <= i < NumStages =>
      if i < Last then mode != Story || !completion[i]
      else if mode == Story then AllCompleted(completion, Last)
      else completion[Last])
  }

  /** Whatever the progress, some stage is available: in story mode an
      uncompleted stage, or the last once none is left; in the other modes
      the first stage. */
  lemma SomeStageAvailable(mode: GameMode, completion: seq<bool>)
    requires |completion| == NumStages
    ensures exists i :: 0 <= i < NumStages && Availability(mode, completion)[i]
  {
    var av := Availability(mode, completion);
    if mode != Story {
      assert av[0];
    } else if AllCompleted(completion, Last) {
      assert av[Last];
    } else {
      var i :| 0 <= i < Last && !completion[i];
      assert av[i];
    }
  }

  /** The availability loops of the constructor (world-map.cpp:68-90). */
  method ComputeAvailability(mode: GameMode, completion: array<bool>, available: array<bool>)
    requires completion.Length == NumStages && available.Length == NumStages
    requires completion != available
    modifies available
    ensures available[..] == Availability(mode, completion[..])
  {
    match mode {
      case Story =>
        available[Last] := true;
        for i := 0 to Last
          invariant forall j :: 0 <= j < i ==> available[j] == !completion[j]
          invariant available[Last] == AllCompleted(completion[..], i)
        {
          available[i] := !completion[i];
          if available[i] {
            available[Last] := false;
          }
        }
      case Endless | TimeTrial =>
        for i := 0 to Last
          invariant forall j :: 0 <= j < i ==> available[j]
        {
          available[i] := true;
        }
        available[Last] := completion[Last];
    }
  }

  /** The first available stage at or after from. */
  function FirstFrom(av: seq<bool>, from: nat): (r: Option<nat>)
    ensures r.Some? ==>
      from <= r.value < |av| && av[r.value] && forall j :: from <= j < r.value ==> !av[j]
    ensures r.None? ==> forall j :: from <= j < |av| ==> !av[j]
    decreases |av| - from
  {
    if from >= |av| then None
    else if av[from] then Some(from)
    else FirstFrom(av, from + 1)
  }

  /** The nearest available stage before k. */
  function NearestBelow(av: seq<bool>, k: nat): (r: Option<nat>)
    requires k <= |av|
    ensures r.Some? ==> r.value < k && av[r.value] && forall j :: r.value < j < k ==> !av[j]
    ensures r.None? ==> forall j :: 0 <= j < k ==> !av[j]
  {
    if k == 0 then None
    else if av[k - 1] then Some(k - 1)
    else NearestBelow(av, k - 1)
  }

  /** The stage the cursor starts on (world-map.cpp:101-117): the first
      available one from the current stage on, else the first available
      one. It is the current stage when that is available, and always an
      available stage since one exists. */
  function StartingStage(av: seq<bool>, current: nat): (s: nat)
    requires |av| == NumStages && current < NumStages
    ensures s < NumStages
    ensures (exists i :: 0 <= i < NumStages && av[i]) ==> av[s]
    ensures av[current] ==> s == current
    ensures (exists i :: current <= i < NumStages && av[i]) ==>
      current <= s && forall j :: current <= j < s ==> !av[j]
  {
    match FirstFrom(av, current)
    case Some(i) => i
    case None =>
      match FirstFrom(av, 0)
      case Some(i) => i
      case None => current
  }

  /** The fix-up loops of the constructor (world-map.cpp:101-117). */
  method FixStage(available: array<bool>, current: nat) returns (stage: nat)
    requires available.Length == NumStages && current < NumStages
    ensures stage == StartingStage(available[..], current)
  {
    stage := current;
    var i := current;
    while i < NumStages
      invariant current <= i <= NumStages && stage == current
      invariant FirstFrom(available[..], current) == FirstFrom(available[..], i)
    {
      if available[i] {
        stage := i;
        break;
      }
      i := i + 1;
    }
    if !available[stage] {
      i := 0;
      while i < NumStages
        invariant 0 <= i <= NumStages && stage == current
        invariant FirstFrom(available[..], 0) == FirstFrom(available[..], i)
      {
        if available[i] {
          stage := i;
          break;
        }
        i := i + 1;
      }
    }
  }

  /** The Up/Left search (world-map.cpp:246-255): the nearest available
      stage below the current one, or the current one if there is none. */
  method PreviousStage(available: array<bool>, current: nat) returns (stage: nat)
    requires available.Length == NumStages && current < NumStages
    ensures stage == match NearestBelow(available[..], current) case Some(i) => i case None => current
  {
    stage := current;
    if current > 0 {
      var i: int := current - 1;
      while i >= 0
        invariant -1 <= i < current && stage == current
        invariant NearestBelow(available[..], current) == NearestBelow(available[..], i + 1)
      {
        if available[i] {
          stage := i;
          break;
        }
        i := i - 1;
      }
    }
  }

  /** The Down/Right/Select search (world-map.cpp:259-268): the nearest
      available stage above the current one, or the current one if there
      is none. */
  method NextStage(available: array<bool>, current: nat) returns (stage: nat)
    requires available.Length == NumStages && current < NumStages
    ensures stage == match FirstFrom(available[..], current + 1) case Some(i) => i case None => current
  {
    stage := current;
    if current < NumStages - 1 {
      var i := current + 1;
      while i < NumStages
        invariant current < i <= NumStages && stage == current
        invariant FirstFrom(available[..], current + 1) == FirstFrom(available[..], i)
      {
        if available[i] {
          stage := i;
          break;
        }
        i := i + 1;
      }
    }
  }

  /** A cursor move keeps the cursor on an available stage. */
  lemma MovesStayAvailable(av: seq<bool>, current: nat)
    requires |av| == NumStages && current < NumStages && av[current]
    ensures match NearestBelow(av, current) case Some(i) => av[i] case None => true
    ensures match FirstFrom(av, current + 1) case Some(i) => av[i] && current < i case None => true
  {
  }

  /** tick_ending's counter (world-map.cpp:160-165): the u8 counter goes
      up and starts over at 96, so it stays below 96. */
  function NextEndingFrame(c: u8): (r: u8)
    ensures r < 96
    ensures c < 95 ==> r == c + 1
    ensures c >= 95 ==> r == 0
  {
    var n := ToU8(c + 1);
    if n >= 96 then 0 else n
  }

  function EndingFrames(k: nat): u8 {
    if k == 0 then 0 else NextEndingFrame(EndingFrames(k - 1))
  }

  /** From 0 the counter runs through a cycle of 96 frames, so the
      showcase sprite advances once every 96 frames. */
  lemma {:induction false} EndingCycle(k: nat)
    ensures EndingFrames(k) == k % 96
  {
    if k > 0 {
      EndingCycle(k - 1);
    }
  }

  /** A confirm press: A or Start. */
  predicate Confirm(p: Buttons) {
    p.a || p.start
  }

  class WorldMap {
    const mode: GameMode
    const available: array<bool>
    const storyModeBeaten: bool
    var currentStage: nat
    var showIntro: bool
    var endingFrameCounter: u8
    var gameState: GameState

    /** The cursor is on a stage, and on an available one unless story mode
        is beaten (then it is not shown). */
    ghost predicate Valid()
      reads this, available
    {
      available.Length == NumStages && currentStage < NumStages
      && (!storyModeBeaten ==> available[currentStage])
      && (storyModeBeaten ==> mode == Story)
      && endingFrameCounter < 96
    }

    /** WorldMap (world-map.cpp:57-143): the availability, the beaten flag,
        the starting stage and the intro. */
    constructor(mode: GameMode, completion: array<bool>, stage: nat)
      requires completion.Length == NumStages && stage < NumStages
      ensures Valid() && fresh(available) && this.mode == mode
      ensures available[..] == Availability(mode, completion[..])
      ensures storyModeBeaten == (mode == Story && completion[Last])
      ensures currentStage == if storyModeBeaten then stage else StartingStage(available[..], stage)
      ensures showIntro == (mode == Story && !storyModeBeaten)
      ensures gameState == Map && endingFrameCounter == 0
    {
      this.mode := mode;
      var av := new bool[NumStages];
      ComputeAvailability(mode, completion, av);
      available := av;
      storyModeBeaten := false;
      if mode == Story {
        storyModeBeaten := completion[Last];
      }
      new;
      currentStage := stage;
      if !storyModeBeaten {
        currentStage := FixStage(available, stage);
        SomeStageAvailable(mode, completion[..]);
      }
      showIntro := mode == Story && !storyModeBeaten;
      endingFrameCounter := 0;
      gameState := Map;
    }

    /** stage_change (world-map.cpp:150-158): the abort sound when the
        stage stays, the cycle sound when it changes. */
    method StageChange(newStage: nat) returns (sfx: Sfx)
      modifies this
      ensures currentStage == newStage
      ensures sfx == if newStage == old(currentStage) then UiAbort else UiOptionsCycle
      ensures unchanged(this`showIntro, this`endingFrameCounter, this`gameState)
    {
      if newStage == currentStage {
        sfx := UiAbort;
      } else {
        currentStage := newStage;
        sfx := UiOptionsCycle;
      }
    }

    /** tick_ending (world-map.cpp:160-165). */
    method TickEnding()
      modifies this
      ensures endingFrameCounter == NextEndingFrame(old(endingFrameCounter))
      ensures unchanged(this`currentStage, this`showIntro, this`gameState)
    {
      endingFrameCounter := ToU8(endingFrameCounter + 1);
      if endingFrameCounter >= 96 {
        endingFrameCounter := 0;
      }
    }

    /** One pass of loop (world-map.cpp:218-276) on the pressed buttons of
        both pads: a confirm closes the intro, or leaves for the title
        screen after the ending, or starts the stage; B goes back to the
        title screen; the directions move the cursor to the nearest
        available stage that way. */
    method LoopStep(pressed: Buttons)
      requires Valid() && gameState == Map
      modifies this
      ensures Valid()
      ensures Confirm(pressed) && old(showIntro) ==>
        !showIntro && gameState == Map && currentStage == old(currentStage)
      ensures Confirm(pressed) && !old(showIntro) ==>
        gameState == (if storyModeBeaten then TitleScreen else Gameplay) && currentStage == old(currentStage)
      ensures mode != Story && Confirm(pressed) && !old(showIntro) ==> gameState == Gameplay
      ensures !Confirm(pressed) && pressed.b ==> gameState == TitleScreen && currentStage == old(currentStage)
      ensures !Confirm(pressed) && !pressed.b && !storyModeBeaten && (pressed.up || pressed.left) ==>
        gameState == Map && currentStage ==
          match NearestBelow(available[..], old(currentStage)) case Some(i) => i case None => old(currentStage)
      ensures (!Confirm(pressed) && !pressed.b && !storyModeBeaten && !(pressed.up || pressed.left)
               && (pressed.down || pressed.right || pressed.select)) ==>
        gameState == Map && currentStage ==
          match FirstFrom(available[..], old(currentStage) + 1) case Some(i) => i case None => old(currentStage)
      ensures showIntro == (old(showIntro) && !Confirm(pressed))
      ensures !Confirm(pressed) && !pressed.b
              && (storyModeBeaten || !(pressed.up || pressed.left || pressed.down || pressed.right || pressed.select)) ==>
        gameState == old(gameState) && currentStage == old(currentStage)
      ensures available[..] == old(available[..]) && endingFrameCounter == old(endingFrameCounter)
    {
      if Confirm(pressed) {
        if showIntro {
          showIntro := false;
        } else if storyModeBeaten {
          gameState := TitleScreen;
        } else {
          gameState := Gameplay;
        }
      } else if pressed.b {
        gameState := TitleScreen;
      } else if !storyModeBeaten && (pressed.up || pressed.left) {
        var stage := PreviousStage(available, currentStage);
        MovesStayAvailable(available[..], currentStage);
        var _ := StageChange(stage);
      } else if !storyModeBeaten && (pressed.down || pressed.right || pressed.select) {
        var stage := NextStage(available, currentStage);
        MovesStayAvailable(available[..], currentStage);
        var _ := StageChange(stage);
      }
    }
  }
}
