/** The stages of the game, in the order of the world map's labels
    (world-map.cpp:19-25). The Stage enumeration itself is not part of
    this model; its order is read from those labels. */
module Stages {
  /** NUM_STAGES: the five labels and label rows of the world map
      (world-map.cpp:19-29). */
  const NumStages: nat := 5

  const StarlitStables: nat := 0
  const RainbowRetreat: nat := 1
  const FairyForest: nat := 2
  const GlitteryGrotto: nat := 3
  /** The last stage, Marshmallow Mountain, closes story mode. */
  const MarshmallowMountain: nat := 4
}
