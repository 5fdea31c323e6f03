/**
 * Level data: the static description of a puzzle. Each word has a zero-based
 * start position and a direction; each intersection has a zero-based position
 * and an ordered list of clue image paths.
 */
module Levels {

  datatype Direction = Across | Down

  /** A zero-based grid position, as written in the level files ({x, y}). */
  datatype Pos = Pos(x: nat, y: nat)

  datatype Word = Word(text: string, start: Pos, direction: Direction)

  datatype Intersection = Intersection(position: Pos, clues: seq<string>)

  datatype Level = Level(words: seq<Word>, intersections: seq<Intersection>)

  /** The one level the game wires up: "ship" across from (0,0), "package" down from (3,0). */
  const Level1: Level := Level(
    [ Word("ship", Pos(0, 0), Across),
      Word("package", Pos(3, 0), Down) ],
    [ Intersection(Pos(3, 0),
        [ "/images/level1/clue-ship-package-1.webp",
          "/images/level1/clue-ship-package-2.webp" ]) ])
}
