/** The shared types of framework.h: grid objects, levels and the game. */
module Framework {

  /** An integer that is none of the named constants EMPTY (0), BOUNDARY
      (1), RUNNING_SOLDIER (2) and COUNTDOWN_BOMB (3). */
  type OtherCode = c: int | c < 0 || 3 < c witness 4

  /** Game_Object_Type. A C enum field may hold a value outside its named
      constants; `Unlisted` stands for such a value. */
  datatype ObjectType = Empty | Boundary | RunningSoldier | CountdownBomb | Unlisted(code: OtherCode)

  /** Game_Object: a type and a per-type integer (a bomb's timer). */
  datatype GameObject = GameObject(kind: ObjectType, userData: int)

  /** The all-zero object that a freshly zeroed cell holds. */
  const Blank := GameObject(Empty, 0)

  /** Game_Level: `width*height` cells in row-major order and the start
      position. The cells are never written once the level is built, so
      they are held as a value. */
  datatype Level = Level(objects: seq<GameObject>, width: nat, height: nat, startX: int, startY: int)
  {
    predicate Valid() {
      |objects| == width * height
    }
  }

  /** The empty level that a zero-initialised Game holds. */
  const NoLevel := Level([], 0, 0, 0, 0)

  /** Game: the quit flag, the player position and the current level. */
  class Game {
    var quit: bool
    var x: int
    var y: int
    var level: Level

    predicate Valid()
      reads this
    {
      level.Valid()
    }

    /** `Game game = {0};` */
    constructor ()
      ensures Valid()
      ensures !quit && x == 0 && y == 0 && level == NoLevel
    {
      quit, x, y, level := false, 0, 0, NoLevel;
    }
  }
}
