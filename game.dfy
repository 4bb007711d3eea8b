/** game.c: grid addressing (the WORLD macro), starting a level, the string
    scanner count_chars_until, and parsing a level from rows of text. */
module Levels {
  import opened Framework

  //----------------------------------------------------------------------
  // Grid addressing
  //----------------------------------------------------------------------

  /** WORLD(game, x, y) reads cell `y*width + x` of the level: row y is
      the block of w consecutive indices from y*w, and x is the offset in
      that block. */
  function Index(w: nat, x: int, y: int): (i: int)
    ensures 0 <= x < w && 0 <= y ==> y * w <= i < (y + 1) * w
  {
    y * w + x
  }

  predicate InBounds(level: Level, x: int, y: int) {
    0 <= x < level.width && 0 <= y < level.height
  }

  /** Every in-bounds cell has an index inside the cell array. */
  lemma {:induction false} IndexInRange(w: nat, h: nat, x: int, y: int)
    requires 0 <= x < w && 0 <= y < h
    ensures 0 <= Index(w, x, y) < w * h
  {
    assert 0 <= y * w;
    assert (y + 1) * w <= h * w;
  }

  lemma IndexInRangeAll(w: nat, h: nat)
    ensures forall x: int, y: int :: 0 <= x < w && 0 <= y < h ==> 0 <= Index(w, x, y) < w * h
  {
    forall x: int, y: int | 0 <= x < w && 0 <= y < h
      ensures 0 <= Index(w, x, y) < w * h
    {
      IndexInRange(w, h, x, y);
    }
  }

  /** Distinct in-row positions have distinct indices. */
  lemma {:induction false} IndexInjective(w: nat, x1: int, y1: int, x2: int, y2: int)
    requires 0 <= x1 < w && 0 <= x2 < w
    ensures Index(w, x1, y1) == Index(w, x2, y2) ==> x1 == x2 && y1 == y2
  {
    var d := y1 - y2;
    assert Index(w, x1, y1) - Index(w, x2, y2) == d * w - (x2 - x1);
    assert d >= 1 ==> d * w >= w;
    assert d <= -1 ==> d * w + w <= 0;
  }

  /** Every index of the cell array is the index of exactly the cell
      (i % w, i / w): addressing is a bijection onto [0, w*h). */
  lemma IndexCovers(w: nat, h: nat, i: int)
    requires 0 <= i < w * h
    ensures 0 <= i % w < w && 0 <= i / w < h
    ensures Index(w, i % w, i / w) == i
  {
  }

  /** The cell at (x, y). */
  function World(level: Level, x: int, y: int): GameObject
    requires level.Valid() && InBounds(level, x, y)
  {
    IndexInRange(level.width, level.height, x, y);
    level.objects[Index(level.width, x, y)]
  }

  /** Every cell of the array is what WORLD reads at exactly one in-bounds
      position. */
  lemma WorldCovers(level: Level, i: int)
    requires level.Valid() && 0 <= i < |level.objects|
    ensures InBounds(level, i % level.width, i / level.width)
    ensures World(level, i % level.width, i / level.width) == level.objects[i]
    ensures forall x, y :: InBounds(level, x, y) && Index(level.width, x, y) == i ==>
      x == i % level.width && y == i / level.width
  {
    IndexCovers(level.width, level.height, i);
    forall x, y | InBounds(level, x, y) && Index(level.width, x, y) == i
      ensures x == i % level.width && y == i / level.width
    {
      IndexInjective(level.width, x, y, i % level.width, i / level.width);
    }
  }

  //----------------------------------------------------------------------
  // start_level
  //----------------------------------------------------------------------

  /** Installs `level` and puts the player on its start position. */
  method StartLevel(game: Game, level: Level)
    modifies game
    ensures game.level == level
    ensures game.x == level.startX && game.y == level.startY
    ensures game.quit == old(game.quit)
  {
    game.level := level;
    game.x := level.startX;
    game.y := level.startY;
  }

  //----------------------------------------------------------------------
  // count_chars_until
  //----------------------------------------------------------------------

  /** strlen: the position of the first NUL, or the whole buffer when it
      holds none. */
  function CLength(s: string): (n: nat)
    ensures n <= |s|
    ensures '\0' !in s[..n]
    ensures n < |s| ==> s[n] == '\0'
  {
    if s == [] || s[0] == '\0' then 0
    else
      var n := 1 + CLength(s[1..]);
      assert s[..n] == [s[0]] + s[1..][..n - 1];
      n
  }

  /** Counts characters up to and including the first `c`, or up to the
      end of the C string when `c` does not occur before it. */
  method CountCharsUntil(s: string, c: char) returns (n: nat)
    ensures n <= CLength(s)
    ensures c in s[..CLength(s)] ==> 0 < n && s[n - 1] == c && c !in s[..n - 1]
    ensures c !in s[..CLength(s)] ==> n == CLength(s)
  {
    n := 0;
    while n < |s| && s[n] != '\0'
      invariant n <= CLength(s)
      invariant c !in s[..n]
    {
      n := n + 1;
      if s[n - 1] == c {
        return;
      }
      assert s[..n] == s[..n - 1] + [s[n - 1]];
    }
    assert s[..CLength(s)] == s[..n];
  }

  //----------------------------------------------------------------------
  // parse_level
  //----------------------------------------------------------------------

  /** input[y][x] as C reads it: past the end of the row it meets the
      row's NUL terminator. */
  function CharAt(input: seq<string>, x: nat, y: nat): char
    requires y < |input|
  {
    if x < |input[y]| then input[y][x] else '\0'
  }

  /** The characters a level may contain. */
  predicate Accepted(c: char) {
    c == '#' || c == ' '
  }

  /** The object parse_level stores for an accepted character: the zeroed
      cell, with its type set to BOUNDARY for '#'. */
  function ParsedObject(input: seq<string>, x: nat, y: nat): GameObject
    requires y < |input|
  {
    if CharAt(input, x, y) == '#' then Blank.(kind := Boundary) else Blank
  }

  /** Every character of the `width x height` rectangle is accepted. */
  predicate WellFormed(input: seq<string>, width: nat, height: nat)
    requires height <= |input|
  {
    forall x: nat, y: nat :: x < width && y < height ==> Accepted(CharAt(input, x, y))
  }

  /** `level` is the grid that `input` describes. */
  predicate ParsedFrom(level: Level, input: seq<string>, width: nat, height: nat)
    requires height <= |input|
  {
    level.width == width && level.height == height && level.Valid() &&
    forall x: nat, y: nat :: x < width && y < height ==> World(level, x, y) == ParsedObject(input, x, y)
  }

  /** (x1, y1) comes before (x2, y2) in the row-major scan. */
  predicate Before(x1: int, y1: int, x2: int, y2: int) {
    y1 < y2 || (y1 == y2 && x1 < x2)
  }

  /** A parsed level, or the first character that fails the assertion. */
  datatype ParseResult = Parsed(level: Level) | BadChar(x: nat, y: nat, c: char)

  /** The objects of rows before y are parsed and the rest still zeroed. */
  ghost predicate FilledBefore(objects: seq<GameObject>, input: seq<string>, width: nat, height: nat, y: int)
    requires height <= |input| && |objects| == width * height
  {
    IndexInRangeAll(width, height);
    forall x': nat, y': nat :: x' < width && y' < height ==>
      objects[Index(width, x', y')] == if y' < y then ParsedObject(input, x', y') else Blank
  }

  /** The inner loop of parse_level: the cells of row y, left to right.
      Stops at the first rejected character and reports its column. */
  method ParseRow(objects: array<GameObject>, input: seq<string>, width: nat, height: nat, y: nat)
    returns (fine: bool, badX: nat)
    requires y < height <= |input| && objects.Length == width * height
    requires FilledBefore(objects[..], input, width, height, y)
    requires forall i :: 0 <= i < objects.Length ==> objects[i].userData == 0
    modifies objects
    ensures forall i :: 0 <= i < objects.Length ==> objects[i].userData == 0
    ensures fine ==> FilledBefore(objects[..], input, width, height, y + 1)
    ensures fine ==> forall x': nat :: x' < width ==> Accepted(CharAt(input, x', y))
    ensures !fine ==> badX < width && !Accepted(CharAt(input, badX, y))
    ensures !fine ==> forall x': nat :: x' < badX ==> Accepted(CharAt(input, x', y))
  {
    IndexInRangeAll(width, height);
    for x := 0 to width
      invariant forall x': nat :: x' < x ==> Accepted(CharAt(input, x', y))
      invariant forall x': nat, y': nat :: x' < width && y' < height ==>
        objects[Index(width, x', y')] == if Before(x', y', x, y) then ParsedObject(input, x', y') else Blank
      invariant forall i :: 0 <= i < objects.Length ==> objects[i].userData == 0
    {
      var i := Index(width, x, y);
      forall x': nat, y': nat | x' < width && y' < height && (x', y') != (x, y)
        ensures Index(width, x', y') != i
      {
        IndexInjective(width, x', y', x, y);
      }
      var c := CharAt(input, x, y);
      if c == '#' {
        objects[i] := objects[i].(kind := Boundary);
      } else if c == ' ' {
      } else {
        return false, x;
      }
    }
    return true, 0;
  }

  /** Builds a level from `height` rows of `width` characters: '#' is a
      BOUNDARY, ' ' is EMPTY, and any other character is fatal. */
  method ParseLevel(input: seq<string>, width: nat, height: nat) returns (r: ParseResult)
    requires height <= |input|
    ensures r.Parsed? <==> WellFormed(input, width, height)
    ensures r.Parsed? ==> ParsedFrom(r.level, input, width, height)
    ensures r.Parsed? ==> r.level.startX == 0 && r.level.startY == 0
    ensures r.Parsed? ==> forall i :: 0 <= i < |r.level.objects| ==> r.level.objects[i].userData == 0
    ensures r.BadChar? ==> r.x < width && r.y < height && r.c == CharAt(input, r.x, r.y) && !Accepted(r.c)
    ensures r.BadChar? ==> forall x: nat, y: nat ::
      x < width && y < height && Before(x, y, r.x, r.y) ==> Accepted(CharAt(input, x, y))
  {
    var objects := new GameObject[width * height](_ => Blank);
    assert FilledBefore(objects[..], input, width, height, 0) by {
      IndexInRangeAll(width, height);
    }
    for y := 0 to height
      invariant forall x': nat, y': nat :: x' < width && y' < y ==> Accepted(CharAt(input, x', y'))
      invariant FilledBefore(objects[..], input, width, height, y)
      invariant forall i :: 0 <= i < objects.Length ==> objects[i].userData == 0
    {
      var fine, badX := ParseRow(objects, input, width, height, y);
      if !fine {
        return BadChar(badX, y, CharAt(input, badX, y));
      }
      assert FilledBefore(objects[..], input, width, height, y + 1);
    }
    r := Parsed(Level(objects[..], width, height, 0, 0));
    assert FilledBefore(objects[..], input, width, height, height);
  }

  //----------------------------------------------------------------------
  // The two levels written out in game.c
  //----------------------------------------------------------------------

  const LevelRows: seq<string> := [
    "    #     ",
    "    #   ##",
    "    #   ##",
    "    ##  ##",
    "          "
  ]

  const BombLevelRows: seq<string> := [
    "          ",
    "##########",
    "    @     ",
    "##########",
    "          "
  ]

  /** LEVEL, the level main loads, is a rectangle of 5 rows whose first row
      is 10 characters long, and parse_level accepts it. */
  lemma LevelAccepted()
    ensures |LevelRows| == 5 && CLength(LevelRows[0]) == 10
    ensures WellFormed(LevelRows, 10, 5)
  {
    forall y: nat | y < 5
      ensures |LevelRows[y]| == 10 && forall x :: 0 <= x < 10 ==> Accepted(LevelRows[y][x])
    {
    }
  }

  /** BOMB_LEVEL holds a '@', which parse_level rejects. */
  lemma BombLevelRejected()
    ensures !WellFormed(BombLevelRows, 10, 5)
  {
    assert CharAt(BombLevelRows, 4, 2) == '@';
  }
}
