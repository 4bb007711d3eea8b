/** render.c: the glyph of each object and the text frame of the whole
    grid. The frame is returned as a sequence of characters instead of being
    written to stdout one character at a time. */
module Render {
  import opened Framework
  import opened Levels

  /** render_game_object. A bomb shows its timer as a digit; '0' + timer is
      narrowed to a char, modelled as the low byte, so a negative timer
      prints the byte congruent to '0' + timer modulo 256. A timer above 9
      fails the assertion, so it is a precondition. */
  function RenderGameObject(obj: GameObject): (c: char)
    requires obj.kind == CountdownBomb ==> obj.userData <= 9
    ensures obj.kind == Empty || obj.kind.Unlisted? ==> c == ' '
    ensures obj.kind == Boundary ==> c == '#'
    ensures obj.kind == RunningSoldier ==> c == '!'
    ensures obj.kind == CountdownBomb && 0 <= obj.userData ==>
      '0' <= c <= '9' && c as int - '0' as int == obj.userData
    ensures obj.kind == CountdownBomb ==>
      c as int < 256 && (c as int - '0' as int - obj.userData) % 256 == 0
  {
    match obj.kind
    case Empty => ' '
    case Boundary => '#'
    case RunningSoldier => '!'
    case CountdownBomb => ((('0' as int) + obj.userData) % 256) as char
    case Unlisted(_) => ' '
  }

  /** Every bomb that render draws (all but the one under the player) has a
      timer of at most 9. */
  predicate Renderable(level: Level, px: int, py: int)
    requires level.Valid()
  {
    forall x, y ::
      (0 <= x < level.width && 0 <= y < level.height && !(x == px && y == py) &&
       World(level, x, y).kind == CountdownBomb) ==> World(level, x, y).userData <= 9
  }

  /** The character drawn for cell (x, y): '^' on the player's cell. */
  function Glyph(level: Level, px: int, py: int, x: int, y: int): char
    requires level.Valid() && Renderable(level, px, py) && InBounds(level, x, y)
  {
    if x == px && y == py then '^' else RenderGameObject(World(level, x, y))
  }

  /** The first n glyphs of row y. */
  function RowPrefix(level: Level, px: int, py: int, y: int, n: nat): (r: seq<char>)
    requires level.Valid() && Renderable(level, px, py)
    requires 0 <= y < level.height && n <= level.width
    ensures |r| == n
    ensures forall x :: 0 <= x < n ==> r[x] == Glyph(level, px, py, x, y)
  {
    if n == 0 then [] else RowPrefix(level, px, py, y, n - 1) + [Glyph(level, px, py, n - 1, y)]
  }

  /** The first n rows of the frame, each ended by a newline. */
  function Rows(level: Level, px: int, py: int, n: nat): seq<char>
    requires level.Valid() && Renderable(level, px, py) && n <= level.height
  {
    if n == 0 then []
    else Rows(level, px, py, n - 1) + RowPrefix(level, px, py, n - 1, level.width) + ['\n']
  }

  /** What render prints for the player at (px, py). */
  function Frame(level: Level, px: int, py: int): seq<char>
    requires level.Valid() && Renderable(level, px, py)
  {
    Rows(level, px, py, level.height)
  }

  lemma {:induction false} RowsLength(level: Level, px: int, py: int, n: nat)
    requires level.Valid() && Renderable(level, px, py) && n <= level.height
    ensures |Rows(level, px, py, n)| == n * (level.width + 1)
  {
    if n > 0 {
      RowsLength(level, px, py, n - 1);
      assert |Rows(level, px, py, n)| == |Rows(level, px, py, n - 1)| + (level.width + 1);
      assert (n - 1) * (level.width + 1) + (level.width + 1) == n * (level.width + 1);
    }
  }

  /** Character x of row y is at Index(width + 1, x, y): the frame is a
      grid of width + 1 columns whose last column is the newline. */
  lemma {:induction false} RowsAt(level: Level, px: int, py: int, n: nat, x: int, y: int)
    requires level.Valid() && Renderable(level, px, py) && n <= level.height
    requires 0 <= x <= level.width && 0 <= y < n
    ensures 0 <= Index(level.width + 1, x, y) < |Rows(level, px, py, n)|
    ensures Rows(level, px, py, n)[Index(level.width + 1, x, y)]
         == if x == level.width then '\n' else Glyph(level, px, py, x, y)
  {
    RowsLength(level, px, py, n - 1);
    if y < n - 1 {
      RowsAt(level, px, py, n - 1, x, y);
    } else {
      assert Index(level.width + 1, x, y) == |Rows(level, px, py, n - 1)| + x;
    }
  }

  /** The frame has `height` lines of `width` glyphs and a newline. */
  lemma FrameLength(level: Level, px: int, py: int)
    requires level.Valid() && Renderable(level, px, py)
    ensures |Frame(level, px, py)| == level.height * (level.width + 1)
  {
    RowsLength(level, px, py, level.height);
  }

  /** Every in-bounds cell shows '^' when the player is on it and its
      object's glyph otherwise; every line ends with a newline. */
  lemma FrameAt(level: Level, px: int, py: int, x: int, y: int)
    requires level.Valid() && Renderable(level, px, py) && InBounds(level, x, y)
    ensures 0 <= Index(level.width + 1, x, y) < |Frame(level, px, py)|
    ensures Frame(level, px, py)[Index(level.width + 1, x, y)]
         == if x == px && y == py then '^' else RenderGameObject(World(level, x, y))
    ensures 0 <= Index(level.width + 1, level.width, y) < |Frame(level, px, py)|
    ensures Frame(level, px, py)[Index(level.width + 1, level.width, y)] == '\n'
  {
    RowsAt(level, px, py, level.height, x, y);
    RowsAt(level, px, py, level.height, level.width, y);
  }

  /** render: walks the grid row by row and emits one glyph per cell and a
      newline per row. It reads the game and changes nothing. */
  method Render(game: Game) returns (out: seq<char>)
    requires game.Valid() && Renderable(game.level, game.x, game.y)
    ensures out == Frame(game.level, game.x, game.y)
  {
    out := [];
    for y := 0 to game.level.height
      invariant out == Rows(game.level, game.x, game.y, y)
    {
      for x := 0 to game.level.width
        invariant out == Rows(game.level, game.x, game.y, y) + RowPrefix(game.level, game.x, game.y, y, x)
      {
        ghost var row := RowPrefix(game.level, game.x, game.y, y, x + 1);
        assert row == RowPrefix(game.level, game.x, game.y, y, x) + [Glyph(game.level, game.x, game.y, x, y)];
        if x == game.x && y == game.y {
          out := out + ['^'];
        } else {
          var c := RenderGameObject(World(game.level, x, y));
          out := out + [c];
        }
      }
      out := out + ['\n'];
      assert out == Rows(game.level, game.x, game.y, y + 1);
    }
  }

  /** Rendering the same state twice prints the same frame. */
  method RenderTwice(game: Game) returns (first: seq<char>, second: seq<char>)
    requires game.Valid() && Renderable(game.level, game.x, game.y)
    ensures first == second
  {
    first := Render(game);
    second := Render(game);
  }

  //----------------------------------------------------------------------
  // Rendering a parsed level gives back its text
  //----------------------------------------------------------------------

  /** The first `width` characters of the first n rows, each followed by a
      newline. */
  function Text(input: seq<string>, width: nat, n: nat): (t: seq<char>)
    requires n <= |input| && forall y :: 0 <= y < n ==> width <= |input[y]|
    ensures |t| == n * (width + 1)
  {
    if n == 0 then [] else Text(input, width, n - 1) + input[n - 1][..width] + ['\n']
  }

  lemma {:induction false} TextAt(input: seq<string>, width: nat, n: nat, x: int, y: int)
    requires n <= |input| && forall y :: 0 <= y < n ==> width <= |input[y]|
    requires 0 <= x <= width && 0 <= y < n
    ensures 0 <= Index(width + 1, x, y) < |Text(input, width, n)|
    ensures Text(input, width, n)[Index(width + 1, x, y)] == if x == width then '\n' else input[y][x]
  {
    if y < n - 1 {
      TextAt(input, width, n - 1, x, y);
    } else {
      assert Index(width + 1, x, y) == |Text(input, width, n - 1)| + x;
    }
  }

  /** A well-formed input has every row at least `width` long, since the
      NUL at the end of a short row would be rejected. */
  lemma RowsLongEnough(input: seq<string>, width: nat, height: nat)
    requires height <= |input| && WellFormed(input, width, height)
    ensures forall y :: 0 <= y < height ==> width <= |input[y]|
  {
    forall y | 0 <= y < height
      ensures width <= |input[y]|
    {
      if width > 0 {
        assert Accepted(CharAt(input, width - 1, y));
      }
    }
  }

  /** A parsed level holds no bombs, so every player position renders. */
  lemma ParsedRenderable(level: Level, input: seq<string>, px: int, py: int)
    requires level.height <= |input| && ParsedFrom(level, input, level.width, level.height)
    ensures Renderable(level, px, py)
  {
  }

  /** One position of the frame of a parsed level. */
  lemma ParsedFrameAt(level: Level, input: seq<string>, px: int, py: int, x: int, y: int)
    requires level.height <= |input| && ParsedFrom(level, input, level.width, level.height)
    requires WellFormed(input, level.width, level.height)
    requires forall y :: 0 <= y < level.height ==> level.width <= |input[y]|
    requires Renderable(level, px, py)
    requires 0 <= x <= level.width && 0 <= y < level.height
    ensures 0 <= Index(level.width + 1, x, y) < |Frame(level, px, py)|
    ensures |Text(input, level.width, level.height)| == |Frame(level, px, py)|
    ensures Frame(level, px, py)[Index(level.width + 1, x, y)]
         == if x < level.width && x == px && y == py then '^'
            else Text(input, level.width, level.height)[Index(level.width + 1, x, y)]
  {
    FrameLength(level, px, py);
    RowsAt(level, px, py, level.height, x, y);
    TextAt(input, level.width, level.height, x, y);
    if x < level.width {
      assert World(level, x, y) == ParsedObject(input, x, y);
      assert Accepted(CharAt(input, x, y));
    }
  }

  /** One character of the frame of a parsed level, located by its index
      in the output. */
  lemma ParsedFrameIndex(level: Level, input: seq<string>, px: int, py: int, i: int)
    requires level.height <= |input| && WellFormed(input, level.width, level.height)
    requires ParsedFrom(level, input, level.width, level.height)
    requires forall y :: 0 <= y < level.height ==> level.width <= |input[y]|
    requires Renderable(level, px, py)
    requires 0 <= i < level.height * (level.width + 1)
    ensures |Frame(level, px, py)| == |Text(input, level.width, level.height)| == level.height * (level.width + 1)
    ensures Frame(level, px, py)[i]
         == if InBounds(level, px, py) && i == Index(level.width + 1, px, py) then '^'
            else Text(input, level.width, level.height)[i]
  {
    var w, h := level.width, level.height;
    IndexCovers(w + 1, h, i);
    var x, y := i % (w + 1), i / (w + 1);
    ParsedFrameAt(level, input, px, py, x, y);
    if InBounds(level, px, py) {
      IndexInjective(w + 1, x, y, px, py);
    }
  }

  /** `text` with '^' written over the player's cell when that cell is
      inside the grid. */
  function MarkPlayer(level: Level, text: seq<char>, px: int, py: int): (r: seq<char>)
    requires |text| == level.height * (level.width + 1)
    ensures |r| == |text|
  {
    if InBounds(level, px, py) then
      IndexInRange(level.width + 1, level.height, px, py);
      text[Index(level.width + 1, px, py) := '^']
    else text
  }

  /** Rendering a level that parse_level built from `input` prints the
      input's rows back, with '^' on the player's cell. */
  lemma ParsedLevelRendersItsText(level: Level, input: seq<string>, px: int, py: int)
    requires level.height <= |input| && WellFormed(input, level.width, level.height)
    requires ParsedFrom(level, input, level.width, level.height)
    ensures Renderable(level, px, py)
    ensures forall y :: 0 <= y < level.height ==> level.width <= |input[y]|
    ensures Frame(level, px, py) == MarkPlayer(level, Text(input, level.width, level.height), px, py)
  {
    var w, h := level.width, level.height;
    ParsedRenderable(level, input, px, py);
    RowsLongEnough(input, w, h);
    FrameLength(level, px, py);
    var frame, text := Frame(level, px, py), Text(input, w, h);
    if InBounds(level, px, py) {
      IndexInRange(w + 1, h, px, py);
      var p := Index(w + 1, px, py);
      forall i | 0 <= i < |frame|
        ensures frame[i] == text[p := '^'][i]
      {
        ParsedFrameIndex(level, input, px, py, i);
      }
      assert frame == text[p := '^'];
    } else {
      forall i | 0 <= i < |frame|
        ensures frame[i] == text[i]
      {
        ParsedFrameIndex(level, input, px, py, i);
      }
      assert frame == text;
    }
  }
}
