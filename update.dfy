/** update.c: which cells the player may enter, the input step, and what
    happens when the player stands on an object. */
module Update {
  import opened Framework
  import opened Levels
  import opened LinearAlgebra

  /** check_boundary: a cell can be entered when it lies inside the level
      and is not a BOUNDARY. */
  function CheckBoundary(level: Level, x: int, y: int): (ok: bool)
    requires level.Valid()
    ensures (x < 0 || x >= level.width) ==> !ok
    ensures (y < 0 || y >= level.height) ==> !ok
    ensures InBounds(level, x, y) ==> (ok <==> World(level, x, y).kind != Boundary)
  {
    if x < 0 || x >= level.width then false
    else if y < 0 || y >= level.height then false
    else World(level, x, y).kind != Boundary
  }

  //----------------------------------------------------------------------
  // handle_input
  //----------------------------------------------------------------------

  /** The part of Game that handle_input may change. */
  datatype Player = Player(x: int, y: int, quit: bool)

  /** The state after one command, and handle_input's return value. */
  datatype Turn = Turn(player: Player, returned: bool)

  predicate IsMove(command: int) {
    command == 'w' as int || command == 'a' as int || command == 's' as int || command == 'd' as int
  }

  /** The cell a movement key aims at: w up, a left, s down, d right. */
  function Destination(x: int, y: int, command: int): (int, int)
    requires IsMove(command)
  {
    if command == 'w' as int then (x, y - 1)
    else if command == 'a' as int then (x - 1, y)
    else if command == 's' as int then (x, y + 1)
    else (x + 1, y)
  }

  /** What handle_input does with one command. `q` sets quit and returns
      true; a movement key moves the player one cell when check_boundary
      allows the destination; everything else is ignored. */
  function InputEffect(level: Level, p: Player, command: int): (t: Turn)
    requires level.Valid()
    ensures t.returned <==> command == 'q' as int
    ensures t.player.quit <==> p.quit || command == 'q' as int
    ensures IsMove(command) ==>
      var (dx, dy) := Destination(p.x, p.y, command);
      (t.player.x, t.player.y) == if CheckBoundary(level, dx, dy) then (dx, dy) else (p.x, p.y)
    ensures !IsMove(command) ==> t.player.x == p.x && t.player.y == p.y
    ensures Abs(t.player.x - p.x) + Abs(t.player.y - p.y) <= 1
    ensures CheckBoundary(level, p.x, p.y) ==> CheckBoundary(level, t.player.x, t.player.y)
  {
    if command == 'q' as int then Turn(p.(quit := true), true)
    else if command == 'w' as int then
      Turn(if CheckBoundary(level, p.x, p.y - 1) then p.(y := p.y - 1) else p, false)
    else if command == 'a' as int then
      Turn(if CheckBoundary(level, p.x - 1, p.y) then p.(x := p.x - 1) else p, false)
    else if command == 's' as int then
      Turn(if CheckBoundary(level, p.x, p.y + 1) then p.(y := p.y + 1) else p, false)
    else if command == 'd' as int then
      Turn(if CheckBoundary(level, p.x + 1, p.y) then p.(x := p.x + 1) else p, false)
    else Turn(p, false)
  }

  /** handle_input: applies one command to the game in place. */
  method HandleInput(game: Game, command: int) returns (r: bool)
    requires game.Valid()
    modifies game
    ensures game.level == old(game.level)
    ensures Turn(Player(game.x, game.y, game.quit), r)
         == InputEffect(old(game.level), Player(old(game.x), old(game.y), old(game.quit)), command)
  {
    if command == 'q' as int {
      game.quit := true;
      return true;
    } else if command == 'w' as int {
      if CheckBoundary(game.level, game.x, game.y - 1) {
        game.y := game.y - 1;
      }
    } else if command == 'a' as int {
      if CheckBoundary(game.level, game.x - 1, game.y) {
        game.x := game.x - 1;
      }
    } else if command == 's' as int {
      if CheckBoundary(game.level, game.x, game.y + 1) {
        game.y := game.y + 1;
      }
    } else if command == 'd' as int {
      if CheckBoundary(game.level, game.x + 1, game.y) {
        game.x := game.x + 1;
      }
    }
    return false;
  }

  /** The main loop's use of handle_input: commands are applied in order
      until one of them sets quit. */
  function Play(level: Level, p: Player, commands: seq<int>): (r: Player)
    requires level.Valid()
    ensures p.quit ==> r == p
    ensures Abs(r.x - p.x) + Abs(r.y - p.y) <= |commands|
    decreases |commands|
  {
    if p.quit || commands == [] then p
    else Play(level, InputEffect(level, p, commands[0]).player, commands[1..])
  }

  /** A player who stands on an enterable cell still does after any
      sequence of commands. */
  lemma {:induction false} PlayKeepsStanding(level: Level, p: Player, commands: seq<int>)
    requires level.Valid() && CheckBoundary(level, p.x, p.y)
    ensures CheckBoundary(level, Play(level, p, commands).x, Play(level, p, commands).y)
    decreases |commands|
  {
    if !p.quit && commands != [] {
      PlayKeepsStanding(level, InputEffect(level, p, commands[0]).player, commands[1..]);
    }
  }

  /** Starting from a running game, the loop ends exactly when the
      commands contain a `q`. */
  lemma {:induction false} PlayQuitsOnQ(level: Level, p: Player, commands: seq<int>)
    requires level.Valid() && !p.quit
    ensures Play(level, p, commands).quit <==> 'q' as int in commands
    decreases |commands|
  {
    if commands != [] && commands[0] != 'q' as int {
      assert commands == [commands[0]] + commands[1..];
      PlayQuitsOnQ(level, InputEffect(level, p, commands[0]).player, commands[1..]);
    }
  }

  /** main loads LEVEL, whose first row gives the width, into a zeroed
      game: the player starts at (0, 0) on an enterable cell and stays on
      one whatever is typed. */
  lemma MainStartsStanding(level: Level, commands: seq<int>)
    requires ParsedFrom(level, LevelRows, 10, 5) && level.startX == 0 && level.startY == 0
    ensures CLength(LevelRows[0]) == 10 && WellFormed(LevelRows, 10, 5)
    ensures CheckBoundary(level, level.startX, level.startY)
    ensures CheckBoundary(level, Play(level, Player(0, 0, false), commands).x, Play(level, Player(0, 0, false), commands).y)
  {
    LevelAccepted();
    assert World(level, 0, 0) == ParsedObject(LevelRows, 0, 0);
    PlayKeepsStanding(level, Player(0, 0, false), commands);
  }

  //----------------------------------------------------------------------
  // handle_player_collision and update
  //----------------------------------------------------------------------

  /** The objects that send the player back to the level start: a running
      soldier, or a bomb whose timer has run out. */
  predicate Deadly(obj: GameObject) {
    obj.kind == RunningSoldier || (obj.kind == CountdownBomb && obj.userData <= 0)
  }

  /** handle_player_collision: restarts the level when the player's cell
      holds a deadly object; on EMPTY, BOUNDARY, a ticking bomb or an
      unlisted type nothing changes. */
  method HandlePlayerCollision(game: Game)
    requires game.Valid()
    requires 0 <= Index(game.level.width, game.x, game.y) < |game.level.objects|
    modifies game
    ensures game.level == old(game.level) && game.quit == old(game.quit)
    ensures Deadly(old(game.level.objects[Index(game.level.width, game.x, game.y)])) ==>
      game.x == game.level.startX && game.y == game.level.startY
    ensures !Deadly(old(game.level.objects[Index(game.level.width, game.x, game.y)])) ==>
      game.x == old(game.x) && game.y == old(game.y)
  {
    var collider := game.level.objects[Index(game.level.width, game.x, game.y)];
    match collider.kind
    case Empty =>
    case Boundary =>
    case RunningSoldier =>
      StartLevel(game, game.level);
    case CountdownBomb =>
      if collider.userData <= 0 {
        StartLevel(game, game.level);
      }
    case Unlisted(_) =>
  }

  /** update: the per-turn step, which is only the collision rule. */
  method Update(game: Game)
    requires game.Valid()
    requires 0 <= Index(game.level.width, game.x, game.y) < |game.level.objects|
    modifies game
    ensures game.level == old(game.level) && game.quit == old(game.quit)
    ensures Deadly(old(game.level.objects[Index(game.level.width, game.x, game.y)])) ==>
      game.x == game.level.startX && game.y == game.level.startY
    ensures !Deadly(old(game.level.objects[Index(game.level.width, game.x, game.y)])) ==>
      game.x == old(game.x) && game.y == old(game.y)
  {
    HandlePlayerCollision(game);
  }
}
