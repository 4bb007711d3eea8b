# mindsweeper core, modelled in Dafny

A terminal tile-grid game. A level is a `width x height` grid of objects
(`EMPTY`, `BOUNDARY`, `RUNNING_SOLDIER`, `COUNTDOWN_BOMB`, each with an integer
`user_data`), addressed as `y*width + x`. The player moves with `w`/`a`/`s`/`d`
onto any in-bounds cell that is not a boundary, `q` quits, and the grid is drawn
as text with `^` on the player's cell.

The project models:

- `la.dfy` (module `LinearAlgebra`, from `la.h`): `Vec2`, `SIGN`, `ABS`, `MAX`,
  `MIN`, the componentwise comparisons, arithmetic and scalar operators (C's
  truncating `/` and `%` written out), `v2_sqr`, `v2_dst` and `v2_sgn`.
- `framework.dfy` (module `Framework`, from `framework.h`): the object, level and
  game types. `Game` is a class whose fields the operations update in place.
- `game.dfy` (module `Levels`, from `game.c`): the `WORLD` addressing,
  `start_level`, `count_chars_until` and `parse_level`.
- `update.dfy` (module `Update`, from `update.c`): `check_boundary`,
  `handle_input`, `handle_player_collision` and `update`; also the main loop's
  repeated use of `handle_input` as a pure function `Play`.
- `render.dfy` (module `Render`, from `render.c`): `render_game_object` and
  `render`, which returns the frame as a `seq<char>` instead of writing it.

The C functions take a `Game *`; in the model they are module-level methods
that take a `Game` object and declare `modifies game`. `check_boundary` reads
only the level, so it takes the `Level`. Three methods are proved against pure
specifications: `HandleInput` against `InputEffect`, `ParseLevel` against
`ParsedFrom` and `Render` against `Frame`; the properties are proved about
those functions. `StartLevel`, `HandlePlayerCollision` and `Update` give the
game's new fields directly in their ensures.

## Notes on the code

- `update` (and so `handle_player_collision`) is never called by the main loop
  (main.c:62-69). It is modelled as a standalone operation.
- The main loop passes `fgetc`'s `EOF` (-1) to `handle_input`, which ignores
  it, so the loop never ends at end of input. In `Play` a -1 command changes
  nothing, like any other unknown command.
- `render_game_object` asserts only `user_data <= 9`. A bomb with a negative
  timer prints the byte `'0' + user_data`; for example -13 prints `#`.

## Model

| member | source | states |
|---|---|---|
| `LinearAlgebra.Sign` | la.h:24 | the result is -1, 0 or 1 exactly when the argument is negative, zero or positive |
| `LinearAlgebra.Abs` | la.h:25 | `SIGN(x)*x` is non-negative, equals `x` or `-x`, and is zero only for zero: the absolute value |
| `LinearAlgebra.Max` | la.h:26 | returns one of its arguments and is at least both |
| `LinearAlgebra.Min` | la.h:27 | returns one of its arguments and is at most both |
| `LinearAlgebra.Eql` | la.h:36 | `v2_eql` holds exactly when the two vectors are equal |
| `LinearAlgebra.Neq` | la.h:37 | `v2_neq` holds exactly when both components differ, which implies the vectors are not equal |
| `LinearAlgebra.NeqIsNotNegatedEql` | la.h:36-37 | some pair of vectors satisfies neither `v2_eql` nor `v2_neq`, so they are not complements |
| `LinearAlgebra.Gte` | la.h:39 | `v2_gte(a, b)` holds exactly when `a` is the componentwise maximum of `a` and `b` |
| `LinearAlgebra.Gtr` | la.h:38 | `v2_gtr(a, b)` holds exactly when `a` is at least `b + 1` in both components, and implies `v2_neq` |
| `LinearAlgebra.Lss` | la.h:40 | `v2_lss(a, b)` is `v2_gtr(b, a)` |
| `LinearAlgebra.Lte` | la.h:41 | `v2_lte(a, b)` is `v2_gte(b, a)` |
| `LinearAlgebra.ComparisonsAreProductOrder` | la.h:38-41 | `v2_gte` is reflexive, transitive and antisymmetric (both ways is `v2_eql`), and `v2_gtr` excludes `v2_lte` |
| `LinearAlgebra.Add` | la.h:46 | subtracting either operand from `v2_add(a, b)` gives back the other |
| `LinearAlgebra.Sub` | la.h:47 | `v2_sub(a, b)` is the zero vector exactly when `a == b` |
| `LinearAlgebra.Mul` | la.h:48 | each component of `v2_mul` has the product of the operands' signs and the product of their magnitudes |
| `LinearAlgebra.TruncDiv` | la.h:49 | C's `/`: the quotient's magnitude is `abs(a) / abs(b)`, and it is zero or has the sign `sign(a)*sign(b)` (truncation toward zero) |
| `LinearAlgebra.TruncRem` | la.h:50 | C's `%`: the remainder is smaller than the divisor in magnitude, and zero or of the dividend's sign |
| `LinearAlgebra.Div` | la.h:49 | each component of `v2_div` has magnitude `abs(a) / abs(b)` |
| `LinearAlgebra.Rem` | la.h:50 | each component of `v2_rem` is smaller than the divisor's in magnitude |
| `LinearAlgebra.AddS` | la.h:55 | `v2_adds(a, s)` is `v2_add(a, (s, s))` |
| `LinearAlgebra.SubS` | la.h:56 | `v2_subs(a, s)` is `v2_sub(a, (s, s))` |
| `LinearAlgebra.MulS` | la.h:57 | `v2_muls(a, s)` is `v2_mul(a, (s, s))` |
| `LinearAlgebra.DivS` | la.h:58 | `v2_divs(a, s)` is `v2_div(a, (s, s))` |
| `LinearAlgebra.RemS` | la.h:59 | `v2_rems(a, s)` is `v2_rem(a, (s, s))` |
| `LinearAlgebra.AddUndoesSub` | la.h:46-47 | `v2_add` undoes `v2_sub` |
| `LinearAlgebra.TruncDivision` | la.h:49-50 | C division per component: `a == b*(a/b) + a%b` |
| `LinearAlgebra.TruncAgreesOnNaturals` | la.h:49-50 | for a non-negative dividend and positive divisor, truncating division agrees with Euclidean division |
| `LinearAlgebra.DivRemRecombine` | la.h:48-50 | `v2_mul(b, v2_div(a, b)) + v2_rem(a, b) == a` for divisors with no zero component |
| `LinearAlgebra.Sqr` | la.h:64 | each component of `v2_sqr` is the square of the input component's magnitude: non-negative, and zero exactly when the input component is |
| `LinearAlgebra.Dst` | la.h:65 | `v2_dst` is the sum of the squared component differences; it is non-negative and zero exactly when the two vectors are equal |
| `LinearAlgebra.DstSymmetric` | la.h:65 | `v2_dst(a, b) == v2_dst(b, a)` |
| `LinearAlgebra.Sgn` | la.h:66 | each component of `v2_sgn` is in {-1, 0, 1} and is zero exactly when the input component is, and `sgn(a)*a` is the componentwise absolute value |
| `Framework.Game.constructor` | main.c:58 | a zero-initialised game is not quitting, has the player at (0, 0) and an empty 0x0 level |
| `Levels.Index` | game.c:3 | for `0 <= x < width` and `y >= 0`, the index `y*width + x` lies in row `y`'s block `[y*width, (y+1)*width)` |
| `Levels.WorldCovers` | game.c:3 | `WORLD` addressing is onto and one-to-one: every cell of the array is what `WORLD` reads at `(i % width, i / width)`, an in-bounds position, and at no other in-bounds position |
| `Levels.IndexInRange` | game.c:3 | for `0 <= x < width` and `0 <= y < height`, `y*width + x` lies in `[0, width*height)` |
| `Levels.IndexInjective` | game.c:3 | two positions with columns in `[0, width)` and the same index are the same position |
| `Levels.IndexCovers` | game.c:3 | every index in `[0, width*height)` is the index of the in-bounds cell `(i % width, i / width)` |
| `Levels.StartLevel` | game.c:34-39 | the game holds the given level, the player is on its start position, and `quit` is unchanged |
| `Levels.CLength` | game.c:44 | the length of a C string: no NUL before it, and a NUL at it unless the buffer ends there |
| `Levels.CountCharsUntil` | game.c:41-49 | returns `k+1` for the first `k` with `s[k] == c` before the terminator, otherwise `strlen(s)`; never more than `strlen(s)` |
| `Levels.ParseRow` | game.c:60-71 | one row, left to right: on success every character of the row is accepted and the row's cells are BOUNDARY for `#` and EMPTY for space, earlier rows kept and later rows still zeroed; otherwise it names a rejected column with every column before it accepted |
| `Levels.ParseLevel` | game.c:51-76 | succeeds exactly when every character of the rectangle is `#` or space; the level then has the given size, `width*height` cells, start (0, 0), every `user_data` 0, and cell (x, y) is BOUNDARY for `#` and EMPTY for space; on failure it names the first offending character in row-major order |
| `Levels.BombLevelRejected` | game.c:8-14 | `BOMB_LEVEL`, which holds a `@`, is not a well-formed level |
| `Levels.LevelAccepted` | game.c:16-22 | `LEVEL` has 5 rows, its first row's `strlen` is 10, and it is a well-formed 10x5 level |
| `Update.CheckBoundary` | update.c:26-31 | false for any `x` outside `[0, width)` or `y` outside `[0, height)`; for in-bounds cells, true exactly when the cell is not BOUNDARY |
| `Update.InputEffect` | update.c:33-61 | returns true exactly for `q`, which sets quit; `w`/`a`/`s`/`d` move one cell up/left/down/right exactly when `check_boundary` allows the destination; other commands change nothing; the player moves at most one cell and stays on an enterable cell |
| `Update.HandleInput` | update.c:33-61 | the game's new position, quit flag and return value are those of `InputEffect`, and the level is unchanged |
| `Update.Play` | main.c:62-69 | once quit is set the commands change nothing, and after `n` commands the player is at most `n` cells (Manhattan distance) from the start |
| `Update.PlayKeepsStanding` | main.c:62-69 | a player on an enterable cell is still on one after any sequence of commands |
| `Update.PlayQuitsOnQ` | main.c:62-69 | from a running game, the loop of commands ends in quit exactly when the commands contain `q` |
| `Update.MainStartsStanding` | main.c:58-69 | with `LEVEL` parsed at width `strlen(LEVEL[0])` and loaded into a zeroed game, the player starts on an enterable cell and is still on one after any commands |
| `Update.HandlePlayerCollision` | update.c:4-24 | on a RUNNING_SOLDIER, or a COUNTDOWN_BOMB with `user_data <= 0`, the player goes back to the level start; otherwise the position is unchanged; level and quit never change |
| `Update.Update` | update.c:63-66 | the same effect as `handle_player_collision` |
| `Render.RenderGameObject` | render.c:1-13 | EMPTY and unlisted types show a space, BOUNDARY `#`, RUNNING_SOLDIER `!`; a bomb shows the byte `'0' + timer` modulo 256, which for a timer 0..9 is the digit whose value is the timer; a timer above 9 is excluded |
| `Render.RowPrefix` | render.c:18-27 | the first `n` characters of a row are the glyphs of its first `n` cells |
| `Render.RowsLength` | render.c:17-29 | the first `n` rows of output take `n*(width+1)` characters |
| `Render.RowsAt` | render.c:17-29 | character `y*(width+1)+x` of the output is the glyph of cell (x, y), and column `width` is the newline |
| `Render.FrameLength` | render.c:17-29 | the frame is `height*(width+1)` characters long |
| `Render.FrameAt` | render.c:19-28 | the player's cell shows `^` whatever it holds, every other cell shows `render_game_object` of its object, and each row ends with a newline |
| `Render.Render` | render.c:15-30 | the characters emitted by the nested loops are exactly the frame of the current state |
| `Render.RenderTwice` | render.c:15 | rendering the same state twice gives identical output |
| `Render.RowsLongEnough` | game.c:63-70 | a level that parses has every row at least `width` long, since a short row's terminator is rejected |
| `Render.ParsedRenderable` | game.c:59-73 | a parsed level holds no bombs, so it can be rendered with the player anywhere |
| `Render.ParsedLevelRendersItsText` | render.c:15-30 | rendering a level parsed from some rows prints those rows back, each cut to `width` and ended by a newline, with `^` on the player's cell when it is inside the grid |

## Left out

- Terminal handling in main.c: raw mode (termios, and the Windows console
  calls), `isatty`, the blocking `fgetc` and the ANSI cursor movements. Only the
  loop's use of `handle_input` is modelled, as `Play` over a given sequence of
  commands.
- Output to stdout: `Render` returns the characters that `render` would print.
- `calloc` and its failure: `ParseLevel` starts from a fresh zeroed array.
- Machine integer widths: `int` and `size_t` are unbounded, so overflow in
  `y*width + x`, in `width*height` and in the vector arithmetic and squaring is
  not modelled.
- Division by zero in `v2_div`, `v2_rem`, `v2_divs`, `v2_rems`: it is undefined
  in C, so the model requires non-zero divisors.
- Aliasing of the cell array: `Game_Level` holds a pointer that `start_level`
  copies, but nothing in this code writes cells after parsing, so a level holds
  its cells as a value.
- The static `first_level` and its backing array, and the `WIDTH`/`HEIGHT`
  constants (game.c:5-6, game.c:24-32): data, not logic, and unused by the
  loop. `LEVEL` and `BOMB_LEVEL` appear only as the inputs of `LevelAccepted`,
  `MainStartsStanding` and `BombLevelRejected`.
- `Render.RenderGameObject`: a timer above 9 fails an assertion in C; the model
  makes it a precondition rather than a modelled abort.
- `Levels.ParseLevel`: rows shorter than `width` are read up to their
  terminator, which is rejected; reading beyond a terminator (undefined in C)
  never happens in the model because parsing stops at the first rejected
  character. Passing fewer than `height` rows is undefined in C and is a
  precondition.
- The la.h macros write their results into an output vector `r` that the
  caller passes; the model returns the vector instead, so `v2_dst` leaving the
  squared differences in `r` is not modelled. Arguments are taken as
  already-evaluated values: `MAX` and `MIN` evaluating the chosen argument twice,
  and `SCALAR2`, `MAX` and `MIN` not parenthesising their arguments, are not
  modelled.
- Strings are sequences of Dafny `char`s, each standing for one C byte.
  `count_chars_until` counts bytes, so on text with multi-byte characters
  `CountCharsUntil` counts characters, not bytes.
