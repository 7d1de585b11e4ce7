# Board layout of the Scavengers board manager, in Dafny

This project models the layout logic of `BoardManager`, the Unity script that
builds the tile board of a 2D dungeon level. The script has two ways to build
a board:

- **Randomised board.** `BoardSetup` covers the board and a one-cell ring
  around it with floor and outer-wall tiles. `InitialiseList` fills the list
  of free interior cells. `LayoutObjectAtRandom` picks a random number of
  objects and places each one on a cell removed from that list by
  `RandomPosition`, so no cell is used twice.
- **Level file.** `SetupScene` splits the level text into lines at `'\n'`.
  Each character (one UTF-16 code unit) becomes a floor tile. The letters
  `X`, `F`, `E` and `T`, in either case, add a wall, food, enemy or exit tile
  on the same cell.

Every operation is a pure function or a method over immutable values.
A tile is emitted as a `Placement(category, handle, pos)` record instead of
being instantiated. Each result of `UnityEngine.Random.Range` is a roll that
the caller supplies. A `requires` clause keeps each roll in the half-open
range the script passes to the engine. The rolls are grouped by call site:

- `CellRoll`: one per background cell.
- `ObjectRoll`: one per scattered object.
- `CharRoll`: one per level character.

Files, one module each:

- `board_types.dfy` (`BoardTypes`): cells, categories, placements, the prefab
  configuration, the `Count` range, the script's default settings, and facts
  about duplicate-free sequences.
- `grid_pool.dfy` (`GridPool`): the interior position list, built by
  `InitialiseList` and drawn from by `RandomPosition`.
- `random_board.dfy` (`RandomBoard`): `BoardSetup`, `LayoutObjectAtRandom`,
  and lemmas about drawing objects from one list.
- `level_layout.dfy` (`LevelLayout`): splitting the text, the symbol table,
  the line/column-to-cell map, and `SetupScene`.

Behaviour of the script that the model keeps, stated explicitly:

- The script has no guard for a draw from an empty position list: the
  engine's draw yields 0 and the list access is out of range. The model
  reports this as `Err(PoolExhausted)`.
- The script reads `.text` from the loaded asset without a null check, so a
  missing level asset throws. The model takes the loaded asset as an
  `Option<Text>` and reports `Err(LevelNotFound)` for `None`.
- Nothing in the script calls `BoardSetup` or `LayoutObjectAtRandom`:
  `SetupScene` uses only the level file. `RandomBoard.WallsThenFood` and
  `RandomBoard.DefaultBoardHasRoom` state what a walls-then-food pass over
  one position list guarantees.
- A level text that ends in `'\n'` splits into one more, empty, line.
  `SetupScene` counts that line in `lines.Length`, so every character moves
  up one row (`LevelLayout.SplitTrailingSeparator`).
- The level text is a .NET string, so `Length` and indexing count UTF-16
  code units. The model's text is a sequence of `CodeUnit` values
  (`0 <= x < 0x10000`). A character outside the Basic Multilingual Plane is
  a surrogate pair: two columns and two floor tiles, as in the script.

## Model

| member | source | states |
|---|---|---|
| `GridPool.InitialiseList` | Assets/Scripts/BoardManager.cs:48-62 | The list is rebuilt from nothing. It holds `max(0,columns-2) * max(0,rows-2)` cells. Every cell in it is interior (`1 <= x <= columns-2`, `1 <= y <= rows-2`). Every interior cell is in it. It is in strict column-major order, so it has no duplicates. |
| `GridPool.RandomPosition` | Assets/Scripts/BoardManager.cs:96-109 | Fails exactly when the list is empty. Otherwise it returns `pool[k]`, and the list shrinks by exactly one. Entries before `k` keep their index, and later ones move down by one. A cell was in the list iff it was drawn or is still in the list. |
| `GridPool.RandomPositionConserves` | Assets/Scripts/BoardManager.cs:99-105 | The remaining list plus the drawn cell equals the old list as a multiset. |
| `GridPool.RandomPositionKeepsInvariant` | Assets/Scripts/BoardManager.cs:99-105 | From a list of distinct interior cells, a draw returns an interior cell that is no longer in the list, and leaves a list of distinct interior cells. |
| `RandomBoard.BoardSetup` | Assets/Scripts/BoardManager.cs:67-92 | Emits exactly `max(0,columns+2)*max(0,rows+2)` tiles, one per cell of `[-1,columns] x [-1,rows]`. Every such cell appears, in loop order, and none repeats. A tile is an outer wall, taken from the outer-wall array by its roll, iff the cell is on the ring. Otherwise it is a floor tile from the floor array. There are `max(0,columns)*max(0,rows)` floor tiles (none when a dimension is negative) and the rest are outer walls. |
| `RandomBoard.SetupColumn` | Assets/Scripts/BoardManager.cs:76-90 | Appends one column: the tiles at `y = -1 .. rows` in order, each classified as above. It adds `rows` floor tiles for an interior column and none for a ring column. Earlier tiles are unchanged. |
| `RandomBoard.Scatter` | Assets/Scripts/BoardManager.cs:119-129 | Succeeds iff the list has at least as many cells as there are draws. The error is a pool exhaustion. It places one object per roll, each with the given category and the tile its roll picks. The first object stands on the cell its slot roll picks from the list. The list shrinks by the number placed. |
| `RandomBoard.ScatterMultiset` | Assets/Scripts/BoardManager.cs:119-122 | The drawn cells plus the remaining list equal the original list as multisets. |
| `RandomBoard.LayoutObjectAtRandom` | Assets/Scripts/BoardManager.cs:113-130 | The count roll lies in `[minimum, maximum+1)`, so `maximum` is reachable. On success it places `max(0,objectCount)` objects, which lies between `max(0,minimum)` and `max(0,maximum)`. All are of the given category, each with the handle its tile roll picks from the tile array, on cells taken from the list. The cells it draws plus the list it leaves make up the old list, as a multiset. The call succeeds iff `objectCount` is at most the list size. From a duplicate-free list, the cells are pairwise distinct and no longer in the list. |
| `RandomBoard.ScatterFromPool` | Assets/Scripts/BoardManager.cs:96-130 | Drawing N <= size times from a list of distinct interior cells succeeds. It yields N pairwise distinct interior cells and leaves a list of distinct interior cells. |
| `RandomBoard.WallsThenFood` | Assets/Scripts/BoardManager.cs:96-130 | A wall pass and then a food pass over the same list succeed when their counts fit. Every wall and food item gets its own interior cell. |
| `RandomBoard.DefaultBoardHasRoom` | Assets/Scripts/BoardManager.cs:28-33 | With the defaults (8 x 8 board, 5-9 walls, 1-5 food) and a list from `InitialiseList`, both passes always succeed, whatever counts are rolled. All objects land on distinct interior cells. |
| `LevelLayout.Split` | Assets/Scripts/BoardManager.cs:147 | Splitting at `'\n'` gives one more line than there are newlines. No line contains a newline. |
| `LevelLayout.JoinSplit` | Assets/Scripts/BoardManager.cs:147 | Joining the split lines with `'\n'` gives back the text. |
| `LevelLayout.SplitJoin` | Assets/Scripts/BoardManager.cs:147 | Joining newline-free lines and splitting again gives back the lines. |
| `LevelLayout.SplitChars` | Assets/Scripts/BoardManager.cs:147 | The characters of the lines are the characters of the text with the newlines removed. |
| `LevelLayout.SplitTrailingSeparator` | Assets/Scripts/BoardManager.cs:147 | A trailing newline adds exactly one empty last line. |
| `LevelLayout.LevelCoord` | Assets/Scripts/BoardManager.cs:155 | Line `i`, column `j` maps to a cell from which `(i, j)` can be recovered, so distinct characters get distinct cells. Line 0 lands on `y = lines.Length-2` and the last line on `y = -1`. |
| `LevelLayout.Overlay` | Assets/Scripts/BoardManager.cs:151-194 | A character selects overlay `cat` iff `cat` is wall, food, enemy or exit and the character, upper-cased, is that category's letter `X`, `F`, `E` or `T`. Every other character, including space and `'\r'`, selects none. |
| `LevelLayout.CharPlacements` | Assets/Scripts/BoardManager.cs:151-199 | One character emits a floor tile first, from the floor array by its roll. It emits a second tile iff it selects an overlay, on the same cell and of that overlay's category. The exit always uses the single fixed exit handle. A wall, food or enemy overlay uses the handle its overlay roll picks from its own array. |
| `LevelLayout.LinePlacements` | Assets/Scripts/BoardManager.cs:150-200 | The first `n` characters of line `i` emit `n` tiles plus one per symbol character. Per category, floor tiles number `n` and overlay tiles number the characters with that symbol. Every tile lies on a cell of line `i`, column `< n`, and is that character's floor or its overlay. The tiles come in column order, each floor before the overlay on its cell. |
| `LevelLayout.LevelPlacements` | Assets/Scripts/BoardManager.cs:149-201 | The first `m` lines emit as many tiles as they have characters plus symbol characters, with the same count per category. Every tile lies on the cell of an existing character of a line `< m` and is that character's floor or its overlay. The tiles come line by line, column by column, each floor before its overlay. |
| `LevelLayout.LinePlacementsComplete` | Assets/Scripts/BoardManager.cs:150-200 | Every tile of each of the first `n` characters of a line appears in what that prefix of the line emits. |
| `LevelLayout.LevelPlacementsComplete` | Assets/Scripts/BoardManager.cs:149-201 | Every tile of every character of the first `m` lines appears in what those lines emit. |
| `LevelLayout.SetupScene` | Assets/Scripts/BoardManager.cs:134-205 | A missing asset fails with "level not found". Otherwise the number of tiles is (code units - newlines) + symbol characters. Floor tiles number the non-newline code units. Wall, food, enemy and exit tiles number the characters of their symbol, ignoring case. Each tile is explained by a character of the split text at its line and column. The tiles come in the loops' order: line by line, column by column, each floor before its overlay. |
| `LevelLayout.SetupSceneComplete` | Assets/Scripts/BoardManager.cs:147-201 | Every tile that a character of the split text emits, at its line and column, is in the scene. With the soundness clause of `SetupScene`, the scene holds exactly the characters' tiles. |

## Left out

- Engine plumbing is not modelled: `Instantiate`, `Quaternion.identity`,
  `Transform.SetParent` and the `boardHolder` object. Tiles are emitted as
  placement records in emission order.
- `Resources.Load("day" + level)` and the `TextAsset` cast are asset I/O. The
  model's input is the loaded text, or `None` when the asset is missing.
- `UnityEngine.Random` is not modelled. Each roll is a caller-supplied value
  in the range the script passes. All rolls are grouped per call site instead
  of being taken from one shared stream, so the interleaving of draws in that
  stream is not represented.
- `RandomBoard.BoardSetup`: on a ring cell the script draws a floor roll and
  then discards it. The model carries that roll in `CellRoll` and ignores it.
  It also requires the unused outer-wall roll of an interior cell to be in
  range. Any value works there, since that roll is never used.
- `RandomBoard.LayoutObjectAtRandom`: when the list runs out part-way, the
  objects the script already instantiated stay in the scene. The model
  returns only `Err(PoolExhausted)` and drops them.
- `RandomBoard.LayoutObjectAtRandom`: a `Count` with `minimum > maximum` is not
  modelled. The count roll is required to lie in `[minimum, maximum]`, and
  `Random.Range`'s behaviour for an empty or reversed range is left out.
- Empty prefab arrays are not modelled. In the script they make
  `Random.Range(0, 0)` return 0, and the array access then throws. The roll
  ranges exclude them.
- `Vector3` float coordinates: all coordinates are integers with `z = 0`.
- 32-bit overflow is not modelled: `columns + 1`, `maximum + 1` and
  `lines.Length - i` are computed on unbounded integers.
- The `Count` constructor is the datatype constructor `Count(minimum, maximum)`.
