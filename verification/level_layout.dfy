/** The level-file layout: the level text is split into lines at '\n', and
    every character (a UTF-16 code unit, as .NET strings count them) becomes
    a floor tile at a cell derived from its line and column, optionally
    followed by a wall, food, enemy or exit overlay on the same cell,
    selected case-insensitively by the character.
 */
module LevelLayout {
  import opened BoardTypes

  /** One UTF-16 code unit. A .NET string is a sequence of these: `Length`
      and indexing count code units, and a character outside the Basic
      Multilingual Plane takes two of them (a surrogate pair). */
  newtype CodeUnit = x: int | 0 <= x < 0x1_0000

  /** Level text as the script sees it, one entry per code unit. */
  type Text = seq<CodeUnit>

  const Newline: CodeUnit := '\n' as CodeUnit

  /** Number of occurrences of `c` in `s`. */
  function Occurrences(s: Text, c: CodeUnit): nat
  {
    if |s| == 0 then 0 else (if s[0] == c then 1 else 0) + Occurrences(s[1..], c)
  }

  /** `s` with every `sep` removed. */
  function Strip(s: Text, sep: CodeUnit): Text
  {
    if |s| == 0 then [] else (if s[0] == sep then [] else [s[0]]) + Strip(s[1..], sep)
  }

  /** Splits at every separator, keeping empty pieces: k separators give
      k + 1 pieces, none of which contains the separator. */
  function Split(s: Text, sep: CodeUnit): (r: seq<Text>)
    ensures |r| == Occurrences(s, sep) + 1
    ensures forall i :: 0 <= i < |r| ==> sep !in r[i]
    decreases |s|
  {
    if |s| == 0 then [[]]
    else
      var tail := Split(s[1..], sep);
      if s[0] == sep then [[]] + tail
      else [[s[0]] + tail[0]] + tail[1..]
  }

  /** Puts the pieces back together with one separator between neighbours. */
  function Join(lines: seq<Text>, sep: CodeUnit): Text
    requires |lines| > 0
    decreases |lines|
  {
    if |lines| == 1 then lines[0] else lines[0] + [sep] + Join(lines[1..], sep)
  }

  /** The pieces laid end to end, without separators. */
  function Chars(lines: seq<Text>): Text
    decreases |lines|
  {
    if |lines| == 0 then [] else lines[0] + Chars(lines[1..])
  }

  /** Splitting loses nothing: joining the pieces gives back the text. */
  lemma {:induction false} JoinSplit(s: Text, sep: CodeUnit)
    ensures Join(Split(s, sep), sep) == s
    decreases |s|
  {
    if |s| > 0 {
      var tail := Split(s[1..], sep);
      JoinSplit(s[1..], sep);
      if s[0] == sep {
        assert ([[]] + tail)[1..] == tail;
      } else {
        var r := [[s[0]] + tail[0]] + tail[1..];
        assert r[1..] == tail[1..];
        if |tail| > 1 {
          assert Join(tail, sep) == tail[0] + [sep] + Join(tail[1..], sep);
        }
      }
      assert s == [s[0]] + s[1..];
    }
  }

  /** Splitting text that starts with a separator-free piece `a`. */
  lemma {:induction false} SplitFreePrefix(a: Text, t: Text, sep: CodeUnit)
    requires sep !in a
    ensures Split(a + t, sep) == [a + Split(t, sep)[0]] + Split(t, sep)[1..]
    decreases |a|
  {
    if |a| > 0 {
      assert (a + t)[1..] == a[1..] + t;
      assert (a + t)[0] == a[0];
      SplitFreePrefix(a[1..], t, sep);
      assert [a[0]] + (a[1..] + Split(t, sep)[0]) == a + Split(t, sep)[0];
    } else {
      assert a + t == t;
      assert a + Split(t, sep)[0] == Split(t, sep)[0];
      assert Split(t, sep) == [Split(t, sep)[0]] + Split(t, sep)[1..];
    }
  }

  /** Joining separator-free pieces and splitting again gives the pieces back. */
  lemma {:induction false} SplitJoin(lines: seq<Text>, sep: CodeUnit)
    requires |lines| > 0
    requires forall i :: 0 <= i < |lines| ==> sep !in lines[i]
    ensures Split(Join(lines, sep), sep) == lines
    decreases |lines|
  {
    if |lines| == 1 {
      SplitFreePrefix(lines[0], [], sep);
      assert lines[0] + [] == lines[0];
    } else {
      var rest := Join(lines[1..], sep);
      SplitJoin(lines[1..], sep);
      assert Join(lines, sep) == lines[0] + ([sep] + rest);
      SplitFreePrefix(lines[0], [sep] + rest, sep);
      assert ([sep] + rest)[1..] == rest;
      assert Split([sep] + rest, sep) == [[]] + lines[1..];
      assert lines[0] + [] == lines[0];
      assert lines == [lines[0]] + lines[1..];
    }
  }

  /** The characters of the pieces are the characters of the text minus the separators. */
  lemma {:induction false} SplitChars(s: Text, sep: CodeUnit)
    ensures Chars(Split(s, sep)) == Strip(s, sep)
    decreases |s|
  {
    if |s| > 0 {
      var tail := Split(s[1..], sep);
      SplitChars(s[1..], sep);
      if s[0] == sep {
        assert ([[]] + tail)[1..] == tail;
      } else {
        var r := [[s[0]] + tail[0]] + tail[1..];
        assert r[1..] == tail[1..];
        assert Chars(tail) == tail[0] + Chars(tail[1..]);
      }
    }
  }

  /** A trailing separator adds one empty piece at the end; for a level text
      this adds one line, which moves every character's cell up by one row. */
  lemma {:induction false} SplitTrailingSeparator(s: Text, sep: CodeUnit)
    ensures Split(s + [sep], sep) == Split(s, sep) + [[]]
    decreases |s|
  {
    if |s| == 0 {
      assert s + [sep] == [sep];
      assert [sep][1..] == [];
    } else {
      assert (s + [sep])[1..] == s[1..] + [sep];
      SplitTrailingSeparator(s[1..], sep);
      var tail := Split(s[1..], sep);
      if s[0] != sep {
        assert (tail + [[]])[0] == tail[0];
        assert (tail + [[]])[1..] == tail[1..] + [[]];
      }
    }
  }

  /** The line of a level of `lineCount` lines that a cell comes from. */
  function LevelLine(p: Pos, lineCount: int): int
  {
    lineCount - 2 - p.y
  }

  /** The column of its line that a cell comes from. */
  function LevelColumn(p: Pos): int
  {
    p.x + 1
  }

  /** The cell of the character at line i, column j: the file is read top to
      bottom and placed bottom to top, shifted by (-1, -2). The map is undone
      by (LevelLine, LevelColumn), so distinct characters get distinct cells;
      the first line lands on y = lineCount - 2 and the last on y = -1. */
  function LevelCoord(i: int, j: int, lineCount: int): (p: Pos)
    ensures LevelLine(p, lineCount) == i && LevelColumn(p) == j
    ensures i == 0 ==> p.y == lineCount - 2
    ensures i == lineCount - 1 ==> p.y == -1
  {
    Pos(j - 1, (lineCount - i) - 2)
  }

  /** ASCII upper-casing. */
  function ToUpper(c: CodeUnit): CodeUnit
  {
    if 'a' as CodeUnit <= c <= 'z' as CodeUnit then c - 32 else c
  }

  /** The upper-case letter that selects each overlay category. */
  function Symbol(cat: Category): Option<CodeUnit>
  {
    match cat
    case Wall => Some('X' as CodeUnit)
    case Food => Some('F' as CodeUnit)
    case Enemy => Some('E' as CodeUnit)
    case Exit => Some('T' as CodeUnit)
    case _ => None
  }

  /** The overlay a level character asks for on top of its floor tile, if any:
      exactly the category whose letter is the character, ignoring case. */
  function Overlay(c: CodeUnit): (r: Option<Category>)
    ensures forall cat :: r == Some(cat) <==> Symbol(cat) == Some(ToUpper(c))
  {
    if c == 'X' as CodeUnit || c == 'x' as CodeUnit then Some(Wall)
    else if c == 'F' as CodeUnit || c == 'f' as CodeUnit then Some(Food)
    else if c == 'E' as CodeUnit || c == 'e' as CodeUnit then Some(Enemy)
    else if c == 'T' as CodeUnit || c == 't' as CodeUnit then Some(Exit)
    else None
  }

  /** The tile array an overlay category draws from; the exit has none. */
  function OverlayTiles(tiles: TileConfig, cat: Category): seq<Handle>
  {
    match cat
    case Wall => tiles.wall
    case Food => tiles.food
    case Enemy => tiles.enemy
    case _ => []
  }

  /** The rolls made for one character: the floor tile index, and the overlay
      tile index (drawn only for walls, food and enemies). */
  datatype CharRoll = CharRoll(floor: nat, overlay: nat)

  predicate CharRollFits(c: CodeUnit, roll: CharRoll, tiles: TileConfig)
  {
    && roll.floor < |tiles.floor|
    && (Overlay(c).Some? && Overlay(c).value != Exit ==>
          roll.overlay < |OverlayTiles(tiles, Overlay(c).value)|)
  }

  /** The rolls of a whole level: one per character, each in range. */
  predicate LevelRollsFit(lines: seq<Text>, rolls: seq<seq<CharRoll>>, tiles: TileConfig)
  {
    && |rolls| == |lines|
    && (forall i :: 0 <= i < |lines| ==> |rolls[i]| == |lines[i]|)
    && forall i, j :: 0 <= i < |lines| && 0 <= j < |lines[i]| ==>
         CharRollFits(lines[i][j], rolls[i][j], tiles)
  }

  /** What one character emits: a floor tile first, then the overlay its
      symbol selects, both on the character's cell. */
  function CharPlacements(c: CodeUnit, p: Pos, roll: CharRoll, tiles: TileConfig): (r: seq<Placement>)
    requires CharRollFits(c, roll, tiles)
    ensures |r| == if Overlay(c).Some? then 2 else 1
    ensures r[0] == Placement(Floor, tiles.floor[roll.floor], p)
    ensures forall k :: 0 <= k < |r| ==> r[k].pos == p
    ensures |r| == 2 ==> Overlay(c) == Some(r[1].category)
    ensures |r| == 2 ==> r[1].category != Floor
    ensures |r| == 2 && r[1].category == Exit ==> r[1].handle == tiles.exit
    ensures |r| == 2 && r[1].category != Exit ==>
      r[1].handle == OverlayTiles(tiles, r[1].category)[roll.overlay]
  {
    var floor := Placement(Floor, tiles.floor[roll.floor], p);
    match Overlay(c)
    case None => [floor]
    case Some(cat) =>
      if cat == Exit then [floor, Placement(Exit, tiles.exit, p)]
      else [floor, Placement(cat, OverlayTiles(tiles, cat)[roll.overlay], p)]
  }

  /** Number of characters that select an overlay. */
  function OverlayCount(s: Text): nat
  {
    if |s| == 0 then 0 else (if Overlay(s[0]).Some? then 1 else 0) + OverlayCount(s[1..])
  }

  /** Number of characters that select overlay `cat`. */
  function SymbolCount(s: Text, cat: Category): nat
  {
    if |s| == 0 then 0 else (if Overlay(s[0]) == Some(cat) then 1 else 0) + SymbolCount(s[1..], cat)
  }

  /** The number of `cat` placements a Text of level characters asks for:
      one floor per character, one overlay per symbol. */
  function Tally(s: Text, cat: Category): nat
  {
    if cat == Floor then |s| else SymbolCount(s, cat)
  }

  lemma {:induction false} CountsConcat(a: Text, b: Text)
    ensures OverlayCount(a + b) == OverlayCount(a) + OverlayCount(b)
    ensures forall cat :: SymbolCount(a + b, cat) == SymbolCount(a, cat) + SymbolCount(b, cat)
    decreases |a|
  {
    if |a| == 0 {
      assert a + b == b;
    } else {
      assert (a + b)[1..] == a[1..] + b;
      CountsConcat(a[1..], b);
    }
  }

  /** Removing newlines removes no symbol. */
  lemma {:induction false} StripCounts(s: Text, sep: CodeUnit)
    requires Overlay(sep).None?
    ensures |Strip(s, sep)| == |s| - Occurrences(s, sep)
    ensures OverlayCount(Strip(s, sep)) == OverlayCount(s)
    ensures forall cat :: SymbolCount(Strip(s, sep), cat) == SymbolCount(s, cat)
    decreases |s|
  {
    if |s| > 0 {
      StripCounts(s[1..], sep);
      var head := if s[0] == sep then [] else [s[0]];
      CountsConcat(head, Strip(s[1..], sep));
    }
  }

  lemma {:induction false} CharsSnoc(lines: seq<Text>, m: nat)
    requires 0 < m <= |lines|
    ensures Chars(lines[..m]) == Chars(lines[..m - 1]) + lines[m - 1]
    decreases m
  {
    if m == 1 {
      assert lines[..1][1..] == [];
    } else {
      CharsSnoc(lines[1..], m - 1);
      assert lines[..m][1..] == lines[1..][..m - 1];
      assert lines[..m - 1][1..] == lines[1..][..m - 2];
    }
  }

  /** One character's placements count as the one-character Text asks. */
  lemma CharTally(c: CodeUnit, p: Pos, roll: CharRoll, tiles: TileConfig, cat: Category)
    requires CharRollFits(c, roll, tiles)
    ensures CountCat(CharPlacements(c, p, roll, tiles), cat) == Tally([c], cat)
  {
    var r := CharPlacements(c, p, roll, tiles);
    assert [c][1..] == [];
    assert r[..|r| - 1][..0] == [];
    if |r| == 2 {
      assert r[..1][..0] == [];
      assert r[..|r| - 1] == r[..1];
      assert Symbol(r[1].category) == Some(ToUpper(c));
      assert r[1].category != Floor;
      assert CountCat(r[..1], cat) == (if cat == Floor then 1 else 0);
      assert CountCat(r, cat) == CountCat(r[..1], cat) + (if r[1].category == cat then 1 else 0);
      assert SymbolCount([c], cat) == (if Overlay(c) == Some(cat) then 1 else 0);
    } else {
      assert Overlay(c) != Some(cat);
      assert CountCat(r, cat) == CountCat(r[..0], cat) + (if r[0].category == cat then 1 else 0);
      assert SymbolCount([c], cat) == 0;
    }
  }

  /** Placement `pl` stands on the cell of some character of the level and
      is that character's floor or the overlay its symbol selects. */
  predicate Explains(pl: Placement, lines: seq<Text>)
  {
    var i := LevelLine(pl.pos, |lines|);
    var j := LevelColumn(pl.pos);
    && 0 <= i < |lines| && 0 <= j < |lines[i]|
    && (pl.category == Floor || Overlay(lines[i][j]) == Some(pl.category))
  }

  /** Tile `a` is emitted before tile `b`: from an earlier line, from an
      earlier column of the same line, or as the floor under the overlay of
      the same cell. */
  predicate EmittedBefore(a: Placement, b: Placement, lineCount: int)
  {
    var la, lb := LevelLine(a.pos, lineCount), LevelLine(b.pos, lineCount);
    || la < lb
    || (la == lb && LevelColumn(a.pos) < LevelColumn(b.pos))
    || (a.pos == b.pos && a.category == Floor && b.category != Floor)
  }

  /** The tiles are in the order the loops emit them: line by line, column
      by column, each floor before its overlay. */
  predicate InEmissionOrder(r: seq<Placement>, lineCount: int)
  {
    forall k, k' :: 0 <= k < k' < |r| ==> EmittedBefore(r[k], r[k'], lineCount)
  }

  lemma OrderedConcat(a: seq<Placement>, b: seq<Placement>, lineCount: int)
    requires InEmissionOrder(a, lineCount) && InEmissionOrder(b, lineCount)
    requires forall k, k' :: 0 <= k < |a| && 0 <= k' < |b| ==> EmittedBefore(a[k], b[k'], lineCount)
    ensures InEmissionOrder(a + b, lineCount)
  {
    forall k, k' | 0 <= k < k' < |a + b|
      ensures EmittedBefore((a + b)[k], (a + b)[k'], lineCount)
    {
      if k' < |a| {
        assert (a + b)[k] == a[k] && (a + b)[k'] == a[k'];
      } else if k < |a| {
        assert (a + b)[k] == a[k] && (a + b)[k'] == b[k' - |a|];
      } else {
        assert (a + b)[k] == b[k - |a|] && (a + b)[k'] == b[k' - |a|];
      }
    }
  }

  /** Appending a character's tiles after tiles of earlier columns of its line keeps the order. */
  lemma AppendCharOrdered(prev: seq<Placement>, c: CodeUnit, p: Pos, roll: CharRoll, tiles: TileConfig,
                          lineCount: int)
    requires CharRollFits(c, roll, tiles)
    requires InEmissionOrder(prev, lineCount)
    requires forall k :: 0 <= k < |prev| ==>
      LevelLine(prev[k].pos, lineCount) == LevelLine(p, lineCount) && LevelColumn(prev[k].pos) < LevelColumn(p)
    ensures InEmissionOrder(prev + CharPlacements(c, p, roll, tiles), lineCount)
  {
    var here := CharPlacements(c, p, roll, tiles);
    assert InEmissionOrder(here, lineCount) by {
      if |here| == 2 {
        assert EmittedBefore(here[0], here[1], lineCount);
      }
    }
    OrderedConcat(prev, here, lineCount);
  }

  /** Appending the tiles of a line after tiles of earlier lines keeps the order. */
  lemma AppendLineOrdered(prev: seq<Placement>, line: seq<Placement>, i: int, lineCount: int)
    requires InEmissionOrder(prev, lineCount) && InEmissionOrder(line, lineCount)
    requires forall k :: 0 <= k < |prev| ==> LevelLine(prev[k].pos, lineCount) < i
    requires forall k :: 0 <= k < |line| ==> LevelLine(line[k].pos, lineCount) == i
    ensures InEmissionOrder(prev + line, lineCount)
  {
    OrderedConcat(prev, line, lineCount);
  }

  /** What the first n characters of line i emit, in column order, each
      floor before its overlay. */
  function LinePlacements(lines: seq<Text>, i: nat, n: nat, rolls: seq<seq<CharRoll>>, tiles: TileConfig)
    : (r: seq<Placement>)
    requires LevelRollsFit(lines, rolls, tiles)
    requires i < |lines| && n <= |lines[i]|
    ensures |r| == n + OverlayCount(lines[i][..n])
    ensures forall cat :: CountCat(r, cat) == Tally(lines[i][..n], cat)
    ensures forall k :: 0 <= k < |r| ==>
      LevelLine(r[k].pos, |lines|) == i && LevelColumn(r[k].pos) < n && Explains(r[k], lines)
    ensures InEmissionOrder(r, |lines|)
    decreases n
  {
    if n == 0 then []
    else
      var prev := LinePlacements(lines, i, n - 1, rolls, tiles);
      var here := CharPlacements(lines[i][n - 1], LevelCoord(i, n - 1, |lines|), rolls[i][n - 1], tiles);
      assert lines[i][..n] == lines[i][..n - 1] + [lines[i][n - 1]];
      CountsConcat(lines[i][..n - 1], [lines[i][n - 1]]);
      forall cat
        ensures CountCat(prev + here, cat) == Tally(lines[i][..n], cat)
      {
        CountCatConcat(prev, here, cat);
        CharTally(lines[i][n - 1], LevelCoord(i, n - 1, |lines|), rolls[i][n - 1], tiles, cat);
      }
      AppendCharOrdered(prev, lines[i][n - 1], LevelCoord(i, n - 1, |lines|), rolls[i][n - 1], tiles, |lines|);
      prev + here
  }

  /** What the first m lines emit, line by line. */
  function LevelPlacements(lines: seq<Text>, m: nat, rolls: seq<seq<CharRoll>>, tiles: TileConfig)
    : (r: seq<Placement>)
    requires LevelRollsFit(lines, rolls, tiles)
    requires m <= |lines|
    ensures |r| == |Chars(lines[..m])| + OverlayCount(Chars(lines[..m]))
    ensures forall cat :: CountCat(r, cat) == Tally(Chars(lines[..m]), cat)
    ensures forall k :: 0 <= k < |r| ==> LevelLine(r[k].pos, |lines|) < m && Explains(r[k], lines)
    ensures InEmissionOrder(r, |lines|)
    decreases m
  {
    if m == 0 then []
    else
      var prev := LevelPlacements(lines, m - 1, rolls, tiles);
      var line := LinePlacements(lines, m - 1, |lines[m - 1]|, rolls, tiles);
      CharsSnoc(lines, m);
      assert lines[m - 1][..|lines[m - 1]|] == lines[m - 1];
      CountsConcat(Chars(lines[..m - 1]), lines[m - 1]);
      forall cat
        ensures CountCat(prev + line, cat) == Tally(Chars(lines[..m]), cat)
      {
        CountCatConcat(prev, line, cat);
      }
      AppendLineOrdered(prev, line, m - 1, |lines|);
      prev + line
  }

  /** Every character of the first n of line i has its placements among what
      that prefix emits. */
  lemma {:induction false} LinePlacementsComplete(lines: seq<Text>, i: nat, n: nat, j: nat,
                                                  rolls: seq<seq<CharRoll>>, tiles: TileConfig, pl: Placement)
    requires LevelRollsFit(lines, rolls, tiles)
    requires i < |lines| && j < n <= |lines[i]|
    requires pl in CharPlacements(lines[i][j], LevelCoord(i, j, |lines|), rolls[i][j], tiles)
    ensures pl in LinePlacements(lines, i, n, rolls, tiles)
    decreases n
  {
    var prev := LinePlacements(lines, i, n - 1, rolls, tiles);
    var last := CharPlacements(lines[i][n - 1], LevelCoord(i, n - 1, |lines|), rolls[i][n - 1], tiles);
    assert LinePlacements(lines, i, n, rolls, tiles) == prev + last;
    if j < n - 1 {
      LinePlacementsComplete(lines, i, n - 1, j, rolls, tiles, pl);
      assert pl in prev;
    } else {
      assert pl in last;
    }
  }

  /** Every character of the level has its placements among what the level emits. */
  lemma {:induction false} LevelPlacementsComplete(lines: seq<Text>, m: nat, i: nat, j: nat,
                                                   rolls: seq<seq<CharRoll>>, tiles: TileConfig, pl: Placement)
    requires LevelRollsFit(lines, rolls, tiles)
    requires i < m <= |lines| && j < |lines[i]|
    requires pl in CharPlacements(lines[i][j], LevelCoord(i, j, |lines|), rolls[i][j], tiles)
    ensures pl in LevelPlacements(lines, m, rolls, tiles)
    decreases m
  {
    var prev := LevelPlacements(lines, m - 1, rolls, tiles);
    var line := LinePlacements(lines, m - 1, |lines[m - 1]|, rolls, tiles);
    assert LevelPlacements(lines, m, rolls, tiles) == prev + line;
    if i < m - 1 {
      LevelPlacementsComplete(lines, m - 1, i, j, rolls, tiles, pl);
      assert pl in prev;
    } else {
      LinePlacementsComplete(lines, i, |lines[i]|, j, rolls, tiles, pl);
      assert pl in line;
    }
  }

  /** Lays out a level. `asset` is the loaded level text, or None when no
      asset of that name exists, in which case reading its text fails. */
  function SetupScene(asset: Option<Text>, tiles: TileConfig, rolls: seq<seq<CharRoll>>)
    : (r: Result<seq<Placement>>)
    requires asset.Some? ==> LevelRollsFit(Split(asset.value, Newline), rolls, tiles)
    ensures r.Ok? <==> asset.Some?
    ensures r.Err? ==> r.error == LevelNotFound
    ensures r.Ok? ==>
      |r.value| == |asset.value| - Occurrences(asset.value, Newline) + OverlayCount(asset.value)
    ensures r.Ok? ==> CountCat(r.value, Floor) == |asset.value| - Occurrences(asset.value, Newline)
    ensures r.Ok? ==> forall cat :: cat != Floor ==> CountCat(r.value, cat) == SymbolCount(asset.value, cat)
    ensures r.Ok? ==> forall k :: 0 <= k < |r.value| ==>
      Explains(r.value[k], Split(asset.value, Newline))
    ensures r.Ok? ==> InEmissionOrder(r.value, |Split(asset.value, Newline)|)
  {
    match asset
    case None => Err(LevelNotFound)
    case Some(text) =>
      var lines := Split(text, Newline);
      SceneCounts(text, tiles, rolls);
      Ok(LevelPlacements(lines, |lines|, rolls, tiles))
  }

  /** Every character of the level text emits its tiles into the scene: with
      the soundness clause of `SetupScene`, the scene is exactly the tiles of
      the characters of the split text. */
  lemma SetupSceneComplete(text: Text, tiles: TileConfig, rolls: seq<seq<CharRoll>>,
                           i: nat, j: nat, pl: Placement)
    requires LevelRollsFit(Split(text, Newline), rolls, tiles)
    requires i < |Split(text, Newline)| && j < |Split(text, Newline)[i]|
    requires pl in CharPlacements(Split(text, Newline)[i][j], LevelCoord(i, j, |Split(text, Newline)|),
                                  rolls[i][j], tiles)
    ensures pl in SetupScene(Some(text), tiles, rolls).value
  {
    var lines := Split(text, Newline);
    LevelPlacementsComplete(lines, |lines|, i, j, rolls, tiles, pl);
  }

  /** The counts of a whole level, stated on the raw text. */
  lemma SceneCounts(text: Text, tiles: TileConfig, rolls: seq<seq<CharRoll>>)
    requires LevelRollsFit(Split(text, Newline), rolls, tiles)
    ensures var lines := Split(text, Newline);
      var r := LevelPlacements(lines, |lines|, rolls, tiles);
      && |r| == |text| - Occurrences(text, Newline) + OverlayCount(text)
      && CountCat(r, Floor) == |text| - Occurrences(text, Newline)
      && forall cat :: cat != Floor ==> CountCat(r, cat) == SymbolCount(text, cat)
  {
    var lines := Split(text, Newline);
    var r := LevelPlacements(lines, |lines|, rolls, tiles);
    assert lines[..|lines|] == lines;
    var chars := Chars(lines);
    SplitChars(text, Newline);
    assert chars == Strip(text, Newline);
    StripCounts(text, Newline);
    assert |r| == |chars| + OverlayCount(chars);
    assert CountCat(r, Floor) == Tally(chars, Floor);
    forall cat | cat != Floor
      ensures CountCat(r, cat) == SymbolCount(text, cat)
    {
      assert CountCat(r, cat) == Tally(chars, cat);
    }
  }
}
