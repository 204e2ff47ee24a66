/** The backend's backtracking fill generator: it fills a grid cell by cell in
    row-major order with letters and blanks, keeping for every visited cell the
    characters not yet tried there, and keeps a placement only when the whole
    grid still passes validGrid. The dictionary lookup is the parameter
    wordExists; Math.random is a nondeterministic choice. */
module CrosswordGen {
  import opened Errors
  import opened Radix

  const ALPHABET: string := "abcdefghijklmnopqrstuvwxyz_"
  const MAX_WORD_LENGTH: nat := 5
  /** The blank square, also the separator of the runs validGrid checks. */
  const BLANK: char := '_'
  /** An unfilled cell. */
  const EMPTY: char := ' '

  /** The dictionary oracle: wordExists(pattern, maxLength). */
  type WordOracle = (string, nat) -> bool

  // ---------------------------------------------------------------- strings

  /** String.prototype.split with a one-character separator. */
  function Split(s: string, sep: char): (parts: seq<string>)
    ensures |parts| >= 1
  {
    if s == [] then [[]]
    else
      var ps := Split(s[..|s| - 1], sep);
      if s[|s| - 1] == sep then ps + [[]]
      else ps[..|ps| - 1] + [ps[|ps| - 1] + [s[|s| - 1]]]
  }

  /** Array.prototype.join with a one-character separator. */
  function Join(parts: seq<string>, sep: char): string {
    if parts == [] then []
    else if |parts| == 1 then parts[0]
    else Join(parts[..|parts| - 1], sep) + [sep] + parts[|parts| - 1]
  }

  /** Splitting then joining gives the string back. */
  lemma {:induction false} SplitJoin(s: string, sep: char)
    ensures Join(Split(s, sep), sep) == s
  {
    if s != [] {
      var t, c := s[..|s| - 1], s[|s| - 1];
      assert s == t + [c];
      SplitJoin(t, sep);
      SplitJoinSnoc(t, c, sep);
    }
  }

  /** The inductive step of SplitJoin: one more character keeps the round trip. */
  lemma SplitJoinSnoc(t: string, c: char, sep: char)
    requires Join(Split(t, sep), sep) == t
    ensures Join(Split(t + [c], sep), sep) == t + [c]
  {
    var ps := Split(t, sep);
    SplitSnoc(t, c, sep);
    if c == sep {
      JoinSnoc(ps, [], sep);
    } else {
      var qs, last := ps[..|ps| - 1], ps[|ps| - 1];
      assert ps == qs + [last];
      JoinExtendLast(qs, last, c, sep);
    }
  }

  /** Extending the last part extends the joined string by the same character. */
  lemma JoinExtendLast(qs: seq<string>, last: string, c: char, sep: char)
    ensures Join(qs + [last + [c]], sep) == Join(qs + [last], sep) + [c]
  {
    JoinSnoc(qs, last, sep);
    JoinSnoc(qs, last + [c], sep);
    if qs != [] {
      var j := Join(qs, sep) + [sep];
      assert j + (last + [c]) == (j + last) + [c];
    }
  }

  /** Splitting one more character: a separator opens a new empty part, any
      other character extends the last part. */
  lemma SplitSnoc(t: string, c: char, sep: char)
    ensures var ps := Split(t, sep);
      Split(t + [c], sep) == if c == sep then ps + [[]] else ps[..|ps| - 1] + [ps[|ps| - 1] + [c]]
  {
    assert (t + [c])[..|t|] == t;
  }

  /** Joining one more part appends the separator and the part. */
  lemma JoinSnoc(qs: seq<string>, x: string, sep: char)
    ensures Join(qs + [x], sep) == if qs == [] then x else Join(qs, sep) + [sep] + x
  {
    assert (qs + [x])[..|qs|] == qs;
  }

  /** No part contains the separator. */
  lemma {:induction false} SplitPartsLackSep(s: string, sep: char)
    ensures forall k :: 0 <= k < |Split(s, sep)| ==> sep !in Split(s, sep)[k]
  {
    if s != [] {
      SplitPartsLackSep(s[..|s| - 1], sep);
    }
  }

  /** The last part (split(...).at(-1)) is the run after the last separator:
      a suffix of s without the separator that is all of s or follows one. */
  lemma {:induction false} LastPartIsFinalRun(s: string, sep: char)
    ensures var last := Split(s, sep)[|Split(s, sep)| - 1];
      |last| <= |s| && last == s[|s| - |last|..] && sep !in last &&
      (|last| == |s| || s[|s| - |last| - 1] == sep)
  {
    if s != [] {
      var t := s[..|s| - 1];
      LastPartIsFinalRun(t, sep);
      var lt := Split(t, sep)[|Split(t, sep)| - 1];
      if s[|s| - 1] != sep {
        assert Split(s, sep)[|Split(s, sep)| - 1] == lt + [s[|s| - 1]];
        assert s[|s| - |lt| - 1..] == t[|t| - |lt|..] + [s[|s| - 1]];
      }
    }
  }

  /** The whitespace class \s of JavaScript regular expressions. */
  predicate IsSpace(c: char) {
    c == ' ' || c == '\t' || c == '\n' || c == '\r' || c == '\U{000B}' || c == '\U{000C}' ||
    c == '\U{00A0}' || c == '\U{1680}' || ('\U{2000}' <= c <= '\U{200A}') ||
    c == '\U{2028}' || c == '\U{2029}' || c == '\U{202F}' || c == '\U{205F}' ||
    c == '\U{3000}' || c == '\U{FEFF}'
  }

  /** s without its trailing whitespace. */
  function TrimEnd(s: string): string {
    if s != [] && IsSpace(s[|s| - 1]) then TrimEnd(s[..|s| - 1]) else s
  }

  /** TrimEnd keeps a prefix that does not end in whitespace and drops only whitespace. */
  lemma {:induction false} TrimEndDropsTrailingSpace(s: string)
    ensures var t := TrimEnd(s);
      |t| <= |s| && t == s[..|t|] && (t == [] || !IsSpace(t[|t| - 1])) &&
      forall i :: |t| <= i < |s| ==> IsSpace(s[i])
  {
    if s != [] && IsSpace(s[|s| - 1]) {
      TrimEndDropsTrailingSpace(s[..|s| - 1]);
    }
  }

  /** part.replace(/\s+$/, '%'): a trailing whitespace run becomes one '%'. */
  function Pattern(part: string): (p: string)
    ensures |p| <= |part| + 1
  {
    TrimEndDropsTrailingSpace(part);
    var t := TrimEnd(part);
    if |t| == |part| then part else t + "%"
  }

  /** The test /[a-z]/. */
  predicate HasLetter(s: string) {
    exists i :: 0 <= i < |s| && 'a' <= s[i] <= 'z'
  }

  function Occurrences(s: string, c: char): (n: nat)
    ensures n <= |s|
  {
    if s == [] then 0
    else Occurrences(s[..|s| - 1], c) + (if s[|s| - 1] == c then 1 else 0)
  }

  // ---------------------------------------------------------------- grids

  /** A rectangular grid of rows (grid[y][x]); validGrid reads its width off row 0. */
  predicate IsGrid(cells: seq<seq<char>>) {
    |cells| > 0 && forall i :: 0 <= i < |cells| ==> |cells[i]| == |cells[0]|
  }

  function Column(cells: seq<seq<char>>, x: nat): (col: string)
    requires IsGrid(cells) && x < |cells[0]|
    ensures |col| == |cells| && forall i :: 0 <= i < |cells| ==> col[i] == cells[i][x]
  {
    seq(|cells|, i requires 0 <= i < |cells| => cells[i][x])
  }

  function TotalBlanks(rows: seq<string>): nat {
    if rows == [] then 0
    else TotalBlanks(rows[..|rows| - 1]) + Occurrences(rows[|rows| - 1], BLANK)
  }

  /** A run passes when it has no letter, is a single character, or the
      dictionary has a word for its pattern no longer than the run. */
  predicate PartOk(part: string, wordExists: WordOracle) {
    !HasLetter(part) || |part| == 1 || wordExists(Pattern(part), |part|)
  }

  /** Every '_'-separated run of the line passes. */
  predicate LineOk(line: string, wordExists: WordOracle) {
    var parts := Split(line, BLANK);
    forall k :: 0 <= k < |parts| ==> PartOk(parts[k], wordExists)
  }

  /** Every orthogonal neighbour of cell (x, y) is off the grid or blank. */
  predicate Marooned(cells: seq<seq<char>>, x: nat, y: nat)
    requires IsGrid(cells) && y < |cells| && x < |cells[0]|
  {
    (y == 0 || cells[y - 1][x] == BLANK) &&
    (y == |cells| - 1 || cells[y + 1][x] == BLANK) &&
    (x == 0 || cells[y][x - 1] == BLANK) &&
    (x == |cells[0]| - 1 || cells[y][x + 1] == BLANK)
  }

  /** Blanks are at most half of the cells (the 0.50 ratio, in integers). */
  predicate FewBlanks(cells: seq<seq<char>>)
    requires IsGrid(cells)
  {
    2 * TotalBlanks(cells) <= |cells| * |cells[0]|
  }

  /** The first n rows pass. */
  predicate RowsOk(cells: seq<seq<char>>, n: nat, wordExists: WordOracle)
    requires IsGrid(cells) && n <= |cells|
  {
    forall y :: 0 <= y < n ==> LineOk(cells[y], wordExists)
  }

  /** The first n columns pass. */
  predicate ColumnsOk(cells: seq<seq<char>>, n: nat, wordExists: WordOracle)
    requires IsGrid(cells) && n <= |cells[0]|
  {
    forall x :: 0 <= x < n ==> LineOk(Column(cells, x), wordExists)
  }

  predicate NoneMarooned(cells: seq<seq<char>>)
    requires IsGrid(cells)
  {
    forall y, x :: 0 <= y < |cells| && 0 <= x < |cells[0]| ==> !Marooned(cells, x, y)
  }

  /** What validGrid accepts: at most half of the cells blank, every run of
      every row and column passes, and no cell is marooned. */
  ghost predicate ValidGridSpec(cells: seq<seq<char>>, wordExists: WordOracle)
    requires IsGrid(cells)
  {
    FewBlanks(cells) && RowsOk(cells, |cells|, wordExists) &&
    ColumnsOk(cells, |cells[0]|, wordExists) && NoneMarooned(cells)
  }

  /** A grid of one cell is never valid: its only cell is marooned. */
  lemma SingleCellNeverValid(cells: seq<seq<char>>, wordExists: WordOracle)
    requires IsGrid(cells) && |cells| == 1 && |cells[0]| == 1
    ensures !ValidGridSpec(cells, wordExists)
  {
    assert Marooned(cells, 0, 0);
  }

  /** A grid with more blanks than letters is never valid. */
  lemma TooManyBlanksInvalid(cells: seq<seq<char>>, wordExists: WordOracle)
    requires IsGrid(cells) && 2 * TotalBlanks(cells) > |cells| * |cells[0]|
    ensures !ValidGridSpec(cells, wordExists)
  {
  }

  /** Row y of the array as a string (grid[y].join('')). */
  function RowOf(g: array2<char>, y: nat): (r: string)
    requires y < g.Length0
    reads g
    ensures |r| == g.Length1 && forall j :: 0 <= j < g.Length1 ==> r[j] == g[y, j]
  {
    seq(g.Length1, j requires 0 <= j < g.Length1 reads g => g[y, j])
  }

  /** Column x of the array as a string (grid.map(row => row[x]).join('')). */
  function ColOf(g: array2<char>, x: nat): (c: string)
    requires x < g.Length1
    reads g
    ensures |c| == g.Length0 && forall i :: 0 <= i < g.Length0 ==> c[i] == g[i, x]
  {
    seq(g.Length0, i requires 0 <= i < g.Length0 reads g => g[i, x])
  }

  /** The array's contents as rows. */
  ghost function Snapshot(g: array2<char>): (cells: seq<seq<char>>)
    reads g
    ensures |cells| == g.Length0 && forall i :: 0 <= i < g.Length0 ==> cells[i] == RowOf(g, i)
  {
    seq(g.Length0, i requires 0 <= i < g.Length0 reads g => RowOf(g, i))
  }

  // ---------------------------------------------------------------- validGrid

  /** The blank count of validGrid's first loop. */
  method CountBlanks(grid: array2<char>) returns (blankCount: nat)
    ensures blankCount == TotalBlanks(Snapshot(grid))
  {
    ghost var cells := Snapshot(grid);
    blankCount := 0;
    var y := 0;
    while y < grid.Length0
      invariant 0 <= y <= grid.Length0
      invariant blankCount == TotalBlanks(cells[..y])
    {
      var x := 0;
      while x < grid.Length1
        invariant 0 <= x <= grid.Length1
        invariant blankCount == TotalBlanks(cells[..y]) + Occurrences(cells[y][..x], BLANK)
      {
        assert cells[y][..x + 1][..x] == cells[y][..x];
        if grid[y, x] == BLANK {
          blankCount := blankCount + 1;
        }
        x := x + 1;
      }
      assert cells[y][..x] == cells[y];
      assert cells[..y + 1][..y] == cells[..y];
      y := y + 1;
    }
    assert cells[..y] == cells;
  }

  /** validGrid's inner loop over the runs of one row or column. */
  method CheckLine(line: string, wordExists: WordOracle) returns (ok: bool)
    ensures ok == LineOk(line, wordExists)
  {
    var parts := Split(line, BLANK);
    var k := 0;
    while k < |parts|
      invariant 0 <= k <= |parts|
      invariant forall m :: 0 <= m < k ==> PartOk(parts[m], wordExists)
    {
      var part := parts[k];
      if HasLetter(part) && |part| != 1 {
        var found := wordExists(Pattern(part), |part|);
        if !found {
          return false;
        }
      }
      k := k + 1;
    }
    return true;
  }

  /** validGrid's last loop: no cell may be marooned. */
  method NoMaroonedCell(grid: array2<char>) returns (ok: bool)
    requires grid.Length0 > 0
    ensures IsGrid(Snapshot(grid)) && ok == NoneMarooned(Snapshot(grid))
  {
    ghost var cells := Snapshot(grid);
    var gridX, gridY := grid.Length1, grid.Length0;
    var y := 0;
    while y < gridY
      invariant 0 <= y <= gridY
      invariant forall i, j :: 0 <= i < y && 0 <= j < gridX ==> !Marooned(cells, j, i)
    {
      var x := 0;
      while x < gridX
        invariant 0 <= x <= gridX
        invariant forall i, j :: 0 <= i < y && 0 <= j < gridX ==> !Marooned(cells, j, i)
        invariant forall j :: 0 <= j < x ==> !Marooned(cells, j, y)
      {
        if (y == 0 || grid[y - 1, x] == BLANK) &&
           (y + 1 == gridY || grid[y + 1, x] == BLANK) &&
           (x == 0 || grid[y, x - 1] == BLANK) &&
           (x + 1 == gridX || grid[y, x + 1] == BLANK)
        {
          assert Marooned(cells, x, y);
          return false;
        }
        x := x + 1;
      }
      y := y + 1;
    }
    return true;
  }

  /** validGrid's loop over the rows. */
  method RowsPass(grid: array2<char>, wordExists: WordOracle) returns (ok: bool)
    requires grid.Length0 > 0
    ensures IsGrid(Snapshot(grid)) && ok == RowsOk(Snapshot(grid), grid.Length0, wordExists)
  {
    ghost var cells := Snapshot(grid);
    var y := 0;
    while y < grid.Length0
      invariant 0 <= y <= grid.Length0
      invariant RowsOk(cells, y, wordExists)
    {
      ok := CheckLine(RowOf(grid, y), wordExists);
      if !ok {
        return;
      }
      y := y + 1;
    }
    return true;
  }

  /** validGrid's loop over the columns. */
  method ColumnsPass(grid: array2<char>, wordExists: WordOracle) returns (ok: bool)
    requires grid.Length0 > 0
    ensures IsGrid(Snapshot(grid)) && ok == ColumnsOk(Snapshot(grid), grid.Length1, wordExists)
  {
    ghost var cells := Snapshot(grid);
    var x := 0;
    while x < grid.Length1
      invariant 0 <= x <= grid.Length1
      invariant ColumnsOk(cells, x, wordExists)
    {
      assert ColOf(grid, x) == Column(cells, x);
      ok := CheckLine(ColOf(grid, x), wordExists);
      if !ok {
        return;
      }
      x := x + 1;
    }
    return true;
  }

  /** validGrid: false when blanks exceed half the cells, when a run of a row
      or column is not in the dictionary, or when a cell is marooned. */
  method ValidGrid(grid: array2<char>, wordExists: WordOracle) returns (ok: bool)
    requires grid.Length0 > 0
    ensures IsGrid(Snapshot(grid)) && ok == ValidGridSpec(Snapshot(grid), wordExists)
  {
    ghost var cells := Snapshot(grid);
    var gridX, gridY := grid.Length1, grid.Length0;
    var totalSpaces := gridX * gridY;
    var blankCount := CountBlanks(grid);
    assert totalSpaces == |cells| * |cells[0]|;
    if 2 * blankCount > totalSpaces {
      return false;
    }
    ok := RowsPass(grid, wordExists);
    if !ok {
      return;
    }
    ok := ColumnsPass(grid, wordExists);
    if !ok {
      return;
    }
    ok := NoMaroonedCell(grid);
  }

  // ---------------------------------------------------------------- generate

  predicate Distinct(s: string) {
    forall i, j :: 0 <= i < j < |s| ==> s[i] != s[j]
  }

  /** What a cell's cache of untried characters can hold: distinct characters of ALPHABET. */
  predicate CacheOk(s: string) {
    |s| <= |ALPHABET| && Distinct(s) && forall i :: 0 <= i < |s| ==> s[i] in ALPHABET
  }

  /** A first visit starts from the whole ALPHABET. */
  lemma AlphabetIsCache()
    ensures CacheOk(ALPHABET) && |ALPHABET| == 27
  {
    forall i, j | 0 <= i < j < |ALPHABET| ensures ALPHABET[i] != ALPHABET[j] {
      assert ALPHABET[i] as int == if i < 26 then 97 + i else 95;
      assert ALPHABET[j] as int == if j < 26 then 97 + j else 95;
    }
  }

  /** charSet.replace(c, ''): the first occurrence of c removed. */
  function RemoveFirst(s: string, c: char): string {
    if s == [] then []
    else if s[0] == c then s[1..]
    else [s[0]] + RemoveFirst(s[1..], c)
  }

  /** Removing a character that occurs once leaves one fewer, none of them c,
      all of them from s. */
  lemma {:induction false} RemoveFirstShrinks(s: string, c: char)
    requires Distinct(s) && c in s
    ensures var r := RemoveFirst(s, c);
      |r| == |s| - 1 && Distinct(r) && c !in r && forall ch :: ch in r ==> ch in s
  {
    if s[0] == c {
      assert forall ch :: ch in s[1..] ==> ch in s;
    } else {
      var t := s[1..];
      assert c in t;
      RemoveFirstShrinks(t, c);
      var r' := RemoveFirst(t, c);
      assert s[0] !in t;
      assert forall ch :: ch in r' ==> ch in s;
      assert s[0] !in r';
      var r := [s[0]] + r';
      forall i, j | 0 <= i < j < |r| ensures r[i] != r[j] {
        if i == 0 {
          assert r[j] == r'[j - 1];
        } else {
          assert r[i] == r'[i - 1] && r[j] == r'[j - 1];
        }
      }
    }
  }

  /** The generator's loop state: the grid's rows, the per-cell caches keyed
      by (x, y), and the cursor (x, y). */
  datatype GenState = GenState(cells: seq<seq<char>>, cache: map<(int, int), string>, x: int, y: int)

  /** Cell (row i, column j) comes before cursor (x, y) in row-major order. */
  predicate Before(i: int, j: int, x: int, y: int) {
    i < y || (i == y && j < x)
  }

  /** The cell after (x, y) in row-major order. */
  function Next(x: int, y: int, gridX: nat): (int, int) {
    if x + 1 < gridX then (x + 1, y) else (0, y + 1)
  }

  /** The cell before (x, y) in row-major order. */
  function Prev(x: int, y: int, gridX: nat): (int, int) {
    if x > 0 then (x - 1, y) else (gridX - 1, y - 1)
  }

  /** Cells before the cursor hold ALPHABET characters and have a cache; cells
      after it are unfilled and have none; the cursor cell is either. */
  ghost predicate CellInv(s: GenState, i: nat, j: nat)
    requires i < |s.cells| && j < |s.cells[i]|
  {
    if Before(i, j, s.x, s.y) then
      s.cells[i][j] in ALPHABET && (j, i) in s.cache && CacheOk(s.cache[(j, i)])
    else if i == s.y && j == s.x then
      (s.cells[i][j] in ALPHABET || s.cells[i][j] == EMPTY) &&
      ((j, i) in s.cache ==> CacheOk(s.cache[(j, i)]))
    else
      s.cells[i][j] == EMPTY && (j, i) !in s.cache
  }

  /** The invariant of generate's loop; the cursor is inside the grid or just past its end. */
  ghost predicate CursorInv(s: GenState, gridX: nat, gridY: nat) {
    |s.cells| == gridY && (forall i :: 0 <= i < gridY ==> |s.cells[i]| == gridX) &&
    ((0 <= s.y < gridY && 0 <= s.x < gridX) || (s.y == gridY && s.x == 0)) &&
    forall i, j :: 0 <= i < gridY && 0 <= j < gridX ==> CellInv(s, i, j)
  }

  /** The generator's loop invariant: CursorInv, and the grid passed validGrid
      whenever the cursor has just advanced onto an unvisited cell or past the
      last row. */
  ghost predicate GenInv(s: GenState, gridX: nat, gridY: nat, wordExists: WordOracle) {
    CursorInv(s, gridX, gridY) &&
    (gridY > 0 && (s.y == gridY || ((s.x, s.y) != (0, 0) && (s.x, s.y) !in s.cache)) ==>
      IsGrid(s.cells) && ValidGridSpec(s.cells, wordExists))
  }

  /** The characters the cursor cell may take next: "_" when a run is full,
      else its cache, else (first visit) the whole ALPHABET. */
  function CharSet(cache: map<(int, int), string>, x: int, y: int, forced: bool): string {
    if forced then "_" else if (x, y) in cache then cache[(x, y)] else ALPHABET
  }

  // The progress measure: one digit per cell, read in row-major order. A cell
  // after the cursor counts 0, an uncached cell at the cursor counts 57, and
  // a cached cell 1 + 2 * (untried characters) + (1 if it is not blank).

  const BASE: nat := 58

  ghost function Digit(s: GenState, i: nat, j: nat): nat
    requires i < |s.cells| && j < |s.cells[i]|
  {
    if !(Before(i, j, s.x, s.y) || (i == s.y && j == s.x)) then 0
    else if (j, i) !in s.cache then 57
    else 1 + 2 * |s.cache[(j, i)]| + (if s.cells[i][j] != BLANK then 1 else 0)
  }

  ghost function RowDigits(s: GenState, i: nat): (ds: seq<nat>)
    requires i < |s.cells|
    ensures |ds| == |s.cells[i]| && forall j :: 0 <= j < |ds| ==> ds[j] == Digit(s, i, j)
  {
    seq(|s.cells[i]|, j requires 0 <= j < |s.cells[i]| => Digit(s, i, j))
  }

  ghost function RowRanks(s: GenState): (rs: seq<nat>)
    ensures |rs| == |s.cells| && forall i :: 0 <= i < |rs| ==> rs[i] == Value(RowDigits(s, i), BASE)
  {
    seq(|s.cells|, i requires 0 <= i < |s.cells| => Value(RowDigits(s, i), BASE))
  }

  ghost function Rank(s: GenState, gridX: nat): nat {
    Value(RowRanks(s), Pow(BASE, gridX))
  }

  /** Under the invariant every digit is below the base. */
  lemma DigitsBelowBase(s: GenState, gridX: nat, gridY: nat)
    requires CursorInv(s, gridX, gridY)
    ensures forall i :: 0 <= i < gridY ==> IsDigits(RowDigits(s, i), BASE)
  {
    forall i, j | 0 <= i < gridY && 0 <= j < gridX ensures Digit(s, i, j) < BASE {
      assert CellInv(s, i, j);
    }
  }

  /** The measure falls when every digit before cell (px, py) is kept and the
      digit at (px, py) falls, whatever happens after it. */
  lemma RankLess(s: GenState, t: GenState, gridX: nat, gridY: nat, px: nat, py: nat)
    requires CursorInv(s, gridX, gridY) && CursorInv(t, gridX, gridY)
    requires py < gridY && px < gridX
    requires forall i, j :: 0 <= i < gridY && 0 <= j < gridX && Before(i, j, px, py) ==>
      Digit(t, i, j) == Digit(s, i, j)
    requires Digit(t, py, px) < Digit(s, py, px)
    ensures Rank(t, gridX) < Rank(s, gridX)
  {
    DigitsBelowBase(s, gridX, gridY);
    DigitsBelowBase(t, gridX, gridY);
    var P := Pow(BASE, gridX);
    var ds, es := RowRanks(s), RowRanks(t);
    forall i | 0 <= i < gridY ensures ds[i] < P && es[i] < P {
      ValueBound(RowDigits(s, i), BASE);
      ValueBound(RowDigits(t, i), BASE);
    }
    forall i | 0 <= i < py ensures es[i] == ds[i] {
      assert RowDigits(t, i) == RowDigits(s, i);
    }
    assert ds[..py] == es[..py];
    assert RowDigits(s, py)[..px] == RowDigits(t, py)[..px];
    ValueLexLess(RowDigits(s, py), RowDigits(t, py), BASE, px);
    ValueLexLess(ds, es, P, py);
  }

  /** Every character set the generator draws from is a valid cache. */
  lemma CharSetIsCache(s: GenState, gridX: nat, gridY: nat, forced: bool)
    requires CursorInv(s, gridX, gridY) && s.y < gridY
    ensures CacheOk(CharSet(s.cache, s.x, s.y, forced))
  {
    AlphabetIsCache();
    assert ALPHABET[26] == BLANK;
    assert CellInv(s, s.y, s.x);
  }

  /** Drawing a character from a valid cache leaves a valid cache. */
  lemma RemoveFirstKeepsCache(cs: string, c: char)
    requires CacheOk(cs) && c in cs
    ensures CacheOk(RemoveFirst(cs, c)) && c !in RemoveFirst(cs, c)
  {
    RemoveFirstShrinks(cs, c);
    var r := RemoveFirst(cs, c);
    forall i | 0 <= i < |r| ensures r[i] in ALPHABET {
      assert r[i] in r;
    }
  }

  /** A first visit caches the whole ALPHABET: the invariant holds and the
      cursor cell's digit falls from 57 to at most 56. */
  lemma FirstVisit(s: GenState, t: GenState, gridX: nat, gridY: nat)
    requires CursorInv(s, gridX, gridY) && s.y < gridY && (s.x, s.y) !in s.cache
    requires t == s.(cache := s.cache[(s.x, s.y) := ALPHABET])
    ensures CursorInv(t, gridX, gridY) && Rank(t, gridX) < Rank(s, gridX)
  {
    AlphabetIsCache();
    forall i, j | 0 <= i < gridY && 0 <= j < gridX ensures CellInv(t, i, j) {
      assert CellInv(s, i, j);
    }
    forall i, j | 0 <= i < gridY && 0 <= j < gridX && Before(i, j, s.x, s.y)
      ensures Digit(t, i, j) == Digit(s, i, j)
    {
      assert (j, i) != (s.x, s.y);
    }
    RankLess(s, t, gridX, gridY, s.x, s.y);
  }

  /** A placement keeps the invariant: the placed cell keeps a cache that no
      longer holds the placed character, and a cell the cursor advances to is
      uncached. */
  lemma PlaceKeepsInv(s: GenState, t: GenState, gridX: nat, gridY: nat, forced: bool, c: char)
    requires CursorInv(s, gridX, gridY) && s.y < gridY
    requires c in CharSet(s.cache, s.x, s.y, forced)
    requires t.cells == s.cells[s.y := s.cells[s.y][s.x := c]]
    requires t.cache == s.cache[(s.x, s.y) := RemoveFirst(CharSet(s.cache, s.x, s.y, forced), c)]
    requires (t.x, t.y) == (s.x, s.y) || (t.x, t.y) == Next(s.x, s.y, gridX)
    ensures CursorInv(t, gridX, gridY)
    ensures (t.x, t.y) != (s.x, s.y) && t.y < gridY ==> (t.x, t.y) !in t.cache
  {
    var cs := CharSet(s.cache, s.x, s.y, forced);
    CharSetIsCache(s, gridX, gridY, forced);
    RemoveFirstKeepsCache(cs, c);
    forall i, j | 0 <= i < gridY && 0 <= j < gridX ensures CellInv(t, i, j) {
      assert CellInv(s, i, j);
    }
    if (t.x, t.y) != (s.x, s.y) && t.y < gridY {
      assert CellInv(s, t.y, t.x);
    }
  }

  /** A placement lowers the measure: the cursor cell's digit falls and no
      earlier digit changes. */
  lemma PlaceLowersRank(s: GenState, t: GenState, gridX: nat, gridY: nat, forced: bool, c: char)
    requires CursorInv(s, gridX, gridY) && CursorInv(t, gridX, gridY) && s.y < gridY
    requires forced ==> s.cells[s.y][s.x] != BLANK
    requires c in CharSet(s.cache, s.x, s.y, forced)
    requires t.cells == s.cells[s.y := s.cells[s.y][s.x := c]]
    requires t.cache == s.cache[(s.x, s.y) := RemoveFirst(CharSet(s.cache, s.x, s.y, forced), c)]
    requires (t.x, t.y) == (s.x, s.y) || (t.x, t.y) == Next(s.x, s.y, gridX)
    ensures Rank(t, gridX) < Rank(s, gridX)
  {
    var cs := CharSet(s.cache, s.x, s.y, forced);
    CharSetIsCache(s, gridX, gridY, forced);
    RemoveFirstShrinks(cs, c);
    forall i, j | 0 <= i < gridY && 0 <= j < gridX && Before(i, j, s.x, s.y)
      ensures Digit(t, i, j) == Digit(s, i, j)
    {
      assert (j, i) != (s.x, s.y);
      assert CellInv(s, i, j);
      DigitKept(s, t, gridX, gridY, i, j);
    }
    RankLess(s, t, gridX, gridY, s.x, s.y);
  }

  /** A cell visited before the cursor whose letter and cache a step leaves
      alone keeps its digit. */
  lemma DigitKept(s: GenState, t: GenState, gridX: nat, gridY: nat, i: nat, j: nat)
    requires CursorInv(s, gridX, gridY) && CursorInv(t, gridX, gridY)
    requires i < gridY && j < gridX && Before(i, j, s.x, s.y)
    requires t.cells[i][j] == s.cells[i][j]
    requires (j, i) in s.cache && (j, i) in t.cache && t.cache[(j, i)] == s.cache[(j, i)]
    ensures Digit(t, i, j) == Digit(s, i, j)
  {
    assert CellInv(t, i, j);
  }

  /** Backtracking keeps the invariant and leaves the cursor on a cached cell. */
  lemma BacktrackKeepsInv(s: GenState, t: GenState, gridX: nat, gridY: nat)
    requires CursorInv(s, gridX, gridY) && s.y < gridY && (s.x, s.y) != (0, 0)
    requires t.cells == s.cells[s.y := s.cells[s.y][s.x := EMPTY]]
    requires t.cache == s.cache - {(s.x, s.y)}
    requires (t.x, t.y) == Prev(s.x, s.y, gridX)
    ensures CursorInv(t, gridX, gridY) && (t.x, t.y) in t.cache
  {
    forall i, j | 0 <= i < gridY && 0 <= j < gridX ensures CellInv(t, i, j) {
      assert CellInv(s, i, j);
    }
    assert CellInv(s, t.y, t.x);
  }

  /** Backtracking from an exhausted cell lowers the measure: that cell's digit
      drops to 0 and no earlier digit changes. */
  lemma BacktrackLowersRank(s: GenState, t: GenState, gridX: nat, gridY: nat)
    requires CursorInv(s, gridX, gridY) && CursorInv(t, gridX, gridY) && s.y < gridY
    requires (s.x, s.y) in s.cache
    requires t.cells == s.cells[s.y := s.cells[s.y][s.x := EMPTY]]
    requires t.cache == s.cache - {(s.x, s.y)}
    requires (t.x, t.y) == Prev(s.x, s.y, gridX)
    ensures Rank(t, gridX) < Rank(s, gridX)
  {
    forall i, j | 0 <= i < gridY && 0 <= j < gridX && Before(i, j, s.x, s.y)
      ensures Digit(t, i, j) == Digit(s, i, j)
    {
      assert (j, i) != (s.x, s.y);
    }
    RankLess(s, t, gridX, gridY, s.x, s.y);
  }

  /** grid[y][x] = c. */
  method SetCell(grid: array2<char>, y: nat, x: nat, c: char)
    requires y < grid.Length0 && x < grid.Length1
    modifies grid
    ensures Snapshot(grid) == old(Snapshot(grid))[y := old(Snapshot(grid))[y][x := c]]
  {
    ghost var before := Snapshot(grid);
    grid[y, x] := c;
    ghost var after := Snapshot(grid);
    forall i | 0 <= i < grid.Length0 ensures after[i] == before[y := before[y][x := c]][i] {
      if i == y {
        assert after[i] == before[y][x := c];
      } else {
        assert after[i] == before[i];
      }
    }
  }

  /** The inner for loop's x++, and the outer loop's move to the next row when
      the row is done. */
  method Advance(x: int, y: int, gridX: nat) returns (x': int, y': int)
    requires -1 <= x < gridX
    ensures (x', y') == Next(x, y, gridX)
  {
    x', y' := x + 1, y;
    if x' == gridX {
      y' := y + 1;
      x' := 0;
    }
  }

  /** Backtracking's effect on the grid and the cache: cell (x, y) is emptied
      and its cache entry deleted. */
  ghost predicate Cleared(before: seq<seq<char>>, after: seq<seq<char>>,
                          cache: map<(int, int), string>, cache': map<(int, int), string>, x: int, y: int)
    requires 0 <= y < |before| && 0 <= x < |before[y]|
  {
    after == before[y := before[y][x := EMPTY]] && cache' == cache - {(x, y)}
  }

  /** A placement's effect on the grid and the cache: some character c of the
      offered set is written into cell (x, y), whose cache becomes the set
      without c. */
  ghost predicate Drew(before: seq<seq<char>>, after: seq<seq<char>>,
                       cache: map<(int, int), string>, cache': map<(int, int), string>,
                       x: int, y: int, offered: string)
    requires 0 <= y < |before| && 0 <= x < |before[y]|
  {
    exists c :: c in offered && DrewChar(before, after, cache, cache', x, y, offered, c)
  }

  ghost predicate DrewChar(before: seq<seq<char>>, after: seq<seq<char>>,
                           cache: map<(int, int), string>, cache': map<(int, int), string>,
                           x: int, y: int, offered: string, c: char)
    requires 0 <= y < |before| && 0 <= x < |before[y]|
  {
    after == before[y := before[y][x := c]] && cache' == cache[(x, y) := RemoveFirst(offered, c)]
  }

  /** Seeding the cursor cell's cache before a placement makes no difference
      to the placement's effect. */
  lemma DrewSeeded(before: seq<seq<char>>, after: seq<seq<char>>,
                   cache: map<(int, int), string>, cache': map<(int, int), string>,
                   x: int, y: int, offered: string, seed: string)
    requires 0 <= y < |before| && 0 <= x < |before[y]|
    requires Drew(before, after, cache[(x, y) := seed], cache', x, y, offered)
    ensures Drew(before, after, cache, cache', x, y, offered)
  {
    var c :| c in offered && DrewChar(before, after, cache[(x, y) := seed], cache', x, y, offered, c);
    assert cache[(x, y) := seed][(x, y) := RemoveFirst(offered, c)] == cache[(x, y) := RemoveFirst(offered, c)];
    assert DrewChar(before, after, cache, cache', x, y, offered, c);
  }

  /** An exhausted cell: its cache is deleted, it is cleared, and the cursor
      steps back one cell (x -= 2 then the loop's x++), into the previous row
      from its first column; at the grid's first cell there is no solution. */
  method Backtrack(grid: array2<char>, cache: map<(int, int), string>, x: int, y: int,
                   ghost gridX: nat, ghost gridY: nat, ghost wordExists: WordOracle)
    returns (cache': map<(int, int), string>, x': int, y': int, failed: bool)
    requires grid.Length0 == gridY && grid.Length1 == gridX && 0 <= y < gridY
    requires CursorInv(GenState(Snapshot(grid), cache, x, y), gridX, gridY)
    requires (x, y) in cache
    modifies grid
    ensures Cleared(old(Snapshot(grid)), Snapshot(grid), cache, cache', x, y)
    ensures failed <==> (x, y) == (0, 0)
    ensures !failed ==> (x', y') == Prev(x, y, gridX)
    ensures !failed ==> GenInv(GenState(Snapshot(grid), cache', x', y'), gridX, gridY, wordExists)
    ensures !failed ==> (x', y') in cache'
    ensures !failed ==>
      Rank(GenState(Snapshot(grid), cache', x', y'), gridX) < Rank(GenState(old(Snapshot(grid)), cache, x, y), gridX)
  {
    ghost var s := GenState(Snapshot(grid), cache, x, y);
    cache' := cache - {(x, y)};
    SetCell(grid, y, x, EMPTY);
    x' := x - 2;
    y' := y;
    if x' < -1 {
      if y == 0 {
        return cache', x', y', true;
      }
      y' := y - 1;
      x' := grid.Length1 - 2;
    }
    x', y' := Advance(x', y', grid.Length1);
    failed := false;
    ghost var t := GenState(Snapshot(grid), cache', x', y');
    BacktrackKeepsInv(s, t, gridX, gridY);
    BacktrackLowersRank(s, t, gridX, gridY);
  }

  /** A cell with characters left: one is drawn at random, removed from the
      cache and placed; the cursor advances if validGrid accepts the grid and
      stays (x -= 1 then the loop's x++) if not. */
  method Place(grid: array2<char>, cache: map<(int, int), string>, x: int, y: int,
               charSet: string, ghost forced: bool, wordExists: WordOracle)
    returns (cache': map<(int, int), string>, x': int, y': int)
    requires 0 <= y < grid.Length0
    requires CursorInv(GenState(Snapshot(grid), cache, x, y), grid.Length1, grid.Length0)
    requires charSet == CharSet(cache, x, y, forced) && |charSet| > 0
    requires forced ==> grid[y, x] != BLANK
    modifies grid
    ensures Drew(old(Snapshot(grid)), Snapshot(grid), cache, cache', x, y, charSet)
    ensures IsGrid(Snapshot(grid)) &&
      (x', y') == if ValidGridSpec(Snapshot(grid), wordExists) then Next(x, y, grid.Length1) else (x, y)
    ensures GenInv(GenState(Snapshot(grid), cache', x', y'), grid.Length1, grid.Length0, wordExists)
    ensures Rank(GenState(Snapshot(grid), cache', x', y'), grid.Length1) <
      Rank(GenState(old(Snapshot(grid)), cache, x, y), grid.Length1)
    ensures (x', y') == (x, y) ==> (x, y) in cache'
    ensures (x', y') != (x, y) ==> IsGrid(Snapshot(grid)) && ValidGridSpec(Snapshot(grid), wordExists)
    ensures (x', y') != (x, y) && y' < grid.Length0 ==> (x', y') !in cache'
  {
    ghost var s := GenState(Snapshot(grid), cache, x, y);
    var k :| 0 <= k < |charSet|;
    var randomChar := charSet[k];
    SetCell(grid, y, x, randomChar);
    cache' := cache[(x, y) := RemoveFirst(charSet, randomChar)];
    var valid := ValidGrid(grid, wordExists);
    x', y' := x, y;
    if valid {
      x', y' := Advance(x, y, grid.Length1);
    }
    assert DrewChar(s.cells, Snapshot(grid), cache, cache', x, y, charSet, randomChar);
    ghost var t := GenState(Snapshot(grid), cache', x', y');
    PlaceKeepsInv(s, t, grid.Length1, grid.Length0, forced, randomChar);
    PlaceLowersRank(s, t, grid.Length1, grid.Length0, forced, randomChar);
  }

  /** The run of non-blank cells that ends a line: split(BLANK).at(-1). */
  function FinalRun(line: string): string {
    Split(line, BLANK)[|Split(line, BLANK)| - 1]
  }

  /** A final run of MAX_WORD_LENGTH + 1 cells ends in a letter, not a blank. */
  lemma ForcedCellNotBlank(line: string)
    requires |line| > 0 && |FinalRun(line)| == MAX_WORD_LENGTH + 1
    ensures line[|line| - 1] != BLANK
  {
    LastPartIsFinalRun(line, BLANK);
    var last := FinalRun(line);
    assert line[|line| - 1] == last[|last| - 1];
  }

  /** The row up to (x, y) or the column down to it ends in a run of
      MAX_WORD_LENGTH + 1 cells. */
  predicate Forced(grid: array2<char>, x: nat, y: nat)
    requires y < grid.Length0 && x < grid.Length1
    reads grid
  {
    |FinalRun(RowOf(grid, y)[..x + 1])| == MAX_WORD_LENGTH + 1 ||
    |FinalRun(ColOf(grid, x)[..y + 1])| == MAX_WORD_LENGTH + 1
  }

  /** The cursor cell must take a blank when the row up to it or the column
      down to it ends in a run of MAX_WORD_LENGTH + 1 cells; that cell then
      already holds a letter. */
  method MustBlank(grid: array2<char>, x: nat, y: nat) returns (forced: bool)
    requires y < grid.Length0 && x < grid.Length1
    ensures forced == Forced(grid, x, y)
    ensures forced ==> grid[y, x] != BLANK
  {
    var rowStr := RowOf(grid, y)[..x + 1];
    var colStr := ColOf(grid, x)[..y + 1];
    var rowParts := Split(rowStr, BLANK);
    var colParts := Split(colStr, BLANK);
    var curRowStr := rowParts[|rowParts| - 1];
    var curColStr := colParts[|colParts| - 1];
    forced := |curRowStr| == MAX_WORD_LENGTH + 1 || |curColStr| == MAX_WORD_LENGTH + 1;
    if |curRowStr| == MAX_WORD_LENGTH + 1 {
      ForcedCellNotBlank(rowStr);
    } else if |curColStr| == MAX_WORD_LENGTH + 1 {
      ForcedCellNotBlank(colStr);
    }
  }

  /** One pass of the generator's loop body at cursor (x, y): a first visit
      caches the whole ALPHABET; a forced cell draws from "_" alone; an
      exhausted cell backtracks (failing at the first cell), otherwise a
      character is placed. The invariant is kept and the measure falls. */
  method Step(grid: array2<char>, cache: map<(int, int), string>, x: int, y: int,
              wordExists: WordOracle)
    returns (cache': map<(int, int), string>, x': int, y': int, failed: bool)
    requires 0 <= y < grid.Length0
    requires GenInv(GenState(Snapshot(grid), cache, x, y), grid.Length1, grid.Length0, wordExists)
    modifies grid
    ensures var offered := CharSet(cache, x, y, old(Forced(grid, x, y)));
      |offered| == 0 ==> (
        Cleared(old(Snapshot(grid)), Snapshot(grid), cache, cache', x, y) &&
        (failed <==> (x, y) == (0, 0)) && (!failed ==> (x', y') == Prev(x, y, grid.Length1)))
    ensures var offered := CharSet(cache, x, y, old(Forced(grid, x, y)));
      |offered| > 0 ==> (!failed && IsGrid(Snapshot(grid)) &&
        Drew(old(Snapshot(grid)), Snapshot(grid), cache, cache', x, y, offered) &&
        (x', y') == if ValidGridSpec(Snapshot(grid), wordExists) then Next(x, y, grid.Length1) else (x, y))
    ensures failed ==> (x, y) == (0, 0)
    ensures !failed ==> GenInv(GenState(Snapshot(grid), cache', x', y'), grid.Length1, grid.Length0, wordExists)
    ensures !failed ==>
      Rank(GenState(Snapshot(grid), cache', x', y'), grid.Length1) < Rank(GenState(old(Snapshot(grid)), cache, x, y), grid.Length1)
  {
    ghost var s := GenState(Snapshot(grid), cache, x, y);
    var charSetMap := cache;
    if (x, y) !in charSetMap {
      charSetMap := charSetMap[(x, y) := ALPHABET];
      FirstVisit(s, GenState(Snapshot(grid), charSetMap, x, y), grid.Length1, grid.Length0);
    }
    var charSet := charSetMap[(x, y)];
    var forced := MustBlank(grid, x, y);
    if forced {
      charSet := [BLANK];
    }
    assert charSet == CharSet(cache, x, y, forced);
    if |charSet| == 0 {
      cache', x', y', failed := Backtrack(grid, charSetMap, x, y, grid.Length1, grid.Length0, wordExists);
    } else {
      cache', x', y' := Place(grid, charSetMap, x, y, charSet, forced, wordExists);
      failed := false;
      if (x, y) !in cache {
        DrewSeeded(old(Snapshot(grid)), Snapshot(grid), cache, cache', x, y, charSet, ALPHABET);
      }
    }
  }

  /** generate: fill a gridY x gridX grid cell by cell, row-major, as Step
      says, until the cursor passes the last row or backtracking runs out.
      The result holds only ALPHABET characters and passed validGrid at its
      last placement. */
  method Generate(gridX: nat, gridY: nat, wordExists: WordOracle) returns (r: Result<array2<char>>)
    ensures r.Ok? ==> fresh(r.value) && r.value.Length0 == gridY && r.value.Length1 == gridX
    ensures r.Ok? ==> forall i, j :: 0 <= i < gridY && 0 <= j < gridX ==> r.value[i, j] in ALPHABET
    ensures r.Ok? && gridX > 0 && gridY > 0 ==>
      IsGrid(Snapshot(r.value)) && ValidGridSpec(Snapshot(r.value), wordExists)
    ensures r.Err? ==> r.error == NoSolution
  {
    var grid := new char[gridY, gridX]((i, j) => EMPTY);
    var charSetMap: map<(int, int), string> := map[];
    if gridX == 0 {
      // no column: every row's inner loop is empty
      return Ok(grid);
    }
    var x: int, y: int := 0, 0;
    assert GenInv(GenState(Snapshot(grid), charSetMap, x, y), gridX, gridY, wordExists) by {
      var s := GenState(Snapshot(grid), charSetMap, x, y);
      forall i, j | 0 <= i < gridY && 0 <= j < gridX ensures CellInv(s, i, j) {
        assert s.cells[i][j] == grid[i, j];
      }
    }
    while y < gridY
      invariant GenInv(GenState(Snapshot(grid), charSetMap, x, y), gridX, gridY, wordExists)
      decreases Rank(GenState(Snapshot(grid), charSetMap, x, y), gridX)
    {
      var failed;
      charSetMap, x, y, failed := Step(grid, charSetMap, x, y, wordExists);
      if failed {
        return Err(NoSolution);
      }
    }
    ghost var s := GenState(Snapshot(grid), charSetMap, x, y);
    assert GenInv(s, gridX, gridY, wordExists);
    forall i, j | 0 <= i < gridY && 0 <= j < gridX ensures grid[i, j] in ALPHABET {
      assert CellInv(s, i, j);
    }
    return Ok(grid);
  }
}
