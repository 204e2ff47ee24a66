/** A game: a hidden answer key and the board the player fills in, a blank
    copy of the key with the same words in the same places. */
module Games {
  import opened Errors
  import opened Layout
  import opened Clues
  import opened Words
  import opened Crosswords

  /** A grid cell reported by getIncorrectCharacters. */
  datatype Cell = Cell(x: int, y: int)

  /** The scan order of getIncorrectCharacters: column by column, top to bottom. */
  predicate Before(a: Cell, b: Cell) {
    a.x < b.x || (a.x == b.x && a.y < b.y)
  }

  class CrosswordGame {
    const key: Crossword
    const board: Crossword
    const rows: int
    const cols: int

    /** Key and board are well formed (only the board's words need be
        distinct), hold their words in the same places and share no word
        object; the board holds only blanks and letters a-z; the game's size
        is the key's and the board's. */
    ghost predicate Valid()
      reads this, key, board, key.words, board.words
    {
      Matches(key, board, rows, cols)
    }

    /** The board's letters as values. */
    ghost function Board(): seq<Entry>
      reads this, board, board.words
    {
      EntriesOf(board.words)
    }

    /** The key's letters as values. */
    ghost function Key(): seq<Entry>
      reads this, key, key.words
    {
      EntriesOf(key.words)
    }

    /** Starts a game on the key with a blank board. */
    constructor (key: Crossword)
      requires AllValid(key.words) && key.Sized()
      modifies CluesOf(key.words)
      ensures Valid() && this.key == key
      ensures Board() == Blanked(Key())
      ensures Key() == old(EntriesOf(key.words))
      ensures rows == key.rows && cols == key.cols
      ensures CluesFollowWords(key.words)
    {
      ghost var ks := EntriesOf(key.words);
      var b := NewBoard(key);
      this.key := key;
      board := b;
      rows := key.rows;
      cols := key.cols;
      new;
      assert Started(key, board, ks);
    }

    /** The player writes c at cell (x, y): the board changes as Crossword.setCharAt
        says, the key never does. */
    method SetCharAt(x: int, y: int, c: string) returns (r: Outcome)
      requires Valid()
      modifies board.words
      ensures Valid()
      ensures r == if Intersects(SlotsOf(board.words), x, y) && CheckChar(c).Err?
        then Fail(CheckChar(c).error) else Pass
      ensures Board() == if CheckChar(c).Ok?
        then WriteAt(old(Board()), x, y, CheckChar(c).value) else old(Board())
      ensures Key() == old(Key())
    {
      r := board.SetCharAt(x, y, c);
      if CheckChar(c).Ok? {
        WriteAtKeepsPlayable(old(Board()), x, y, CheckChar(c).value);
      }
    }

    /** The cells of the grid where the board covers a word and its letter
        differs from the key's, in scan order. */
    method GetIncorrectCharacters() returns (cells: seq<Cell>)
      requires Valid()
      ensures cells == Scan(Board(), Key(), Max(0, rows), Max(0, cols), 0)
      ensures forall c :: c in cells <==> InGrid(rows, cols, c.x, c.y) && Incorrect(Board(), Key(), c.x, c.y)
      ensures forall i, j :: 0 <= i < j < |cells| ==> Before(cells[i], cells[j])
    {
      ghost var B := Board();
      ghost var K := Key();
      ghost var R := Max(0, rows);
      cells := [];
      var x := 0;
      while x < board.cols
        invariant 0 <= x <= Max(0, cols)
        invariant cells == Scan(B, K, R, x, 0)
      {
        var y := 0;
        while y < board.rows
          invariant 0 <= y <= R
          invariant cells == Scan(B, K, R, x, y)
        {
          cells := CheckCell(cells, x, y);
          y := y + 1;
        }
        x := x + 1;
      }
      ScanMembers(B, K, R, x, 0);
      ScanOrdered(B, K, R, x, 0);
    }

    /** One step of the scan: (x, y) is added when the board covers it with a
        letter other than the key's. */
    method CheckCell(cells: seq<Cell>, x: int, y: int) returns (r: seq<Cell>)
      requires Valid()
      ensures r == cells + (if Incorrect(Board(), Key(), x, y) then [Cell(x, y)] else [])
    {
      IntersectsIffCharAt(Board(), x, y);
      r := cells;
      if board.IntersectsWord(x, y) {
        var boardChar := board.GetCharAt(x, y);
        var keyChar := key.GetCharAt(x, y);
        if boardChar != keyChar {
          r := cells + [Cell(x, y)];
        }
      }
    }

    /** Solved when no scanned cell is incorrect. */
    method IsSolved() returns (solved: bool)
      requires Valid()
      ensures solved <==> Solved(Board(), Key(), rows, cols)
    {
      var cells := GetIncorrectCharacters();
      solved := |cells| == 0;
      if !solved {
        assert cells[0] in cells;
      } else {
        forall x, y | InGrid(rows, cols, x, y)
          ensures !Incorrect(Board(), Key(), x, y)
        {
          assert Cell(x, y) !in cells;
        }
      }
    }
  }

  /** Key and board are well formed (the key may list a word object twice;
      the board's words are distinct), hold their words in the same places
      and share no word object; the board holds only blanks and letters a-z; the
      game's size is the key's and the board's. */
  ghost predicate Matches(key: Crossword, board: Crossword, rows: int, cols: int)
    reads key, board, key.words, board.words
  {
    AllValid(key.words) && board.Valid() &&
    SlotsOf(board.words) == SlotsOf(key.words) &&
    rows == key.rows == board.rows && cols == key.cols == board.cols &&
    (forall i, j :: 0 <= i < |board.words| && 0 <= j < |key.words| ==> board.words[i] != key.words[j]) &&
    Playable(EntriesOf(board.words))
  }

  /** What a new game holds: the key's letters are ks, the board is their blank copy. */
  ghost predicate Started(key: Crossword, board: Crossword, ks: seq<Entry>)
    reads key, board, key.words, board.words, CluesOf(key.words)
  {
    Matches(key, board, key.rows, key.cols) &&
    EntriesOf(key.words) == ks && EntriesOf(board.words) == Blanked(ks) &&
    CluesFollowWords(key.words)
  }

  /** The board of a new game: a blank copy of the key, made of new words. */
  method NewBoard(key: Crossword) returns (b: Crossword)
    requires AllValid(key.words) && key.Sized()
    modifies CluesOf(key.words)
    ensures fresh(b) && Started(key, b, old(EntriesOf(key.words)))
  {
    b := key.CreateBlankCopy();
    assert forall i, j :: 0 <= i < |b.words| && 0 <= j < |key.words| ==> b.words[i] != key.words[j];
    BlankedIsPlayable(EntriesOf(key.words));
  }

  /** The incorrect cells met by the scan before it reaches cell (x, y): all of
      columns [0, x), then rows [0, y) of column x, within rows [0, rows). */
  function Scan(board: seq<Entry>, key: seq<Entry>, rows: nat, x: nat, y: nat): seq<Cell>
    requires AllWellFormed(board) && AllWellFormed(key)
    decreases x, y
  {
    if y > 0 then
      Scan(board, key, rows, x, y - 1) + (if Incorrect(board, key, x, y - 1) then [Cell(x, y - 1)] else [])
    else if x > 0 then Scan(board, key, rows, x - 1, rows)
    else []
  }

  /** Membership: the scan lists exactly the incorrect cells it has passed. */
  lemma {:induction false} ScanMembers(board: seq<Entry>, key: seq<Entry>, rows: nat, x: nat, y: nat)
    requires AllWellFormed(board) && AllWellFormed(key) && y <= rows
    ensures forall c :: c in Scan(board, key, rows, x, y) <==>
      ((0 <= c.x < x && 0 <= c.y < rows) || (c.x == x && 0 <= c.y < y)) && Incorrect(board, key, c.x, c.y)
    decreases x, y
  {
    if y > 0 {
      ScanMembers(board, key, rows, x, y - 1);
    } else if x > 0 {
      ScanMembers(board, key, rows, x - 1, rows);
    }
  }

  /** Order: the scan lists cells in strictly increasing scan order, all before (x, y). */
  lemma {:induction false} ScanOrdered(board: seq<Entry>, key: seq<Entry>, rows: nat, x: nat, y: nat)
    requires AllWellFormed(board) && AllWellFormed(key) && y <= rows
    ensures forall i, j :: 0 <= i < j < |Scan(board, key, rows, x, y)| ==>
      Before(Scan(board, key, rows, x, y)[i], Scan(board, key, rows, x, y)[j])
    ensures forall i :: 0 <= i < |Scan(board, key, rows, x, y)| ==>
      Before(Scan(board, key, rows, x, y)[i], Cell(x, y))
    decreases x, y
  {
    if y > 0 {
      ScanOrdered(board, key, rows, x, y - 1);
    } else if x > 0 {
      ScanOrdered(board, key, rows, x - 1, rows);
      ScanMembers(board, key, rows, x - 1, rows);
      forall i | 0 <= i < |Scan(board, key, rows, x, y)|
        ensures Before(Scan(board, key, rows, x, y)[i], Cell(x, y))
      {
        assert Scan(board, key, rows, x, y)[i] in Scan(board, key, rows, x - 1, rows);
      }
    }
  }

  /** A player copying the key: for each listed cell in turn, setCharAt with
      the key's letter there, which stores it lower-cased if CheckChar accepts
      it and changes nothing otherwise; cells the key does not cover are skipped. */
  function FillFromKey(board: seq<Entry>, key: seq<Entry>, cells: seq<(int, int)>): (r: seq<Entry>)
    requires AllWellFormed(board) && AllWellFormed(key)
    ensures AllWellFormed(r) && Shapes(r) == Shapes(board)
    decreases |cells|
  {
    if cells == [] then board
    else
      var (x, y) := cells[0];
      FillFromKey(FillStep(board, key, x, y), key, cells[1..])
  }

  /** One setCharAt of the key's letter at (x, y), as the game's SetCharAt
      changes the board. */
  function FillStep(board: seq<Entry>, key: seq<Entry>, x: int, y: int): (r: seq<Entry>)
    requires AllWellFormed(board) && AllWellFormed(key)
    ensures AllWellFormed(r) && Shapes(r) == Shapes(board)
  {
    match CharAt(key, x, y)
    case Some(ch) =>
      (match CheckChar([ch])
       case Ok(v) => WriteAt(board, x, y, v)
       case Err(_) => board)
    case None => board
  }

  /** Cells not listed are untouched by FillFromKey. */
  lemma {:induction false} FillFromKeyFrame(board: seq<Entry>, key: seq<Entry>, cells: seq<(int, int)>, x: int, y: int)
    requires AllWellFormed(board) && AllWellFormed(key)
    requires (x, y) !in cells
    ensures CharAt(FillFromKey(board, key, cells), x, y) == CharAt(board, x, y)
    decreases |cells|
  {
    if cells != [] {
      var (cx, cy) := cells[0];
      assert (x, y) != (cx, cy);
      FillFromKeyFrame(FillStep(board, key, cx, cy), key, cells[1..], x, y);
      if CharAt(key, cx, cy).Some? && CheckChar([CharAt(key, cx, cy).value]).Ok? {
        WriteAtReadBack(board, cx, cy, CheckChar([CharAt(key, cx, cy).value]).value, x, y);
      }
    }
  }

  /** A listed cell whose key letter is a-z reads the key's letter after
      FillFromKey (any other key letter is never matched: OddKeyLetterNeverSolved). */
  lemma {:induction false} FillFromKeyMatches(board: seq<Entry>, key: seq<Entry>, cells: seq<(int, int)>, x: int, y: int)
    requires AllWellFormed(board) && AllWellFormed(key) && Shapes(board) == Shapes(key)
    requires (x, y) in cells
    requires CharAt(key, x, y).Some? ==> IsLowerLetter(CharAt(key, x, y).value)
    ensures CharAt(FillFromKey(board, key, cells), x, y) == CharAt(key, x, y)
    decreases |cells|
  {
    var (cx, cy) := cells[0];
    var next := FillStep(board, key, cx, cy);
    if (x, y) in cells[1..] {
      FillFromKeyMatches(next, key, cells[1..], x, y);
    } else {
      assert (x, y) == (cx, cy);
      FillFromKeyFrame(next, key, cells[1..], x, y);
      IntersectsIffCharAt(key, x, y);
      IntersectsIffCharAt(board, x, y);
      if CharAt(key, x, y).Some? {
        var ch := CharAt(key, x, y).value;
        CheckCharAccepts([ch]);
        WriteAtReadBack(board, x, y, ch, x, y);
      }
    }
  }

  /** Copying the key's letter into every covered cell of the grid solves the
      game when the key's letters there are a-z. */
  lemma FillingFromKeySolves(board: seq<Entry>, key: seq<Entry>, cells: seq<(int, int)>, rows: int, cols: int)
    requires AllWellFormed(board) && AllWellFormed(key) && Shapes(board) == Shapes(key)
    requires forall x, y :: InGrid(rows, cols, x, y) && Intersects(Shapes(key), x, y) ==>
      (x, y) in cells && (CharAt(key, x, y).Some? ==> IsLowerLetter(CharAt(key, x, y).value))
    ensures Solved(FillFromKey(board, key, cells), key, rows, cols)
  {
    var filled := FillFromKey(board, key, cells);
    forall x, y | InGrid(rows, cols, x, y) && Intersects(Shapes(filled), x, y)
      ensures CharAt(filled, x, y) == CharAt(key, x, y)
    {
      IntersectsIffCharAt(key, x, y);
      FillFromKeyMatches(board, key, cells, x, y);
    }
  }

  /** A new game is unsolved as long as the key has a letter other than '_'
      somewhere in the grid. */
  lemma NewGameUnsolved(key: seq<Entry>, rows: int, cols: int, x: int, y: int)
    requires AllWellFormed(key) && InGrid(rows, cols, x, y)
    requires CharAt(key, x, y).Some? && CharAt(key, x, y).value != BLANK
    ensures !Solved(Blanked(key), key, rows, cols)
  {
    BlankedReadsBlank(key, x, y);
    IntersectsIffCharAt(key, x, y);
    assert Incorrect(Blanked(key), key, x, y);
  }
}
