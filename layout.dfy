/** Value-level view of a crossword: where each word sits and what it holds.
    The classes Word, Crossword and CrosswordGame are specified against these
    functions; the lemmas below are the properties of the puzzle model.
    Cells are addressed as (x, y) = (column, row), as in the source. */
module Layout {
  import opened Errors

  datatype Direction = Across | Down

  /** The fixed part of a placed word: anchor row and column, direction, length. */
  datatype Slot = Slot(row: int, col: int, dir: Direction, length: nat)

  /** A word's current letters at its slot. */
  datatype Entry = Entry(slot: Slot, text: string)

  /** The placeholder a blank copy is filled with. */
  const BLANK: char := '_'

  predicate WellFormed(e: Entry) {
    |e.text| == e.slot.length
  }

  predicate AllWellFormed(es: seq<Entry>) {
    forall i :: 0 <= i < |es| ==> WellFormed(es[i])
  }

  function Shapes(es: seq<Entry>): seq<Slot> {
    seq(|es|, i requires 0 <= i < |es| => es[i].slot)
  }

  /** Does the word at slot s run through cell (x, y)? */
  predicate Covers(s: Slot, x: int, y: int) {
    match s.dir
    case Across => y == s.row && s.col <= x < s.col + s.length
    case Down => x == s.col && s.row <= y < s.row + s.length
  }

  /** Position of cell (x, y) inside the word at slot s. */
  function Offset(s: Slot, x: int, y: int): (k: int)
    ensures Covers(s, x, y) ==> 0 <= k < s.length
  {
    if s.dir == Across then x - s.col else y - s.row
  }

  /** The letter a word holds at a cell it covers. */
  function Letter(e: Entry, x: int, y: int): char
    requires WellFormed(e) && Covers(e.slot, x, y)
  {
    e.text[Offset(e.slot, x, y)]
  }

  /** getCharAt: the letter of the FIRST word in list order covering the cell. */
  function CharAt(es: seq<Entry>, x: int, y: int): Option<char>
    requires AllWellFormed(es)
  {
    if es == [] then None
    else if Covers(es[0].slot, x, y) then Some(Letter(es[0], x, y))
    else CharAt(es[1..], x, y)
  }

  /** intersectsWord: some word covers the cell. */
  predicate Intersects(slots: seq<Slot>, x: int, y: int) {
    exists i :: 0 <= i < |slots| && Covers(slots[i], x, y)
  }

  /** The row just below a word's last cell. */
  function RowExtent(s: Slot): int {
    s.row + (if s.dir == Down then s.length else 1)
  }

  /** The column just right of a word's last cell. */
  function ColExtent(s: Slot): int {
    s.col + (if s.dir == Across then s.length else 1)
  }

  function Max(a: int, b: int): int {
    if a < b then b else a
  }

  /** Number of grid rows: the largest row extent of any word
      (0 stands in for the -Infinity of an empty word list). */
  function Rows(slots: seq<Slot>): int {
    if |slots| == 0 then 0
    else if |slots| == 1 then RowExtent(slots[0])
    else Max(RowExtent(slots[0]), Rows(slots[1..]))
  }

  /** Number of grid columns: the largest column extent of any word
      (0 stands in for the -Infinity of an empty word list). */
  function Cols(slots: seq<Slot>): int {
    if |slots| == 0 then 0
    else if |slots| == 1 then ColExtent(slots[0])
    else Max(ColExtent(slots[0]), Cols(slots[1..]))
  }

  /** Rows and Cols are the maxima of the words' extents: no word reaches past
      them and some word reaches exactly to each of them. */
  lemma {:induction false} ExtentsAreMaxima(slots: seq<Slot>)
    ensures |slots| == 0 ==> Rows(slots) == 0 && Cols(slots) == 0
    ensures forall i :: 0 <= i < |slots| ==> RowExtent(slots[i]) <= Rows(slots) && ColExtent(slots[i]) <= Cols(slots)
    ensures |slots| > 0 ==> exists i :: 0 <= i < |slots| && Rows(slots) == RowExtent(slots[i])
    ensures |slots| > 0 ==> exists i :: 0 <= i < |slots| && Cols(slots) == ColExtent(slots[i])
  {
    if |slots| > 1 {
      var rest := slots[1..];
      ExtentsAreMaxima(rest);
      forall i | 1 <= i < |slots|
        ensures RowExtent(slots[i]) <= Rows(slots) && ColExtent(slots[i]) <= Cols(slots)
      {
        assert slots[i] == rest[i - 1];
      }
      var ir :| 0 <= ir < |rest| && Rows(rest) == RowExtent(rest[ir]);
      var ic :| 0 <= ic < |rest| && Cols(rest) == ColExtent(rest[ic]);
      assert slots[ir + 1] == rest[ir] && slots[ic + 1] == rest[ic];
      var jr := if Rows(slots) == RowExtent(slots[0]) then 0 else ir + 1;
      var jc := if Cols(slots) == ColExtent(slots[0]) then 0 else ic + 1;
      assert Rows(slots) == RowExtent(slots[jr]) && Cols(slots) == ColExtent(slots[jc]);
    }
  }

  /** setCharAt on the grid: every covering word receives ch at its own offset. */
  function WriteAt(es: seq<Entry>, x: int, y: int, ch: char): (r: seq<Entry>)
    requires AllWellFormed(es)
    ensures AllWellFormed(r) && Shapes(r) == Shapes(es)
  {
    seq(|es|, i requires 0 <= i < |es| =>
      if Covers(es[i].slot, x, y)
      then Entry(es[i].slot, es[i].text[Offset(es[i].slot, x, y) := ch])
      else es[i])
  }

  function Blank(n: nat): (s: string)
    ensures |s| == n && forall i :: 0 <= i < n ==> s[i] == BLANK
  {
    seq(n, _ => BLANK)
  }

  /** createBlankCopy on the grid: same slots, every letter replaced by '_'. */
  function Blanked(es: seq<Entry>): (r: seq<Entry>)
    ensures AllWellFormed(r) && Shapes(r) == Shapes(es)
  {
    seq(|es|, i requires 0 <= i < |es| => Entry(es[i].slot, Blank(es[i].slot.length)))
  }

  /** Overlap consistency: words that share a cell hold the same letter there. */
  ghost predicate Consistent(es: seq<Entry>)
    requires AllWellFormed(es)
  {
    forall i, j, x, y ::
      0 <= i < |es| && 0 <= j < |es| && Covers(es[i].slot, x, y) && Covers(es[j].slot, x, y)
      ==> Letter(es[i], x, y) == Letter(es[j], x, y)
  }

  // ---------------------------------------------------------------------------
  // Reading cells

  /** intersectsWord(x, y) holds exactly when getCharAt(x, y) is defined. */
  lemma {:induction false} IntersectsIffCharAt(es: seq<Entry>, x: int, y: int)
    requires AllWellFormed(es)
    ensures Intersects(Shapes(es), x, y) <==> CharAt(es, x, y).Some?
  {
    if es != [] {
      var t := es[1..];
      IntersectsIffCharAt(t, x, y);
      if Intersects(Shapes(t), x, y) {
        var i :| 0 <= i < |t| && Covers(Shapes(t)[i], x, y);
        assert Shapes(t)[i] == Shapes(es)[i + 1];
      }
      if Intersects(Shapes(es), x, y) && !Covers(es[0].slot, x, y) {
        var i :| 0 <= i < |es| && Covers(Shapes(es)[i], x, y);
        assert Shapes(es)[i] == Shapes(t)[i - 1];
      }
      if Covers(es[0].slot, x, y) {
        assert Covers(Shapes(es)[0], x, y);
      }
    }
  }

  /** getCharAt answers with the letter of the first covering word in list order. */
  lemma {:induction false} CharAtIsFirstCovering(es: seq<Entry>, x: int, y: int, i: nat)
    requires AllWellFormed(es) && i < |es| && Covers(es[i].slot, x, y)
    requires forall j :: 0 <= j < i ==> !Covers(es[j].slot, x, y)
    ensures CharAt(es, x, y) == Some(Letter(es[i], x, y))
  {
    if i > 0 {
      CharAtIsFirstCovering(es[1..], x, y, i - 1);
    }
  }

  /** When the words agree on shared cells, every covering word gives getCharAt's answer. */
  lemma ConsistentCharAt(es: seq<Entry>, x: int, y: int, i: nat)
    requires AllWellFormed(es) && Consistent(es)
    requires i < |es| && Covers(es[i].slot, x, y)
    ensures CharAt(es, x, y) == Some(Letter(es[i], x, y))
  {
    var f := i;
    while f > 0 && !(forall j :: 0 <= j < f ==> !Covers(es[j].slot, x, y))
      invariant 0 <= f <= i && Covers(es[f].slot, x, y)
      decreases f
    {
      var j :| 0 <= j < f && Covers(es[j].slot, x, y);
      f := j;
    }
    CharAtIsFirstCovering(es, x, y, f);
  }

  /** Every covered cell lies left of cols and above rows; with non-negative
      anchors it lies inside [0, cols) x [0, rows). */
  lemma CoveredCellInsideGrid(slots: seq<Slot>, x: int, y: int)
    requires Intersects(slots, x, y)
    ensures x < Cols(slots) && y < Rows(slots)
    ensures (forall i :: 0 <= i < |slots| ==> slots[i].row >= 0 && slots[i].col >= 0) ==> 0 <= x && 0 <= y
  {
    var i :| 0 <= i < |slots| && Covers(slots[i], x, y);
    ExtentsAreMaxima(slots);
    assert RowExtent(slots[i]) <= Rows(slots) && ColExtent(slots[i]) <= Cols(slots);
  }

  // ---------------------------------------------------------------------------
  // Writing cells

  /** Two cells of one word never share an offset. */
  lemma OffsetInjective(s: Slot, x: int, y: int, x': int, y': int)
    requires Covers(s, x, y) && Covers(s, x', y') && Offset(s, x, y) == Offset(s, x', y')
    ensures x == x' && y == y'
  {
  }

  /** Round trip: after a write the cell reads back the written letter, and every
      other cell reads what it read before. */
  lemma {:induction false} WriteAtReadBack(es: seq<Entry>, x: int, y: int, ch: char, x': int, y': int)
    requires AllWellFormed(es)
    ensures CharAt(WriteAt(es, x, y, ch), x', y') ==
      if x' == x && y' == y && Intersects(Shapes(es), x, y) then Some(ch) else CharAt(es, x', y')
  {
    IntersectsIffCharAt(es, x, y);
    if es != [] {
      var w := WriteAt(es, x, y, ch);
      assert w[1..] == WriteAt(es[1..], x, y, ch);
      WriteAtReadBack(es[1..], x, y, ch, x', y');
      IntersectsIffCharAt(es[1..], x, y);
      if Covers(es[0].slot, x', y') && Covers(es[0].slot, x, y) && (x' != x || y' != y) {
        if Offset(es[0].slot, x, y) == Offset(es[0].slot, x', y') {
          OffsetInjective(es[0].slot, x, y, x', y');
        }
      }
    }
  }

  /** A write keeps overlapping words in agreement. */
  lemma WriteAtKeepsConsistent(es: seq<Entry>, x: int, y: int, ch: char)
    requires AllWellFormed(es) && Consistent(es)
    ensures Consistent(WriteAt(es, x, y, ch))
  {
    var w := WriteAt(es, x, y, ch);
    forall i, j, x', y' |
      0 <= i < |w| && 0 <= j < |w| && Covers(w[i].slot, x', y') && Covers(w[j].slot, x', y')
      ensures Letter(w[i], x', y') == Letter(w[j], x', y')
    {
      if x' == x && y' == y {
        assert Letter(w[i], x', y') == ch == Letter(w[j], x', y');
      } else {
        forall k | 0 <= k < |w| && Covers(w[k].slot, x', y')
          ensures Letter(w[k], x', y') == Letter(es[k], x', y')
        {
          if Covers(es[k].slot, x, y) && Offset(es[k].slot, x, y) == Offset(es[k].slot, x', y') {
            OffsetInjective(es[k].slot, x, y, x', y');
          }
        }
      }
    }
  }

  /** A blank copy reads '_' exactly at the covered cells and agrees with itself. */
  lemma {:induction false} BlankedReadsBlank(es: seq<Entry>, x: int, y: int)
    ensures CharAt(Blanked(es), x, y) == if Intersects(Shapes(es), x, y) then Some(BLANK) else None
    ensures Consistent(Blanked(es))
  {
    var b := Blanked(es);
    IntersectsIffCharAt(b, x, y);
    if CharAt(b, x, y).Some? {
      var f :| 0 <= f < |b| && Covers(b[f].slot, x, y);
      while f > 0 && !(forall j :: 0 <= j < f ==> !Covers(b[j].slot, x, y))
        invariant 0 <= f < |b| && Covers(b[f].slot, x, y)
        decreases f
      {
        var j :| 0 <= j < f && Covers(b[j].slot, x, y);
        f := j;
      }
      CharAtIsFirstCovering(b, x, y, f);
    }
  }

  // ---------------------------------------------------------------------------
  // The game's view: a board compared with its key

  /** getIncorrectCharacters keeps a cell when the board covers it and the board's
      letter differs from the key's. */
  predicate Incorrect(board: seq<Entry>, key: seq<Entry>, x: int, y: int)
    requires AllWellFormed(board) && AllWellFormed(key)
  {
    Intersects(Shapes(board), x, y) && CharAt(board, x, y) != CharAt(key, x, y)
  }

  predicate InGrid(rows: int, cols: int, x: int, y: int) {
    0 <= x < cols && 0 <= y < rows
  }

  /** isSolved: no scanned cell is incorrect. */
  ghost predicate Solved(board: seq<Entry>, key: seq<Entry>, rows: int, cols: int)
    requires AllWellFormed(board) && AllWellFormed(key)
  {
    forall x, y :: InGrid(rows, cols, x, y) ==> !Incorrect(board, key, x, y)
  }

  /** The letters the game can ever put on a board: '_' from the blank copy and
      the lower-case letters setCharAt accepts. */
  predicate Playable(board: seq<Entry>) {
    forall i, k :: 0 <= i < |board| && 0 <= k < |board[i].text| ==>
      board[i].text[k] == BLANK || 'a' <= board[i].text[k] <= 'z'
  }

  lemma BlankedIsPlayable(es: seq<Entry>)
    ensures Playable(Blanked(es))
  {
  }

  lemma WriteAtKeepsPlayable(es: seq<Entry>, x: int, y: int, ch: char)
    requires AllWellFormed(es) && Playable(es) && 'a' <= ch <= 'z'
    ensures Playable(WriteAt(es, x, y, ch))
  {
  }

  /** A key cell holding anything but '_' or a-z (an upper-case letter, say) can
      never be matched by a board the game produced, so that game is never solved. */
  lemma {:induction false} OddKeyLetterNeverSolved(board: seq<Entry>, key: seq<Entry>, rows: int, cols: int, x: int, y: int)
    requires AllWellFormed(board) && AllWellFormed(key) && Playable(board)
    requires Shapes(board) == Shapes(key) && InGrid(rows, cols, x, y)
    requires CharAt(key, x, y).Some?
    requires var c := CharAt(key, x, y).value; c != BLANK && !('a' <= c <= 'z')
    ensures !Solved(board, key, rows, cols)
  {
    IntersectsIffCharAt(key, x, y);
    IntersectsIffCharAt(board, x, y);
    var f :| 0 <= f < |board| && Covers(board[f].slot, x, y);
    while f > 0 && !(forall j :: 0 <= j < f ==> !Covers(board[j].slot, x, y))
      invariant 0 <= f < |board| && Covers(board[f].slot, x, y)
      decreases f
    {
      var j :| 0 <= j < f && Covers(board[j].slot, x, y);
      f := j;
    }
    CharAtIsFirstCovering(board, x, y, f);
    assert board[f].text[Offset(board[f].slot, x, y)] == CharAt(board, x, y).value;
    assert Incorrect(board, key, x, y);
  }

  /** With anchors at non-negative rows and columns, scanning [0, cols) x [0, rows)
      visits every covered cell: the game is solved exactly when every covered
      cell reads the key's letter. */
  lemma {:induction false} SolvedIffCoveredCellsMatch(board: seq<Entry>, key: seq<Entry>)
    requires AllWellFormed(board) && AllWellFormed(key) && Shapes(board) == Shapes(key)
    requires forall i :: 0 <= i < |key| ==> key[i].slot.row >= 0 && key[i].slot.col >= 0
    ensures Solved(board, key, Rows(Shapes(key)), Cols(Shapes(key))) <==>
      forall x, y :: Intersects(Shapes(board), x, y) ==> CharAt(board, x, y) == CharAt(key, x, y)
  {
    var slots := Shapes(key);
    forall x, y | Intersects(Shapes(board), x, y)
      ensures InGrid(Rows(slots), Cols(slots), x, y)
    {
      CoveredCellInsideGrid(slots, x, y);
    }
  }
}
