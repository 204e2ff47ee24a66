/** The greedy placer: builds a game by adding dictionary words one at a time,
    an across word in the first row that holds no letter yet, or else a down
    word in the first column without a down word, until every row of a
    maxRows x maxCols grid holds a letter. The dictionary's random pick is an
    oracle: any entry of the requested length. */
module CrosswordGeneration {
  import opened Errors
  import opened Layout
  import opened Clues
  import opened Words
  import opened Crosswords
  import opened Games

  /** A dictionary entry as the word oracle returns it. */
  datatype DictWord = DictWord(text: string, clue: string)

  const MAX_ATTEMPTS: int := 100
  /** Candidate lengths run from min(size, 7) down to 3. */
  const LONGEST_WORD: int := 7
  const SHORTEST_WORD: int := 3

  /** Math.min(n, 7). */
  function Longest(n: int): (r: int)
    ensures r <= n && r <= LONGEST_WORD && (r == n || r == LONGEST_WORD)
  {
    if n < LONGEST_WORD then n else LONGEST_WORD
  }

  // ---------------------------------------------------------------------
  // getFilledRows

  /** The rows [lo, lo + n). */
  function RowsFrom(lo: int, n: int): (r: set<int>)
    ensures forall y :: y in r <==> lo <= y < lo + n
    decreases n
  {
    if n <= 0 then {} else RowsFrom(lo, n - 1) + {lo + n - 1}
  }

  /** The rows a word puts letters in: its own row if across, every row it
      spans if down. */
  function RowSpan(s: Slot): set<int> {
    if s.dir == Across then {s.row} else RowsFrom(s.row, s.length)
  }

  /** The union of the rows spanned by the words, in list order. */
  function CoveredRows(slots: seq<Slot>): set<int> {
    if slots == [] then {} else CoveredRows(slots[..|slots| - 1]) + RowSpan(slots[|slots| - 1])
  }

  /** getFilledRows: the rows holding a letter of some word; the grid size
      arguments play no part. */
  method GetFilledRows(words: seq<Word>, maxRows: int, maxCols: int) returns (filled: set<int>)
    ensures filled == CoveredRows(SlotsOf(words))
  {
    ghost var slots := SlotsOf(words);
    filled := {};
    var k := 0;
    while k < |words|
      invariant 0 <= k <= |words|
      invariant filled == CoveredRows(slots[..k])
    {
      var word := words[k];
      assert slots[..k + 1][..k] == slots[..k];
      if word.direction == Across {
        filled := filled + {word.row};
      } else {
        var i := 0;
        while i < word.length
          invariant 0 <= i <= word.length
          invariant filled == CoveredRows(slots[..k]) + RowsFrom(word.row, i)
        {
          assert RowsFrom(word.row, i + 1) == RowsFrom(word.row, i) + {word.row + i};
          filled := filled + {word.row + i};
          i := i + 1;
        }
      }
      k := k + 1;
    }
    assert slots[..k] == slots;
  }

  /** n consecutive rows are n rows. */
  lemma {:induction false} RowsFromCard(lo: int, n: nat)
    ensures |RowsFrom(lo, n)| == n
  {
    if n > 0 {
      var prev := RowsFrom(lo, n - 1);
      RowsFromCard(lo, n - 1);
      assert RowsFrom(lo, n) == prev + {lo + n - 1} && prev * {lo + n - 1} == {};
    }
  }

  /** A row is filled exactly when some word spans it. */
  lemma {:induction false} CoveredRowsMeaning(slots: seq<Slot>, y: int)
    ensures y in CoveredRows(slots) <==> exists k :: 0 <= k < |slots| && y in RowSpan(slots[k])
  {
    if slots != [] {
      var pre := slots[..|slots| - 1];
      CoveredRowsMeaning(pre, y);
      if y in CoveredRows(pre) {
        var k :| 0 <= k < |pre| && y in RowSpan(pre[k]);
        assert slots[k] == pre[k];
      }
      if exists k :: 0 <= k < |slots| && y in RowSpan(slots[k]) {
        var k :| 0 <= k < |slots| && y in RowSpan(slots[k]);
        if k < |pre| {
          assert slots[k] == pre[k];
        }
      }
    }
  }

  /** The filled rows are exactly the rows of the grid holding a letter of
      some (non-empty) word. */
  lemma FilledRowsHoldLetters(slots: seq<Slot>, y: int)
    requires forall k :: 0 <= k < |slots| ==> slots[k].length > 0
    ensures y in CoveredRows(slots) <==> RowHasLetter(slots, y)
  {
    CoveredRowsMeaning(slots, y);
    if y in CoveredRows(slots) {
      var k :| 0 <= k < |slots| && y in RowSpan(slots[k]);
      assert Covers(slots[k], slots[k].col, y);
      assert Intersects(slots, slots[k].col, y);
    }
    if exists x :: Intersects(slots, x, y) {
      var x :| Intersects(slots, x, y);
      var k :| 0 <= k < |slots| && Covers(slots[k], x, y);
      assert y in RowSpan(slots[k]);
    }
  }

  /** Some word puts a letter in row y. */
  ghost predicate RowHasLetter(slots: seq<Slot>, y: int) {
    exists x :: Intersects(slots, x, y)
  }

  /** A set of rows inside [0, n) with at least n members is all of [0, n). */
  lemma FullRows(filled: set<int>, n: int)
    requires filled <= RowsFrom(0, n) && |filled| >= n
    ensures forall y :: 0 <= y < n ==> y in filled
  {
    if n > 0 {
      RowsFromCard(0, n);
      var missing := RowsFrom(0, n) - filled;
      assert RowsFrom(0, n) == filled + missing && filled * missing == {};
      assert missing == {};
    }
  }

  // ---------------------------------------------------------------------
  // The placement rule

  /** The word lies inside a grid of maxRows rows and maxCols columns. */
  predicate Inside(s: Slot, maxRows: int, maxCols: int) {
    0 <= s.row && RowExtent(s) <= maxRows && 0 <= s.col && ColExtent(s) <= maxCols
  }

  /** Some word of the list runs down column col. */
  predicate HasDown(slots: seq<Slot>, col: int) {
    exists k :: 0 <= k < |slots| && slots[k].dir == Down && slots[k].col == col
  }

  /** The across search has a candidate: a row without letters and room for
      a word of three or more letters. */
  predicate AcrossOpen(filled: set<int>, maxRows: int, maxCols: int) {
    Longest(maxCols) >= SHORTEST_WORD && exists row :: 0 <= row < maxRows && row !in filled
  }

  /** The down search has a candidate: a column without a down word and room
      for a word of three or more letters. */
  predicate DownOpen(slots: seq<Slot>, maxRows: int, maxCols: int) {
    Longest(maxRows) >= SHORTEST_WORD && exists col :: 0 <= col < maxCols && !HasDown(slots, col)
  }

  /** row is the first row of the grid without letters. */
  predicate FirstUnfilledRow(filled: set<int>, maxRows: int, row: int) {
    0 <= row < maxRows && row !in filled && forall k :: 0 <= k < row ==> k in filled
  }

  /** col is the first column of the grid without a down word. */
  predicate FirstOpenColumn(slots: seq<Slot>, maxCols: int, col: int) {
    0 <= col < maxCols && !HasDown(slots, col) && forall c :: 0 <= c < col ==> HasDown(slots, c)
  }

  /** The slot one round of the placer picks after the words at slots: the
      longest across word at the start of the first row without letters; if
      there is none, the longest down word at the top of the first column
      without a down word. */
  predicate Chosen(slots: seq<Slot>, filled: set<int>, maxRows: int, maxCols: int, s: Slot) {
    if AcrossOpen(filled, maxRows, maxCols) then
      FirstUnfilledRow(filled, maxRows, s.row) && s == Slot(s.row, 0, Across, Longest(maxCols))
    else
      DownOpen(slots, maxRows, maxCols) &&
      FirstOpenColumn(slots, maxCols, s.col) && s == Slot(0, s.col, Down, Longest(maxRows))
  }

  /** Round k of the placer began with some row of the grid still without
      letters and chose slots[k] after the words before it. */
  predicate ChosenAt(slots: seq<Slot>, k: int, maxRows: int, maxCols: int)
    requires 0 <= k < |slots|
  {
    |CoveredRows(slots[..k])| < maxRows &&
    Chosen(slots[..k], CoveredRows(slots[..k]), maxRows, maxCols, slots[k])
  }

  /** The words were placed one per round by the rule above. */
  predicate Greedy(slots: seq<Slot>, maxRows: int, maxCols: int) {
    forall k :: 0 <= k < |slots| ==> ChosenAt(slots, k, maxRows, maxCols)
  }

  lemma GreedySnoc(slots: seq<Slot>, maxRows: int, maxCols: int, s: Slot)
    requires Greedy(slots, maxRows, maxCols)
    requires |CoveredRows(slots)| < maxRows && Chosen(slots, CoveredRows(slots), maxRows, maxCols, s)
    ensures Greedy(slots + [s], maxRows, maxCols)
  {
    var t := slots + [s];
    forall k | 0 <= k < |t|
      ensures ChosenAt(t, k, maxRows, maxCols)
    {
      if k < |slots| {
        assert t[..k] == slots[..k] && t[k] == slots[k];
        assert ChosenAt(slots, k, maxRows, maxCols);
      } else {
        assert t[..k] == slots;
      }
    }
  }

  /** The rounds before the last one of a greedy list form a greedy list. */
  lemma GreedyPrefix(slots: seq<Slot>, n: nat, maxRows: int, maxCols: int)
    requires Greedy(slots, maxRows, maxCols) && n <= |slots|
    ensures Greedy(slots[..n], maxRows, maxCols)
  {
    var pre := slots[..n];
    forall k | 0 <= k < n
      ensures ChosenAt(pre, k, maxRows, maxCols)
    {
      assert pre[..k] == slots[..k] && pre[k] == slots[k];
      assert ChosenAt(slots, k, maxRows, maxCols);
    }
  }

  /** Every chosen word lies inside the grid. */
  lemma ChosenInside(slots: seq<Slot>, filled: set<int>, maxRows: int, maxCols: int, s: Slot)
    requires Chosen(slots, filled, maxRows, maxCols, s)
    ensures Inside(s, maxRows, maxCols) && SHORTEST_WORD <= s.length <= LONGEST_WORD
  {
  }

  /** When the grid is at least three columns wide, the placer only ever
      places across words, at column 0 of rows 0, 1, 2, ... in turn, so the
      first n words fill exactly the first n rows. */
  lemma {:induction false} GreedyAcross(slots: seq<Slot>, maxRows: int, maxCols: int)
    requires maxCols >= SHORTEST_WORD && Greedy(slots, maxRows, maxCols)
    ensures CoveredRows(slots) == RowsFrom(0, |slots|) && |slots| <= Max(0, maxRows)
    ensures forall k :: 0 <= k < |slots| ==> slots[k] == Slot(k, 0, Across, Longest(maxCols))
  {
    if slots != [] {
      var n := |slots| - 1;
      var pre := slots[..n];
      GreedyPrefix(slots, n, maxRows, maxCols);
      GreedyAcross(pre, maxRows, maxCols);
      assert ChosenAt(slots, n, maxRows, maxCols);
      AcrossStep(pre, slots[n], maxRows, maxCols);
      forall k | 0 <= k < |slots|
        ensures slots[k] == Slot(k, 0, Across, Longest(maxCols))
      {
        if k < n {
          assert slots[k] == pre[k];
        }
      }
    }
    AcrossCovered(slots, Longest(maxCols));
  }

  /** Across words at the start of rows 0, 1, ..., n - 1 fill exactly those rows. */
  lemma {:induction false} AcrossCovered(slots: seq<Slot>, len: nat)
    requires forall k :: 0 <= k < |slots| ==> slots[k] == Slot(k, 0, Across, len)
    ensures CoveredRows(slots) == RowsFrom(0, |slots|)
  {
    if slots != [] {
      var n := |slots| - 1;
      AcrossCovered(slots[..n], len);
      assert RowSpan(slots[n]) == {n};
    }
  }

  /** The inductive step of GreedyAcross: once rows [0, n) are filled, the
      next round places the longest across word at the start of row n. */
  lemma AcrossStep(pre: seq<Slot>, s: Slot, maxRows: int, maxCols: int)
    requires maxCols >= SHORTEST_WORD && CoveredRows(pre) == RowsFrom(0, |pre|)
    requires |CoveredRows(pre)| < maxRows && Chosen(pre, CoveredRows(pre), maxRows, maxCols, s)
    ensures s == Slot(|pre|, 0, Across, Longest(maxCols)) && |pre| < maxRows
  {
    var n := |pre|;
    RowsFromCard(0, n);
    assert n !in CoveredRows(pre) && n < maxRows;
    assert AcrossOpen(CoveredRows(pre), maxRows, maxCols);
  }

  /** When the grid is narrower than three columns, the placer only ever
      places down words of min(maxRows, 7) letters, at row 0 of columns
      0, 1, ... in turn, one per column. */
  lemma GreedyDown(slots: seq<Slot>, maxRows: int, maxCols: int)
    requires maxCols < SHORTEST_WORD && Greedy(slots, maxRows, maxCols)
    ensures slots != [] ==> Longest(maxRows) >= SHORTEST_WORD
    ensures forall k :: 0 <= k < |slots| ==> slots[k] == DownAt(k, Longest(maxRows))
    ensures |slots| <= Max(0, maxCols)
  {
    forall k | 0 <= k < |slots|
      ensures slots[k] == DownAt(k, Longest(maxRows)) && k < maxCols && Longest(maxRows) >= SHORTEST_WORD
    {
      GreedyDownAt(slots, k, maxRows, maxCols);
    }
    if slots != [] {
      GreedyDownAt(slots, |slots| - 1, maxRows, maxCols);
    }
  }

  /** The k-th word of GreedyDown, by induction on k. */
  lemma {:induction false} GreedyDownAt(slots: seq<Slot>, k: nat, maxRows: int, maxCols: int)
    requires maxCols < SHORTEST_WORD && Greedy(slots, maxRows, maxCols) && k < |slots|
    ensures slots[k] == DownAt(k, Longest(maxRows)) && k < maxCols && Longest(maxRows) >= SHORTEST_WORD
    decreases k
  {
    var pre := slots[..k];
    forall j | 0 <= j < k
      ensures pre[j] == DownAt(j, Longest(maxRows))
    {
      GreedyDownAt(slots, j, maxRows, maxCols);
    }
    assert ChosenAt(slots, k, maxRows, maxCols);
    DownStep(pre, slots[k], maxRows, maxCols);
  }

  /** Down words of len letters at the top of columns 0, 1, ... fill the rows
      [0, len) as soon as there is one. */
  lemma {:induction false} DownCovered(slots: seq<Slot>, len: nat)
    requires forall k :: 0 <= k < |slots| ==> slots[k] == DownAt(k, len)
    ensures CoveredRows(slots) == if slots == [] then {} else RowsFrom(0, len)
  {
    if slots != [] {
      var n := |slots| - 1;
      DownCovered(slots[..n], len);
      assert RowSpan(slots[n]) == RowsFrom(0, len);
    }
  }

  /** The down word of len letters at the top of column col. */
  function DownAt(col: int, len: int): Slot {
    Slot(0, col, Down, if len < 0 then 0 else len)
  }

  /** The inductive step of GreedyDown: once columns [0, n) have their down
      words, the next round places the longest down word at the top of
      column n. */
  lemma DownStep(pre: seq<Slot>, s: Slot, maxRows: int, maxCols: int)
    requires maxCols < SHORTEST_WORD
    requires forall k :: 0 <= k < |pre| ==> pre[k] == DownAt(k, Longest(maxRows))
    requires Chosen(pre, CoveredRows(pre), maxRows, maxCols, s)
    ensures Longest(maxRows) >= SHORTEST_WORD && s == DownAt(|pre|, Longest(maxRows))
    ensures |pre| < maxCols
  {
    var n := |pre|;
    assert !AcrossOpen(CoveredRows(pre), maxRows, maxCols);
    forall c | 0 <= c < n
      ensures HasDown(pre, c)
    {
      assert pre[c].dir == Down && pre[c].col == c;
    }
    assert !HasDown(pre, n);
  }

  /** The rows a greedy placement ends with, when its loop stopped because
      100 words were placed, every row holds a letter, or neither search has
      a slot left, and the dictionary served the first round: every row of
      the grid holds a letter exactly when the grid has no rows, or it is at
      least three columns wide, at most 100 rows high and the dictionary has
      a word of min(maxCols, 7) letters, or it is one or two columns wide,
      3 to 7 rows high and the dictionary has a word of maxRows letters. */
  lemma PlacedOutcome(slots: seq<Slot>, dict: seq<DictWord>, maxRows: int, maxCols: int)
    requires Greedy(slots, maxRows, maxCols) && |slots| <= MAX_ATTEMPTS
    requires !NoFirstWord(dict, maxRows, maxCols)
    requires Exited(slots, maxRows, maxCols)
    ensures |CoveredRows(slots)| >= maxRows <==> Fills(dict, maxRows, maxCols)
  {
    var covered := CoveredRows(slots);
    if maxCols >= SHORTEST_WORD {
      GreedyAcross(slots, maxRows, maxCols);
      RowsFromCard(0, |slots|);
      if |covered| < maxRows && 0 < maxRows <= MAX_ATTEMPTS {
        assert |slots| !in covered && |slots| < maxRows;
        assert AcrossOpen(covered, maxRows, maxCols);
      }
    } else {
      GreedyDown(slots, maxRows, maxCols);
      var len := Longest(maxRows);
      if slots != [] {
        DownCovered(slots, len);
        RowsFromCard(0, len);
      }
      if 0 < maxCols && SHORTEST_WORD <= maxRows <= LONGEST_WORD && |covered| < maxRows {
        assert slots == [];
        assert !HasDown(slots, 0);
        assert DownOpen(slots, maxRows, maxCols);
      }
    }
  }

  /** No two rounds choose the same slot: the placer never places a word
      where it placed one before. */
  lemma {:induction false} GreedyFresh(slots: seq<Slot>, maxRows: int, maxCols: int, i: int, j: int)
    requires Greedy(slots, maxRows, maxCols) && 0 <= i < j < |slots|
    ensures slots[i] != slots[j]
  {
    var s := slots[i];
    var pre := slots[..j];
    assert pre[i] == s;
    assert ChosenAt(slots, j, maxRows, maxCols);
    if s.dir == Across {
      CoveredRowsMeaning(pre, s.row);
      assert s.row in RowSpan(pre[i]);
    } else {
      assert HasDown(pre, s.col);
      if slots[j].dir == Across {
      } else {
        assert !HasDown(pre, slots[j].col);
      }
    }
  }

  // ---------------------------------------------------------------------
  // The word oracle and the two searches

  /** The dictionary holds a word of length len. */
  predicate HasLength(dict: seq<DictWord>, len: int) {
    exists i :: 0 <= i < |dict| && |dict[i].text| == len
  }

  /** getRandomWord(len): some dictionary word of length len; a dictionary
      with none answers with a data error. */
  method GetRandomWord(dict: seq<DictWord>, len: int) returns (r: Result<DictWord>)
    ensures r.Ok? ==> r.value in dict && |r.value.text| == len
    ensures r.Err? <==> !HasLength(dict, len)
    ensures r.Err? ==> r.error == DataError
  {
    if i :| 0 <= i < |dict| && |dict[i].text| == len {
      r := Ok(dict[i]);
    } else {
      r := Err(DataError);
    }
  }

  /** A freshly built word at slot s, its text and clue from the dictionary. */
  predicate Placed(w: Word, dict: seq<DictWord>, s: Slot)
    reads w, w.clue
  {
    w.Valid() && w.ClueInSync() && w.Shape() == s && DictWord(w.text, w.clue.text) in dict
  }

  /** Builds the candidate word at (row, col): a dictionary word of the given
      length with a new clue holding the dictionary's clue text. */
  method MakeCandidate(dict: seq<DictWord>, len: int, row: int, col: int, dir: Direction)
    returns (r: Result<Word>)
    requires len >= SHORTEST_WORD
    ensures r.Ok? ==> fresh(r.value) && fresh(r.value.clue) && Placed(r.value, dict, Slot(row, col, dir, len))
    ensures r.Err? <==> !HasLength(dict, len)
    ensures r.Err? ==> r.error == DataError
  {
    var word := GetRandomWord(dict, len);
    if word.Err? {
      return Err(word.error);
    }
    var clue := new Clue(word.value.clue);
    var candidate := new Word(word.value.text, clue, row, col, dir);
    return Ok(candidate);
  }

  /** The across search. A candidate is always accepted (building a Crossword
      never fails), so in the first row without letters the first length
      min(maxCols, 7) and the first column 0 are the ones taken. */
  method TryAcross(dict: seq<DictWord>, filled: set<int>, maxRows: int, maxCols: int)
    returns (r: Result<Option<Word>>)
    ensures r.Ok? && r.value.Some? ==>
      fresh(r.value.value) && fresh(r.value.value.clue) &&
      FirstUnfilledRow(filled, maxRows, r.value.value.row) && Longest(maxCols) >= SHORTEST_WORD &&
      Placed(r.value.value, dict, Slot(r.value.value.row, 0, Across, Longest(maxCols)))
    ensures r.Ok? && r.value.None? <==> !AcrossOpen(filled, maxRows, maxCols)
    ensures r.Err? <==> AcrossOpen(filled, maxRows, maxCols) && !HasLength(dict, Longest(maxCols))
    ensures r.Err? ==> r.error == DataError
  {
    var row := 0;
    while row < maxRows
      invariant 0 <= row
      invariant forall k :: 0 <= k < row ==> k in filled || Longest(maxCols) < SHORTEST_WORD
    {
      if row !in filled {
        var len := Longest(maxCols);
        if len >= SHORTEST_WORD {
          var col := 0;
          var candidate := MakeCandidate(dict, len, row, col, Across);
          if candidate.Err? {
            return Err(candidate.error);
          }
          return Ok(Some(candidate.value));
        }
      }
      row := row + 1;
    }
    return Ok(None);
  }

  /** The inner scan of the down search: is there a down word in column col? */
  method HasDownWord(words: seq<Word>, col: int) returns (colFilled: bool)
    ensures colFilled <==> HasDown(SlotsOf(words), col)
  {
    colFilled := false;
    var k := 0;
    while k < |words|
      invariant 0 <= k <= |words|
      invariant forall j :: 0 <= j < k ==> !(words[j].direction == Down && words[j].col == col)
    {
      if words[k].direction == Down && words[k].col == col {
        colFilled := true;
        break;
      }
      k := k + 1;
    }
  }

  /** The down search: in the first column without a down word, the first
      length min(maxRows, 7) and the first row 0 are the ones taken. */
  method TryDown(dict: seq<DictWord>, words: seq<Word>, maxRows: int, maxCols: int)
    returns (r: Result<Option<Word>>)
    ensures r.Ok? && r.value.Some? ==>
      fresh(r.value.value) && fresh(r.value.value.clue) &&
      FirstOpenColumn(SlotsOf(words), maxCols, r.value.value.col) && Longest(maxRows) >= SHORTEST_WORD &&
      Placed(r.value.value, dict, Slot(0, r.value.value.col, Down, Longest(maxRows)))
    ensures r.Ok? && r.value.None? <==> !DownOpen(SlotsOf(words), maxRows, maxCols)
    ensures r.Err? <==> DownOpen(SlotsOf(words), maxRows, maxCols) && !HasLength(dict, Longest(maxRows))
    ensures r.Err? ==> r.error == DataError
  {
    ghost var slots := SlotsOf(words);
    var col := 0;
    while col < maxCols
      invariant 0 <= col
      invariant forall c :: 0 <= c < col ==> HasDown(slots, c) || Longest(maxRows) < SHORTEST_WORD
    {
      var colFilled := HasDownWord(words, col);
      if !colFilled {
        var len := Longest(maxRows);
        if len >= SHORTEST_WORD {
          var row := 0;
          var candidate := MakeCandidate(dict, len, row, col, Down);
          if candidate.Err? {
            return Err(candidate.error);
          }
          return Ok(Some(candidate.value));
        }
      }
      col := col + 1;
    }
    return Ok(None);
  }

  /** A round's search finds an open slot but no dictionary word of its length:
      getRandomWord then throws. */
  predicate Stuck(dict: seq<DictWord>, slots: seq<Slot>, filled: set<int>, maxRows: int, maxCols: int) {
    if AcrossOpen(filled, maxRows, maxCols) then !HasLength(dict, Longest(maxCols))
    else DownOpen(slots, maxRows, maxCols) && !HasLength(dict, Longest(maxRows))
  }

  /** The dictionary cannot serve the first round: the grid has a row and a
      column, and the dictionary lacks the length of the first word placed,
      across when the grid is at least three columns wide, else down. */
  predicate NoFirstWord(dict: seq<DictWord>, maxRows: int, maxCols: int) {
    0 < maxRows && 0 < maxCols &&
    if maxCols >= SHORTEST_WORD then !HasLength(dict, Longest(maxCols))
    else maxRows >= SHORTEST_WORD && !HasLength(dict, Longest(maxRows))
  }

  /** Why the placement loop stopped: 100 words placed, every row holding a
      letter, or neither search having a slot left. */
  predicate Exited(slots: seq<Slot>, maxRows: int, maxCols: int) {
    |slots| == MAX_ATTEMPTS || |CoveredRows(slots)| >= maxRows ||
    (!AcrossOpen(CoveredRows(slots), maxRows, maxCols) && !DownOpen(slots, maxRows, maxCols))
  }

  /** The grids the placer fills with a dictionary that serves its rounds:
      none at all, or at most 100 rows of at least three columns with a word
      of min(maxCols, 7) letters, or one or two columns of 3 to 7 rows with a
      word of maxRows letters. */
  predicate Fills(dict: seq<DictWord>, maxRows: int, maxCols: int) {
    maxRows <= 0 ||
    if maxCols >= SHORTEST_WORD then maxRows <= MAX_ATTEMPTS && HasLength(dict, Longest(maxCols))
    else 0 < maxCols && SHORTEST_WORD <= maxRows <= LONGEST_WORD && HasLength(dict, maxRows)
  }

  /** The first round, on an empty list, is stuck exactly when the dictionary
      cannot serve it. */
  lemma StuckFirst(dict: seq<DictWord>, maxRows: int, maxCols: int)
    ensures Stuck(dict, [], {}, maxRows, maxCols) <==> NoFirstWord(dict, maxRows, maxCols)
  {
    if 0 < maxRows && maxCols >= SHORTEST_WORD {
      var none: set<int> := {};
      assert 0 !in none;
      assert AcrossOpen(none, maxRows, maxCols);
    }
    if 0 < maxCols && maxRows >= SHORTEST_WORD {
      assert !HasDown([], 0);
      assert DownOpen([], maxRows, maxCols);
    }
  }

  /** A stuck round with a row still without letters means the dictionary
      could not have served the first round either. */
  lemma StuckLater(dict: seq<DictWord>, slots: seq<Slot>, filled: set<int>, maxRows: int, maxCols: int)
    requires Stuck(dict, slots, filled, maxRows, maxCols)
    requires maxCols >= SHORTEST_WORD ==> AcrossOpen(filled, maxRows, maxCols)
    ensures NoFirstWord(dict, maxRows, maxCols)
  {
  }

  /** One round of the placer: across first, down only when no across word
      was placed. */
  method NextWord(dict: seq<DictWord>, words: seq<Word>, filled: set<int>, maxRows: int, maxCols: int)
    returns (r: Result<Option<Word>>)
    requires filled == CoveredRows(SlotsOf(words))
    ensures r.Ok? && r.value.Some? ==>
      fresh(r.value.value) && fresh(r.value.value.clue) &&
      Chosen(SlotsOf(words), filled, maxRows, maxCols, r.value.value.Shape()) &&
      Placed(r.value.value, dict, r.value.value.Shape())
    ensures r.Ok? && r.value.None? <==>
      !AcrossOpen(filled, maxRows, maxCols) && !DownOpen(SlotsOf(words), maxRows, maxCols)
    ensures r.Err? <==> Stuck(dict, SlotsOf(words), filled, maxRows, maxCols)
    ensures r.Err? ==> r.error == DataError
  {
    r := TryAcross(dict, filled, maxRows, maxCols);
    if r.Ok? && r.value.None? {
      r := TryDown(dict, words, maxRows, maxCols);
    }
  }

  // ---------------------------------------------------------------------
  // GenerateCrosswordGame

  /** What the placement loop keeps of its word list: sound words, each listed
      once, with dictionary text and clue, placed one per round by the rule. */
  predicate Built(words: seq<Word>, dict: seq<DictWord>, maxRows: int, maxCols: int)
    reads words, set k | 0 <= k < |words| :: words[k].clue
  {
    AllValid(words) && Distinct(words) &&
    (forall k :: 0 <= k < |words| ==> DictWord(words[k].text, words[k].clue.text) in dict) &&
    Greedy(SlotsOf(words), maxRows, maxCols)
  }

  /** Appending the round's word keeps the loop's invariant. */
  lemma BuiltSnoc(words: seq<Word>, dict: seq<DictWord>, maxRows: int, maxCols: int, w: Word)
    requires Built(words, dict, maxRows, maxCols) && w !in words
    requires |CoveredRows(SlotsOf(words))| < maxRows
    requires Chosen(SlotsOf(words), CoveredRows(SlotsOf(words)), maxRows, maxCols, w.Shape())
    requires Placed(w, dict, w.Shape())
    ensures Built(words + [w], dict, maxRows, maxCols)
  {
    assert SlotsOf(words + [w]) == SlotsOf(words) + [w.Shape()];
    GreedySnoc(SlotsOf(words), maxRows, maxCols, w.Shape());
  }

  /** Every word of a greedy list lies inside the grid and is 3 to 7 letters long. */
  lemma GreedyInside(slots: seq<Slot>, maxRows: int, maxCols: int)
    requires Greedy(slots, maxRows, maxCols)
    ensures forall k :: 0 <= k < |slots| ==>
      Inside(slots[k], maxRows, maxCols) && SHORTEST_WORD <= slots[k].length <= LONGEST_WORD
  {
    forall k | 0 <= k < |slots|
      ensures Inside(slots[k], maxRows, maxCols) && SHORTEST_WORD <= slots[k].length <= LONGEST_WORD
    {
      assert ChosenAt(slots, k, maxRows, maxCols);
      ChosenInside(slots[..k], CoveredRows(slots[..k]), maxRows, maxCols, slots[k]);
    }
  }

  /** Words inside the grid only fill rows of the grid. */
  lemma {:induction false} CoveredRowsInside(slots: seq<Slot>, maxRows: int, maxCols: int)
    requires forall k :: 0 <= k < |slots| ==> Inside(slots[k], maxRows, maxCols)
    ensures CoveredRows(slots) <= RowsFrom(0, maxRows)
  {
    if slots != [] {
      var pre := slots[..|slots| - 1];
      assert forall k :: 0 <= k < |pre| ==> pre[k] == slots[k];
      CoveredRowsInside(pre, maxRows, maxCols);
    }
  }

  /** A greedy list of words lying inside the grid gives a grid no larger than it. */
  lemma SizeInside(slots: seq<Slot>, maxRows: int, maxCols: int)
    requires forall k :: 0 <= k < |slots| ==> Inside(slots[k], maxRows, maxCols)
    ensures Rows(slots) <= Max(0, maxRows) && Cols(slots) <= Max(0, maxCols)
  {
    ExtentsAreMaxima(slots);
    if slots != [] {
      var ir :| 0 <= ir < |slots| && Rows(slots) == RowExtent(slots[ir]);
      var ic :| 0 <= ic < |slots| && Cols(slots) == ColExtent(slots[ic]);
    }
  }

  /** The body of one round, after the check that some row is still without
      letters: the word NextWord picks, appended to a list that stays built by
      the rule. A grid at least three columns wide always gets a word. */
  method Round(dict: seq<DictWord>, words: seq<Word>, filled: set<int>, maxRows: int, maxCols: int)
    returns (r: Result<Option<Word>>)
    requires Built(words, dict, maxRows, maxCols)
    requires filled == CoveredRows(SlotsOf(words)) && |filled| < maxRows
    ensures r.Ok? && r.value.Some? ==>
      fresh(r.value.value) && fresh(r.value.value.clue) &&
      Built(words + [r.value.value], dict, maxRows, maxCols)
    ensures maxCols >= SHORTEST_WORD ==> r.Err? || r.value.Some?
    ensures r.Ok? && r.value.None? <==>
      !AcrossOpen(filled, maxRows, maxCols) && !DownOpen(SlotsOf(words), maxRows, maxCols)
    ensures r.Err? <==> Stuck(dict, SlotsOf(words), filled, maxRows, maxCols)
    ensures r.Err? ==> r.error == DataError && NoFirstWord(dict, maxRows, maxCols)
    ensures maxCols >= SHORTEST_WORD ==> (r.Err? <==> !HasLength(dict, Longest(maxCols)))
  {
    if maxCols >= SHORTEST_WORD {
      GreedyAcross(SlotsOf(words), maxRows, maxCols);
      RowsFromCard(0, |words|);
      assert |words| !in filled && |words| < maxRows;
      assert AcrossOpen(filled, maxRows, maxCols);
    }
    r := NextWord(dict, words, filled, maxRows, maxCols);
    if r.Err? {
      StuckLater(dict, SlotsOf(words), filled, maxRows, maxCols);
    }
    if r.Ok? && r.value.Some? {
      BuiltSnoc(words, dict, maxRows, maxCols, r.value.value);
    }
  }

  /** What a generated game is: a sound game whose board is the blanked key;
      at most 100 words, placed one per round by the greedy rule, each with a
      dictionary word's text and clue; every row of the grid holding a letter;
      and the grid no larger than maxRows x maxCols. */
  ghost predicate Generated(g: CrosswordGame, dict: seq<DictWord>, maxRows: int, maxCols: int)
    reads g, g.key, g.board, g.key.words, g.board.words
  {
    g.Valid() && g.Board() == Blanked(g.Key()) &&
    |g.key.words| <= MAX_ATTEMPTS && Greedy(SlotsOf(g.key.words), maxRows, maxCols) &&
    (forall k :: 0 <= k < |g.key.words| ==> DictWord(g.Key()[k].text, g.key.words[k].clue.text) in dict) &&
    (forall y :: 0 <= y < maxRows ==> RowHasLetter(SlotsOf(g.key.words), y)) &&
    g.rows <= Max(0, maxRows) && g.cols <= Max(0, maxCols)
  }

  /** The final check: fail unless every row of the grid holds a letter,
      otherwise a new game keyed on a crossword of the placed words. */
  method Finish(dict: seq<DictWord>, words: seq<Word>, maxRows: int, maxCols: int)
    returns (r: Result<CrosswordGame>)
    requires Built(words, dict, maxRows, maxCols) && |words| <= MAX_ATTEMPTS
    modifies CluesOf(words)
    ensures r.Err? <==> |CoveredRows(SlotsOf(words))| < maxRows
    ensures r.Err? ==> r.error == RowsNotFilled
    ensures r.Ok? ==> fresh(r.value) && r.value.key.words == words && Generated(r.value, dict, maxRows, maxCols)
  {
    var finalRows := GetFilledRows(words, maxRows, maxCols);
    if |finalRows| < maxRows {
      return Err(RowsNotFilled);
    }
    ghost var slots := SlotsOf(words);
    GreedyInside(slots, maxRows, maxCols);
    CoveredRowsInside(slots, maxRows, maxCols);
    FullRows(finalRows, maxRows);
    forall y | 0 <= y < maxRows
      ensures RowHasLetter(slots, y)
    {
      FilledRowsHoldLetters(slots, y);
    }
    SizeInside(slots, maxRows, maxCols);
    ghost var entries := EntriesOf(words);
    assert forall k :: 0 <= k < |words| ==> DictWord(entries[k].text, words[k].clue.text) in dict;
    var crossword := new Crossword(words);
    var game := new CrosswordGame(crossword);
    return Ok(game);
  }

  /** The placement loop of GenerateCrosswordGame: at most 100 rounds, each
      adding one word by the greedy rule, until every row holds a letter or no
      slot is left. It fails with DataError exactly when the dictionary cannot
      serve the first round; a grid at least three columns wide and at most
      100 rows high then ends with every row holding a letter. */
  method PlaceWords(dict: seq<DictWord>, maxRows: int, maxCols: int) returns (r: Result<seq<Word>>)
    ensures r.Err? <==> NoFirstWord(dict, maxRows, maxCols)
    ensures r.Err? ==> r.error == DataError
    ensures r.Ok? ==> Built(r.value, dict, maxRows, maxCols) && |r.value| <= MAX_ATTEMPTS
    ensures r.Ok? ==> forall k :: 0 <= k < |r.value| ==> fresh(r.value[k]) && fresh(r.value[k].clue)
    ensures r.Ok? ==> Exited(SlotsOf(r.value), maxRows, maxCols)
    ensures r.Ok? ==> (|CoveredRows(SlotsOf(r.value))| >= maxRows <==> Fills(dict, maxRows, maxCols))
    ensures r.Ok? && maxCols >= SHORTEST_WORD && maxRows <= MAX_ATTEMPTS ==>
      |CoveredRows(SlotsOf(r.value))| >= maxRows
  {
    var words: seq<Word> := [];
    var attempts := 0;
    while attempts < MAX_ATTEMPTS
      invariant 0 <= attempts <= MAX_ATTEMPTS && |words| <= attempts
      invariant Built(words, dict, maxRows, maxCols)
      invariant forall k :: 0 <= k < |words| ==> fresh(words[k]) && fresh(words[k].clue)
      invariant |words| == attempts
      invariant NoFirstWord(dict, maxRows, maxCols) ==> attempts == 0
    {
      if NoFirstWord(dict, maxRows, maxCols) {
        assert words == [] && SlotsOf(words) == [];
        StuckFirst(dict, maxRows, maxCols);
      }
      attempts := attempts + 1;
      var filledRows := GetFilledRows(words, maxRows, maxCols);
      if |filledRows| >= maxRows {
        break;
      }
      var next := Round(dict, words, filledRows, maxRows, maxCols);
      if next.Err? {
        return Err(next.error);
      }
      if next.value.None? {
        break;
      }
      words := words + [next.value.value];
    }
    PlacedOutcome(SlotsOf(words), dict, maxRows, maxCols);
    return Ok(words);
  }

  /** GenerateCrosswordGame: the placement loop, then the final check; the
      result is a new game on the placed words when every row of the grid
      holds a letter, and the "unable to fill every row" error otherwise. */
  method GenerateCrosswordGame(dict: seq<DictWord>, maxRows: int, maxCols: int)
    returns (r: Result<CrosswordGame>)
    ensures r.Err? ==> r.error == DataError || r.error == RowsNotFilled
    ensures r.Err? && r.error == DataError <==> NoFirstWord(dict, maxRows, maxCols)
    ensures maxCols >= SHORTEST_WORD && maxRows <= MAX_ATTEMPTS ==> r.Ok? || r.error == DataError
    ensures maxCols >= SHORTEST_WORD && maxRows <= MAX_ATTEMPTS ==>
      (r.Ok? <==> maxRows <= 0 || HasLength(dict, Longest(maxCols)))
    ensures r.Ok? <==> Fills(dict, maxRows, maxCols)
    ensures r.Ok? ==> fresh(r.value) && Generated(r.value, dict, maxRows, maxCols)
  {
    var placed := PlaceWords(dict, maxRows, maxCols);
    if placed.Err? {
      return Err(placed.error);
    }
    r := Finish(dict, placed.value, maxRows, maxCols);
  }
}
