/** A crossword: the list of placed words and the grid size they span. Cell
    reads take the first word covering the cell; cell writes go to every
    covering word. */
module Crosswords {
  import opened Errors
  import opened Layout
  import opened Clues
  import opened Words

  /** Where each word of the list sits. */
  function SlotsOf(ws: seq<Word>): (r: seq<Slot>)
    ensures |r| == |ws| && forall i :: 0 <= i < |ws| ==> r[i] == ws[i].Shape()
  {
    seq(|ws|, i requires 0 <= i < |ws| => ws[i].Shape())
  }

  /** No word object appears twice in the list. */
  predicate Distinct(ws: seq<Word>) {
    forall i, j :: 0 <= i < j < |ws| ==> ws[i] != ws[j]
  }

  predicate AllValid(ws: seq<Word>)
    reads ws
  {
    forall i :: 0 <= i < |ws| ==> ws[i].Valid()
  }

  /** The list of words as values: slots and current letters. */
  function EntriesOf(ws: seq<Word>): (r: seq<Entry>)
    reads ws
    ensures |r| == |ws| && forall i :: 0 <= i < |ws| ==> r[i] == ws[i].View()
    ensures Shapes(r) == SlotsOf(ws)
    ensures AllValid(ws) ==> AllWellFormed(r)
  {
    seq(|ws|, i requires 0 <= i < |ws| reads ws => ws[i].View())
  }

  /** The entries of a list of words are determined word by word. */
  lemma EntriesMatch(ws: seq<Word>, target: seq<Entry>)
    requires |ws| == |target|
    requires forall j :: 0 <= j < |ws| ==> ws[j].Shape() == target[j].slot && ws[j].text == target[j].text
    ensures EntriesOf(ws) == target
  {
  }

  /** The clues of a list of words. */
  function CluesOf(ws: seq<Word>): set<Clue> {
    set i | 0 <= i < |ws| :: ws[i].clue
  }

  /** No word of ws after k and before n is built around the clue of word k. */
  predicate LastUse(ws: seq<Word>, k: nat, n: nat)
    requires k < n <= |ws|
  {
    forall j :: k < j < n ==> ws[j].clue != ws[k].clue
  }

  /** Building the first n words around their clues leaves each clue describing
      the last of them built around it. */
  ghost predicate CluesFollowPrefix(ws: seq<Word>, n: nat)
    requires n <= |ws|
    reads ws, CluesOf(ws)
  {
    forall k :: 0 <= k < n && LastUse(ws, k, n) ==> ws[k].ClueInSync()
  }

  ghost predicate CluesFollowWords(ws: seq<Word>)
    reads ws, CluesOf(ws)
  {
    CluesFollowPrefix(ws, |ws|)
  }

  /** Maps Word.blankCopy (blank) or Word.copy over a list of words: fresh,
      distinct words with the same clues and slots and either blank or the same
      letters; the clues end up describing the last word built around each. */
  method CopyWords(ws: seq<Word>, blank: bool) returns (cs: seq<Word>)
    requires AllValid(ws)
    modifies CluesOf(ws)
    ensures |cs| == |ws| && Distinct(cs) && AllValid(cs)
    ensures forall k :: 0 <= k < |cs| ==> fresh(cs[k])
    ensures SlotsOf(cs) == SlotsOf(ws) && forall k :: 0 <= k < |cs| ==> cs[k].clue == ws[k].clue
    ensures EntriesOf(cs) == if blank then Blanked(EntriesOf(ws)) else EntriesOf(ws)
    ensures CluesFollowWords(ws) && EntriesOf(ws) == old(EntriesOf(ws))
  {
    ghost var es := EntriesOf(ws);
    cs := [];
    var i := 0;
    while i < |ws|
      invariant 0 <= i <= |ws| && |cs| == i
      invariant forall k :: 0 <= k < i ==> fresh(cs[k])
      invariant Distinct(cs)
      invariant CopiedPrefix(cs, ws, blank)
      invariant CluesFollowPrefix(ws, i)
      invariant EntriesOf(ws) == es
    {
      var w := CopyOne(ws, i, blank);
      CopiedStep(cs, ws, blank, w);
      DistinctSnoc(cs, w);
      cs := cs + [w];
      i := i + 1;
    }
    CopiesEntries(cs, ws, blank);
  }

  /** Word-by-word copies make a list with the same slots and the same or
      blanked entries. */
  lemma CopiesEntries(cs: seq<Word>, ws: seq<Word>, blank: bool)
    requires |cs| == |ws|
    requires CopiedPrefix(cs, ws, blank)
    ensures AllValid(cs) && SlotsOf(cs) == SlotsOf(ws)
    ensures EntriesOf(cs) == if blank then Blanked(EntriesOf(ws)) else EntriesOf(ws)
  {
    if blank {
      EntriesMatch(cs, Blanked(EntriesOf(ws)));
    } else {
      EntriesMatch(cs, EntriesOf(ws));
    }
  }

  /** Appending a word not yet listed keeps the list free of repeats. */
  lemma DistinctSnoc(cs: seq<Word>, w: Word)
    requires Distinct(cs) && w !in cs
    ensures Distinct(cs + [w])
  {
  }

  /** cs holds word-by-word copies of the first |cs| words of ws. */
  ghost predicate CopiedPrefix(cs: seq<Word>, ws: seq<Word>, blank: bool)
    reads cs, ws
  {
    |cs| <= |ws| &&
    forall k :: 0 <= k < |cs| ==> CopyOf(cs[k], ws[k], if blank then Blank(ws[k].length) else ws[k].text)
  }

  /** Appending the copy of the next word extends the copied prefix. */
  lemma CopiedStep(cs: seq<Word>, ws: seq<Word>, blank: bool, w: Word)
    requires CopiedPrefix(cs, ws, blank) && |cs| < |ws|
    requires CopyOf(w, ws[|cs|], if blank then Blank(ws[|cs|].length) else ws[|cs|].text)
    ensures CopiedPrefix(cs + [w], ws, blank)
  {
  }

  /** c is a well-formed word with w's clue and slot, holding the letters t. */
  ghost predicate CopyOf(c: Word, w: Word, t: string)
    reads c
  {
    c.Valid() && c.clue == w.clue && c.Shape() == w.Shape() && c.text == t
  }

  /** One step of CopyWords: copies word i and keeps the clues following the words. */
  method CopyOne(ws: seq<Word>, i: nat, blank: bool) returns (w: Word)
    requires i < |ws| && ws[i].Valid() && CluesFollowPrefix(ws, i)
    modifies ws[i].clue
    ensures fresh(w) && w.Valid() && w.clue == ws[i].clue && w.Shape() == ws[i].Shape()
    ensures w.text == if blank then Blank(ws[i].length) else ws[i].text
    ensures CluesFollowPrefix(ws, i + 1) && EntriesOf(ws) == old(EntriesOf(ws))
  {
    label Before:
    if blank {
      w := ws[i].BlankCopy();
    } else {
      w := ws[i].Copy();
    }
    forall k | 0 <= k < i + 1 && LastUse(ws, k, i + 1)
      ensures ws[k].ClueInSync()
    {
      if k < i {
        assert LastUse(ws, k, i);
        assert old@Before(ws[k].ClueInSync());
      }
    }
  }

  /** One step of Crossword.setCharAt: a word covering (x, y) receives c at its
      own offset, any other word is left alone. */
  method WriteCell(w: Word, x: int, y: int, c: string) returns (o: Outcome)
    requires w.Valid()
    modifies w`text
    ensures w.Valid()
    ensures o == if Covers(w.Shape(), x, y) && CheckChar(c).Err? then Fail(CheckChar(c).error) else Pass
    ensures w.View() == if Covers(w.Shape(), x, y) && CheckChar(c).Ok?
      then Entry(w.Shape(), old(w.text)[Offset(w.Shape(), x, y) := CheckChar(c).value])
      else old(w.View())
  {
    o := Pass;
    if Covers(w.Shape(), x, y) {
      o := w.SetCharAt(Offset(w.Shape(), x, y), c);
    }
  }

  class Crossword {
    const words: seq<Word>
    const rows: int
    const cols: int

    /** Every word is well formed and no word is listed twice. */
    ghost predicate Valid()
      reads this, words
    {
      AllValid(words) && Distinct(words)
    }

    /** The grid size is the extent of the words; it never changes, since
        words never move. */
    predicate Sized() {
      rows == Rows(SlotsOf(words)) && cols == Cols(SlotsOf(words))
    }

    /** Keeps the given words (no overlap check) and sizes the grid to them. */
    constructor (words: seq<Word>)
      ensures this.words == words
      ensures Sized()
      ensures AllValid(words) && Distinct(words) ==> Valid()
    {
      this.words := words;
      rows := Rows(SlotsOf(words));
      cols := Cols(SlotsOf(words));
    }

    /** The letter at cell (x, y): the first covering word's, or None. */
    method GetCharAt(x: int, y: int) returns (r: Option<char>)
      requires AllValid(words)
      ensures r == CharAt(EntriesOf(words), x, y)
      ensures r.Some? <==> Intersects(SlotsOf(words), x, y)
    {
      ghost var es := EntriesOf(words);
      IntersectsIffCharAt(es, x, y);
      var i := 0;
      while i < |words|
        invariant 0 <= i <= |words|
        invariant CharAt(es, x, y) == CharAt(es[i..], x, y)
      {
        var w := words[i];
        if w.direction == Across {
          if y == w.row && w.col <= x < w.col + w.length {
            return Some(w.text[x - w.col]);
          }
        } else {
          if x == w.col && w.row <= y < w.row + w.length {
            return Some(w.text[y - w.row]);
          }
        }
        assert es[i..][1..] == es[i + 1..];
        i := i + 1;
      }
      return None;
    }

    /** Does some word cover cell (x, y)? Exactly when GetCharAt finds a letter there. */
    function IntersectsWord(x: int, y: int): (b: bool)
      requires AllValid(words)
      reads this, words
      ensures b <==> CharAt(EntriesOf(words), x, y).Some?
    {
      IntersectsIffCharAt(EntriesOf(words), x, y);
      exists i :: 0 <= i < |words| && Covers(words[i].Shape(), x, y)
    }

    /** The clues, one per word, in word order. */
    function GetClues(): (r: seq<Clue>)
      ensures |r| == |words| && forall i :: 0 <= i < |words| ==> r[i] == words[i].clue
    {
      seq(|words|, i requires 0 <= i < |words| => words[i].clue)
    }

    /** Writes character c into every word covering (x, y). The character is
        checked by the first covering word, before any word changes: an invalid
        character over a covered cell fails and changes nothing; over an
        uncovered cell nothing happens. */
    method SetCharAt(x: int, y: int, c: string) returns (r: Outcome)
      requires Valid()
      modifies words
      ensures Valid()
      ensures r == if Intersects(SlotsOf(words), x, y) && CheckChar(c).Err?
        then Fail(CheckChar(c).error) else Pass
      ensures EntriesOf(words) == if CheckChar(c).Ok?
        then WriteAt(old(EntriesOf(words)), x, y, CheckChar(c).value)
        else old(EntriesOf(words))
    {
      ghost var es := EntriesOf(words);
      ghost var target := if CheckChar(c).Ok? then WriteAt(es, x, y, CheckChar(c).value) else es;
      var i := 0;
      while i < |words|
        invariant 0 <= i <= |words|
        invariant AllValid(words)
        invariant CheckChar(c).Err? ==> forall k :: 0 <= k < i ==> !Covers(words[k].Shape(), x, y)
        invariant forall j :: 0 <= j < |words| ==> words[j].text == (if j < i then target[j] else es[j]).text
      {
        var o := WriteCell(words[i], x, y, c);
        if o.Fail? {
          EntriesMatch(words, es);
          return o;
        }
        i := i + 1;
      }
      EntriesMatch(words, target);
      return Pass;
    }

    /** A crossword of fresh '_'-filled words with the same slots and clues;
        building the words points each clue back at its word. */
    method CreateBlankCopy() returns (c: Crossword)
      requires AllValid(words)
      modifies CluesOf(words)
      ensures fresh(c) && c.Valid() && c.Sized()
      ensures forall i :: 0 <= i < |c.words| ==> fresh(c.words[i])
      ensures SlotsOf(c.words) == SlotsOf(words)
      ensures Sized() ==> c.rows == rows && c.cols == cols
      ensures EntriesOf(c.words) == Blanked(EntriesOf(words))
      ensures c.GetClues() == GetClues() && CluesFollowWords(words)
      ensures EntriesOf(words) == old(EntriesOf(words))
    {
      var blank := CopyWords(words, true);
      c := new Crossword(blank);
    }

    /** A crossword of fresh words with the same letters, slots and clues;
        building the words points each clue back at its word. */
    method CreateFullCopy() returns (c: Crossword)
      requires AllValid(words)
      modifies CluesOf(words)
      ensures fresh(c) && c.Valid() && c.Sized()
      ensures forall i :: 0 <= i < |c.words| ==> fresh(c.words[i])
      ensures SlotsOf(c.words) == SlotsOf(words)
      ensures Sized() ==> c.rows == rows && c.cols == cols
      ensures EntriesOf(c.words) == EntriesOf(words) == old(EntriesOf(words))
      ensures c.GetClues() == GetClues() && CluesFollowWords(words)
    {
      var full := CopyWords(words, false);
      c := new Crossword(full);
    }
  }
}
