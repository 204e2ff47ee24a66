/** A word placed on the grid: fixed anchor, direction and length, and letters
    that players overwrite one at a time. */
module Words {
  import opened Errors
  import opened Layout
  import opened Clues

  /** Length of a string in UTF-16 code units, the unit of a JavaScript
      string's length: characters outside the Basic Multilingual Plane take two. */
  function Utf16Length(s: string): (n: nat)
    ensures n >= |s|
    ensures n == 1 <==> |s| == 1 && s[0] as int <= 0xFFFF
  {
    if s == [] then 0
    else (if s[0] as int <= 0xFFFF then 1 else 2) + Utf16Length(s[1..])
  }

  /** String.prototype.toLowerCase on one character, as far as the letters
      a-z are concerned: A-Z map to a-z and the Kelvin sign maps to 'k'; no
      other character lower-cases to a single letter a-z, so it is left as is. */
  function ToLower(c: char): char {
    if 'A' <= c <= 'Z' then (c as int + 32) as char
    else if c == '\U{212A}' then 'k'
    else c
  }

  predicate IsLowerLetter(c: char) {
    'a' <= c <= 'z'
  }

  /** The character checks of setCharAt, in their order: exactly one code unit,
      then a letter a-z once lower-cased. Ok carries the letter to store. */
  function CheckChar(s: string): (r: Result<char>)
    ensures r.Ok? ==> IsLowerLetter(r.value)
    ensures r.Err? ==> r.error in {InvalidCharLength, InvalidCharType}
  {
    if Utf16Length(s) != 1 then Err(InvalidCharLength)
    else if IsLowerLetter(ToLower(s[0])) then Ok(ToLower(s[0]))
    else Err(InvalidCharType)
  }

  /** Which single characters setCharAt accepts, stated independently of the
      lower-casing: a-z, A-Z and the Kelvin sign, stored as their lower-case letter. */
  lemma CheckCharAccepts(s: string)
    ensures CheckChar(s).Ok? <==>
      |s| == 1 && (IsLowerLetter(s[0]) || 'A' <= s[0] <= 'Z' || s[0] == '\U{212A}')
    ensures |s| != 1 ==> CheckChar(s) == Err(InvalidCharLength)
    ensures |s| == 1 && IsLowerLetter(s[0]) ==> CheckChar(s) == Ok(s[0])
    ensures |s| == 1 && 'A' <= s[0] <= 'Z' ==> CheckChar(s).value as int == s[0] as int + 32
  {
    if |s| != 1 {
      assert Utf16Length(s) != 1;
    }
  }

  /** Storing an accepted letter and offering it again gives the same letter. */
  lemma CheckCharIdempotent(s: string)
    requires CheckChar(s).Ok?
    ensures CheckChar([CheckChar(s).value]) == CheckChar(s)
  {
    assert Utf16Length([CheckChar(s).value]) == 1;
  }

  /** The order a clue is listed under: the row of an across word, the column of a down word. */
  function OrderKey(dir: Direction, row: int, col: int): int {
    if dir == Across then row else col
  }

  class Word {
    var text: string
    const clue: Clue
    const row: int
    const col: int
    const direction: Direction
    const length: nat

    /** The letters always fill the word's fixed, non-zero length. */
    predicate Valid()
      reads this
    {
      |text| == length && length > 0
    }

    /** Where the word sits; it never moves. */
    function Shape(): Slot {
      Slot(row, col, direction, length)
    }

    /** The word as a value: its slot and its current letters. */
    function View(): (e: Entry)
      reads this
      ensures e.slot == Shape()
      ensures Valid() ==> WellFormed(e)
    {
      Entry(Shape(), text)
    }

    /** Does the clue list this word under its direction and order? */
    predicate ClueInSync()
      reads this, clue
    {
      clue.direction == direction && clue.order == OrderKey(direction, row, col)
    }

    /** Builds a word over non-empty text and points its clue at it. */
    constructor (text: string, clue: Clue, row: int, col: int, direction: Direction)
      requires |text| > 0
      modifies clue
      ensures Valid() && this.text == text && this.clue == clue
      ensures Shape() == Slot(row, col, direction, |text|)
      ensures ClueInSync()
    {
      this.text := text;
      this.row := row;
      this.col := col;
      this.direction := direction;
      this.length := |text|;
      this.clue := clue;
      clue.direction := direction;
      clue.order := OrderKey(direction, row, col);
    }

    /** new Word(...) with its empty-text failure: EmptyWord and the clue left
        alone, or a fresh word as the constructor builds it. */
    static method Create(text: string, clue: Clue, row: int, col: int, direction: Direction)
      returns (r: Result<Word>)
      modifies clue
      ensures r.Err? <==> |text| == 0
      ensures r.Err? ==> r.error == EmptyWord && unchanged(clue)
      ensures r.Ok? ==> fresh(r.value) && r.value.Valid() && r.value.text == text && r.value.clue == clue
      ensures r.Ok? ==> r.value.Shape() == Slot(row, col, direction, |text|) && r.value.ClueInSync()
    {
      if |text| == 0 {
        return Err(EmptyWord);
      }
      var w := new Word(text, clue, row, col, direction);
      return Ok(w);
    }

    /** Overwrites the letter at index with the lower-cased character. Fails
        with IndexOutOfBounds, then InvalidCharLength, then InvalidCharType,
        leaving the letters unchanged. */
    method SetCharAt(index: int, c: string) returns (r: Outcome)
      requires Valid()
      modifies this`text
      ensures Valid()
      ensures !(0 <= index < length) ==> r == Fail(IndexOutOfBounds)
      ensures 0 <= index < length && CheckChar(c).Err? ==> r == Fail(CheckChar(c).error)
      ensures r.Pass? <==> 0 <= index < length && CheckChar(c).Ok?
      ensures r.Pass? ==> text == old(text)[index := CheckChar(c).value]
      ensures r.Fail? ==> text == old(text)
    {
      if index < 0 || index >= length {
        return Fail(IndexOutOfBounds);
      }
      if Utf16Length(c) != 1 {
        return Fail(InvalidCharLength);
      }
      var lower := ToLower(c[0]);
      if !IsLowerLetter(lower) {
        return Fail(InvalidCharType);
      }
      text := text[..index] + [lower] + text[index + 1..];
      return Pass;
    }

    /** A fresh word with the same letters, clue and placement. */
    method Copy() returns (w: Word)
      requires Valid()
      modifies clue
      ensures fresh(w) && w.Valid() && w.text == text && w.clue == clue && w.Shape() == Shape()
      ensures ClueInSync()
    {
      w := new Word(text, clue, row, col, direction);
    }

    /** A fresh word with the same clue and placement, every letter '_'. */
    method BlankCopy() returns (w: Word)
      requires Valid()
      modifies clue
      ensures fresh(w) && w.Valid() && w.text == Blank(length) && w.clue == clue && w.Shape() == Shape()
      ensures ClueInSync()
    {
      w := new Word(Blank(length), clue, row, col, direction);
    }
  }
}
