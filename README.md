# TheMini crossword core, modelled in Dafny

TheMini is a small crossword system. It has two halves.

The front-end library holds the puzzle itself:

- A `Clue` is fixed text plus the direction and order the puzzle lists it under.
- A `Word` sits at a fixed row, column and direction. Its letters are overwritten one at a time. Building a word points its clue at it.
- A `Crossword` is a list of words. It is sized to their extent. It reads a cell as the first covering word's letter, writes a cell into every covering word, and makes blank or full copies.
- A `CrosswordGame` pairs a hidden answer key with a board. The board is a blank copy of the key. The game reports the incorrect cells in column-major scan order and says when the puzzle is solved.
- The greedy placer (`CrosswordGeneration.GenerateCrosswordGame`) builds a game from dictionary words. It places one across word per round in the first row without letters. When no such row is left, it places a down word in the first column without one. It stops when every row of a `maxRows` x `maxCols` grid holds a letter.

The back end has two generators:

- A backtracking fill generator (`CrosswordGen.generate`). It fills a grid cell by cell with letters and blanks. Each visited cell keeps the characters not yet tried there. A placement stays only when the whole grid passes `validGrid`. `validGrid` checks:
  - the blank ratio;
  - that every run of two or more letters in a row or column is a dictionary word or prefix;
  - that no letter is walled in on all four sides.
- A charset-bank builder (`buildCharSetBank.js`). For every prefix of up to four letters and every remaining space, it stores the characters that may follow that prefix in a dictionary word that fits. The prefixes come from an odometer over the alphabet.

The model is organised as follows:

- `Layout` is a value-level view of a grid. It defines slots, entries, `CharAt`, `WriteAt` and `Blanked`, and holds the puzzle lemmas.
- The mutable entities are classes: `Clue`, `Word`, `Crossword`, `CrosswordGame` and the charset table `Bank`. Their methods are proved against `Layout`.
- The loops of the source are methods with invariants.
- The generator's termination is proved by a mixed-radix rank over the per-cell caches. The `Radix` module supplies it, and it also specifies the charset odometer.
- Thrown exceptions become `Result` or `Outcome` values carrying a `CWError`.
- The dictionary is a parameter:
  - `wordExists` is a function for the fill generator;
  - a word list for the charset bank;
  - a list of `(text, clue)` entries for the placer.
- `Math.random` is a nondeterministic choice.

## Model

| member | source | states |
|---|---|---|
| Clues.Clue.constructor | Crossword/src/Classes/Clue.ts:9-13 | The clue keeps its text; direction defaults to across and order to 0. |
| Words.Word.constructor | Crossword/src/Classes/Word.ts:19-40 | Over non-empty text: the word holds the text, its length is the text's, it sits at (row, col, direction), and its clue now lists it (direction, and order = row for across, col for down). |
| Words.Word.Create | Crossword/src/Classes/Word.ts:26-28 | new Word fails with EmptyWord exactly when the text is empty, and then leaves the clue untouched; otherwise it yields the word the constructor builds. |
| Words.Utf16Length | Crossword/src/Classes/Word.ts:66 | A string's JavaScript length is 1 exactly when it is one character of the Basic Multilingual Plane. |
| Words.CheckChar | Crossword/src/Classes/Word.ts:66-72 | The character checks of setCharAt: acceptance yields a letter a-z, and rejection is InvalidCharLength or InvalidCharType. |
| Words.CheckCharAccepts | Crossword/src/Classes/Word.ts:66-72 | setCharAt accepts exactly a single a-z, A-Z or Kelvin-sign character. Anything not one character long is an InvalidCharLength error. a-z is stored as is; A-Z is stored 32 code points lower. |
| Words.CheckCharIdempotent | Crossword/src/Classes/Word.ts:69-70 | Writing back a stored letter stores the same letter. |
| Words.Word.View | Crossword/src/Classes/Word.ts:42-56 | The word's getters as a value: its slot and letters, with as many letters as its length. |
| Words.Word.SetCharAt | Crossword/src/Classes/Word.ts:62-75 | An index outside [0, length) gives IndexOutOfBounds, checked first; a bad character gives its CheckChar error; on success exactly the one position changes to the lower-cased letter; on failure the text is unchanged; the length never changes. |
| Words.Word.Copy | Crossword/src/Classes/Word.ts:77-85 | A fresh word with the same text, clue and slot, and the clue pointing at it. |
| Words.Word.BlankCopy | Crossword/src/Classes/Word.ts:87-95 | A fresh word of the same slot and clue holding length underscores. |
| Layout.Blank | Crossword/src/Classes/Word.ts:89 | BLANK_CHAR.repeat(n): n underscores. |
| Crosswords.SlotsOf | Crossword/src/Classes/Crossword.ts:26-31 | The word list's slots, one per word, in order. |
| Crosswords.EntriesOf | Crossword/src/Classes/Crossword.ts:26-31 | The words' current letters as values; their shapes are the words' slots. |
| Crosswords.Crossword.constructor | Crossword/src/Classes/Crossword.ts:26-31 | Keeps the words as given (no overlap check) and sizes the grid to them. |
| Layout.ExtentsAreMaxima | Crossword/src/Classes/Crossword.ts:33-36 | rows and cols are the maxima of the words' extents: no word reaches past them and some word reaches exactly to each; an empty list gives 0. |
| Layout.CoveredCellInsideGrid | Crossword/src/Classes/Crossword.ts:33-36 | Every covered cell lies left of cols and above rows, and at non-negative coordinates when the anchors are. |
| Crosswords.Crossword.GetCharAt | Crossword/src/Classes/Crossword.ts:8-21 | The letter of the first covering word in list order, and a letter exactly when some word covers the cell. |
| Layout.CharAtIsFirstCovering | Crossword/src/Classes/Crossword.ts:8-21 | The cell reads as the letter of the first covering word. |
| Layout.IntersectsIffCharAt | Crossword/src/Classes/Crossword.ts:65-80 | intersectsWord holds exactly when getCharAt yields a letter. |
| Crosswords.Crossword.IntersectsWord | Crossword/src/Classes/Crossword.ts:65-80 | True exactly when getCharAt finds a letter at the cell. |
| Crosswords.Crossword.GetClues | Crossword/src/Classes/Crossword.ts:82-84 | The words' clues in word order. |
| Crosswords.Crossword.SetCharAt | Crossword/src/Classes/Crossword.ts:46-59 | An accepted character is written into every covering word; the grid then reads as WriteAt of the old grid. A rejected character raises its CheckChar error when some word covers the cell and leaves every word unchanged; with no covering word nothing is raised. |
| Crosswords.WriteCell | Crossword/src/Classes/Crossword.ts:48-57 | One word's part of setCharAt: a covering word gets the letter at its own offset or raises; any other word is untouched. |
| Layout.WriteAt | Crossword/src/Classes/Crossword.ts:46-59 | Writing keeps every word's slot and length. |
| Layout.WriteAtReadBack | Crossword/src/Classes/Crossword.ts:46-59 | After a write, the written cell reads the new letter when covered, and every other cell reads as before. |
| Layout.WriteAtKeepsConsistent | Crossword/src/Classes/Crossword.ts:46-59 | Crossing words that agree on their shared cells still agree after a write. |
| Layout.ConsistentCharAt | Crossword/src/Classes/Crossword.ts:8-21 | When crossing words agree, any covering word gives the cell's letter. |
| Layout.Offset | Crossword/src/Classes/Crossword.ts:50-55 | A covered cell's position in its word, x - col across or y - row down, lies within the word. |
| Layout.OffsetInjective | Crossword/src/Classes/Crossword.ts:50-55 | Two cells of one word never share an offset. |
| Crosswords.CopyWords | Crossword/src/Classes/Crossword.ts:86-96 | Mapping blankCopy or copy over the words gives fresh, distinct words with the same slots and clues, blank or with the same letters. Each clue then describes the last word built around it, and the original words keep their letters. |
| Crosswords.CopyOne | Crossword/src/Classes/Word.ts:77-95 | One step of the copy: a fresh word over the same slot and clue, blank or full. Only the clue's back-reference changes, so the original words keep their letters. |
| Crosswords.CopiesEntries | Crossword/src/Classes/Crossword.ts:86-96 | Word-by-word copies make the whole grid the blanked, or identical, grid. |
| Crosswords.EntriesMatch | Crossword/src/Classes/Crossword.ts:86-96 | Words with the given slots and letters are that grid. |
| Crosswords.Crossword.CreateBlankCopy | Crossword/src/Classes/Crossword.ts:86-90 | A fresh, well-formed crossword of fresh words. It has the same slots, size and clues, and it reads as the blanked grid. The original's letters are unchanged. |
| Crosswords.Crossword.CreateFullCopy | Crossword/src/Classes/Crossword.ts:92-96 | A fresh crossword of fresh words with the same slots, size, clues and letters. |
| Layout.Blanked | Crossword/src/Classes/Crossword.ts:86-90 | Blanking keeps every slot. |
| Layout.BlankedReadsBlank | Crossword/src/Classes/Crossword.ts:86-90 | A blank copy reads '_' at every covered cell and nothing elsewhere, and its crossing words agree. |
| Layout.BlankedIsPlayable | Crossword/src/Classes/CrosswordGame.ts:13 | A fresh board holds only blanks. |
| Games.NewBoard | Crossword/src/Classes/CrosswordGame.ts:13 | The game's board: a fresh blank copy of the key, whose words need only be well formed (one word object may be listed twice). It shares no word with the key, has the same slots and size, and holds only blanks. The key's letters are unchanged. |
| Games.CrosswordGame.constructor | Crossword/src/Classes/CrosswordGame.ts:11-16 | Any key of well-formed words is accepted, including one listing a word object twice. The key is kept, the board reads as the blanked key, rows and cols are the key's, and the key's letters are unchanged. |
| Games.CrosswordGame.SetCharAt | Crossword/src/Classes/CrosswordGame.ts:26-28 | The board changes as the crossword's setCharAt says; the key never changes; the board still holds only blanks and a-z. |
| Layout.WriteAtKeepsPlayable | Crossword/src/Classes/CrosswordGame.ts:26-28 | Writing a letter a-z keeps the board to blanks and a-z. |
| Games.CrosswordGame.GetIncorrectCharacters | Crossword/src/Classes/CrosswordGame.ts:34-48 | The scan lists exactly the in-grid covered cells whose board and key letters differ. Cells come column by column, top to bottom, each once. |
| Games.CrosswordGame.CheckCell | Crossword/src/Classes/CrosswordGame.ts:38-43 | A cell is listed exactly when the board covers it and the board's letter there differs from the key's. |
| Games.ScanMembers | Crossword/src/Classes/CrosswordGame.ts:36-46 | The partial scan lists exactly the incorrect cells it has passed. |
| Games.ScanOrdered | Crossword/src/Classes/CrosswordGame.ts:36-46 | The partial scan is strictly increasing in scan order and lies before the current cell. |
| Games.CrosswordGame.IsSolved | Crossword/src/Classes/CrosswordGame.ts:30-32 | Solved exactly when no in-grid covered cell differs between board and key. |
| Layout.SolvedIffCoveredCellsMatch | Crossword/src/Classes/CrosswordGame.ts:30-48 | When no word is anchored at a negative row or column, a game over the crossword's own size is solved exactly when every covered cell of the board reads as the key. |
| Games.NewGameUnsolved | Crossword/src/Classes/CrosswordGame.ts:11-16 | A new game is unsolved while the key holds any non-blank letter in the grid. |
| Layout.OddKeyLetterNeverSolved | Crossword/src/Classes/CrosswordGame.ts:26-32 | A key letter outside a-z and '_' can never be matched, so such a game is never solved. |
| Games.FillFromKey | Crossword/src/Classes/CrosswordGame.ts:26-28 | A player calling setCharAt with the key's letter, cell after cell, keeps every word's slot and length. |
| Games.FillStep | Crossword/src/Classes/CrosswordGame.ts:26-28 | One such setCharAt stores the key's letter as CheckChar lowers it, leaves the board alone when CheckChar rejects it, and keeps every slot and length. |
| Games.FillFromKeyFrame | Crossword/src/Classes/CrosswordGame.ts:26-28 | Copying key letters into other cells leaves a cell alone. |
| Games.FillFromKeyMatches | Crossword/src/Classes/CrosswordGame.ts:26-28 | A copied cell whose key letter is a-z reads as the key. |
| Games.FillingFromKeySolves | Crossword/src/Classes/CrosswordGame.ts:26-48 | Copying the key's letter into every covered cell of the grid solves the game when those letters are a-z. |
| CrosswordGen.Split | themini-backend/src/Classes/CrosswordGen.ts:34 | split('_') always returns at least one part. |
| CrosswordGen.SplitJoin | themini-backend/src/Classes/CrosswordGen.ts:34 | Splitting a line on the separator and joining the parts gives the line back. |
| CrosswordGen.SplitJoinSnoc | themini-backend/src/Classes/CrosswordGen.ts:34 | The round trip survives appending one character. |
| CrosswordGen.SplitSnoc | themini-backend/src/Classes/CrosswordGen.ts:34 | A separator opens a new empty part; any other character extends the last part. |
| CrosswordGen.JoinSnoc | themini-backend/src/Classes/CrosswordGen.ts:34 | join puts the separator between consecutive parts. |
| CrosswordGen.JoinExtendLast | themini-backend/src/Classes/CrosswordGen.ts:34 | Extending the last part extends the joined line by the same character. |
| CrosswordGen.SplitPartsLackSep | themini-backend/src/Classes/CrosswordGen.ts:34-36 | No part contains the separator. |
| CrosswordGen.LastPartIsFinalRun | themini-backend/src/Classes/CrosswordGen.ts:113-114 | split('_').at(-1) is the run after the last blank: a suffix of the line, with no blank, preceded by a blank or the line start. |
| CrosswordGen.TrimEndDropsTrailingSpace | themini-backend/src/Classes/CrosswordGen.ts:48 | The /\s+$/ strip removes exactly the trailing whitespace. |
| CrosswordGen.Pattern | themini-backend/src/Classes/CrosswordGen.ts:48 | The query pattern is at most one character longer than the part. |
| CrosswordGen.Occurrences | themini-backend/src/Classes/CrosswordGen.ts:19-26 | A character count never exceeds the length. |
| CrosswordGen.Column | themini-backend/src/Classes/CrosswordGen.ts:61 | The column string is the x-th cell of every row, top to bottom. |
| CrosswordGen.RowOf | themini-backend/src/Classes/CrosswordGen.ts:34 | A row of the grid array as a string. |
| CrosswordGen.ColOf | themini-backend/src/Classes/CrosswordGen.ts:114 | A column of the grid array as a string. |
| CrosswordGen.Snapshot | themini-backend/src/Classes/CrosswordGen.ts:13-15 | The grid array as a sequence of its rows. |
| CrosswordGen.CountBlanks | themini-backend/src/Classes/CrosswordGen.ts:18-26 | The loop counts exactly the '_' cells of the grid. |
| CrosswordGen.TooManyBlanksInvalid | themini-backend/src/Classes/CrosswordGen.ts:28-30 | A grid more than half blank is never valid. |
| CrosswordGen.CheckLine | themini-backend/src/Classes/CrosswordGen.ts:34-53 | A row or column passes exactly when every part with a letter and two or more characters is accepted by wordExists. |
| CrosswordGen.RowsPass | themini-backend/src/Classes/CrosswordGen.ts:32-57 | True exactly when every row passes. |
| CrosswordGen.ColumnsPass | themini-backend/src/Classes/CrosswordGen.ts:59-81 | True exactly when every column passes. |
| CrosswordGen.NoMaroonedCell | themini-backend/src/Classes/CrosswordGen.ts:83-95 | True exactly when no cell has a blank or the edge on all four sides. |
| CrosswordGen.SingleCellNeverValid | themini-backend/src/Classes/CrosswordGen.ts:83-95 | A 1x1 grid is never valid, since its only cell is walled in by the edges. |
| CrosswordGen.ValidGrid | themini-backend/src/Classes/CrosswordGen.ts:13-98 | validGrid holds exactly when the blank ratio, row, column and marooned checks all pass. |
| CrosswordGen.AlphabetIsCache | themini-backend/src/Classes/CrosswordGen.ts:4 | The alphabet has 27 distinct characters, '_' included. |
| CrosswordGen.RemoveFirstShrinks | themini-backend/src/Classes/CrosswordGen.ts:135 | Removing a tried character from a cell's set drops exactly that character. |
| CrosswordGen.RemoveFirstKeepsCache | themini-backend/src/Classes/CrosswordGen.ts:135-136 | The cell's remaining set stays a set of distinct alphabet characters without the tried one. |
| CrosswordGen.CharSetIsCache | themini-backend/src/Classes/CrosswordGen.ts:109-118 | The characters offered at the cursor are distinct alphabet characters. |
| CrosswordGen.ForcedCellNotBlank | themini-backend/src/Classes/CrosswordGen.ts:113-118 | A run of MAX_WORD_LENGTH + 1 ending at the cursor ends in a letter; this is what forces the blank. |
| CrosswordGen.MustBlank | themini-backend/src/Classes/CrosswordGen.ts:113-118 | The blank is forced exactly when the run ending at the cursor, in its row or its column, reaches MAX_WORD_LENGTH + 1. |
| CrosswordGen.FirstVisit | themini-backend/src/Classes/CrosswordGen.ts:109-111 | Seeding an unvisited cell with the alphabet keeps the invariant and lowers the rank. |
| CrosswordGen.PlaceKeepsInv | themini-backend/src/Classes/CrosswordGen.ts:133-145 | Placing a character from the cell's set, then staying or advancing, keeps the cache and cursor invariant. |
| CrosswordGen.PlaceLowersRank | themini-backend/src/Classes/CrosswordGen.ts:133-145 | Every placement lowers the search rank. |
| CrosswordGen.BacktrackKeepsInv | themini-backend/src/Classes/CrosswordGen.ts:120-131 | Clearing an exhausted cell and stepping back one cell keeps the invariant. |
| CrosswordGen.BacktrackLowersRank | themini-backend/src/Classes/CrosswordGen.ts:120-131 | Every backtrack lowers the search rank. |
| CrosswordGen.RankLess | themini-backend/src/Classes/CrosswordGen.ts:107-147 | A lower digit at the first changed cell means a lower rank. |
| CrosswordGen.DigitsBelowBase | themini-backend/src/Classes/CrosswordGen.ts:107-147 | Each cell's digit is below the rank's base. |
| CrosswordGen.RowDigits | themini-backend/src/Classes/CrosswordGen.ts:107-147 | A row's digits are its cells' digits in order. |
| CrosswordGen.RowRanks | themini-backend/src/Classes/CrosswordGen.ts:107-147 | A row's rank is the value of its digits. |
| CrosswordGen.SetCell | themini-backend/src/Classes/CrosswordGen.ts:122 | Writing one grid cell changes exactly that cell. |
| CrosswordGen.Advance | themini-backend/src/Classes/CrosswordGen.ts:107-108 | The for-loops' step moves the cursor to Next, the row-major successor cell the loop invariant is stated over. |
| CrosswordGen.Backtrack | themini-backend/src/Classes/CrosswordGen.ts:120-131 | On an exhausted cell, the cell is cleared and its cache entry deleted. It fails exactly at (0, 0); otherwise the cursor moves to Prev, one cell back, onto a cached cell. The invariant is kept and the rank drops. |
| CrosswordGen.Place | themini-backend/src/Classes/CrosswordGen.ts:133-145 | Some character c of the offered set is written into the cell, and the cell's cache becomes the set without c. The cursor moves to Next exactly when the new grid satisfies validGrid, and otherwise stays to retry the cell. The invariant is kept and the rank drops. |
| CrosswordGen.Step | themini-backend/src/Classes/CrosswordGen.ts:109-145 | The offered set is "_" when the blank is forced, else the cell's cache, else ALPHABET. An empty set clears the cell and drops its cache, then fails at (0, 0) or moves to Prev. A non-empty set writes one of its characters and caches the rest, then moves to Next exactly when validGrid holds. The invariant is kept and the rank drops. |
| CrosswordGen.Generate | themini-backend/src/Classes/CrosswordGen.ts:100-150 | Terminates. Success gives a gridY x gridX grid of alphabet characters that passes validGrid whenever both sides are positive. Failure is "No solution found". |
| Radix.Pow | themini-backend/sql/buildCharSetBank.js:73-74 | A positive base has positive powers. |
| Radix.Zeros | themini-backend/sql/buildCharSetBank.js:74 | Array(len).fill(0): len zeros. |
| Radix.DigitsOf | themini-backend/sql/buildCharSetBank.js:73-74 | The n digits of a number in base b. |
| Radix.ValueBound | themini-backend/sql/buildCharSetBank.js:73-89 | n base-b digits are worth less than b^n. |
| Radix.ValueOfDigitsOf | themini-backend/sql/buildCharSetBank.js:73-89 | Converting a number to digits and back gives the number. |
| Radix.DigitsOfValue | themini-backend/sql/buildCharSetBank.js:73-89 | Converting digits to a number and back gives the digits. |
| Radix.ValueLexLess | themini-backend/sql/buildCharSetBank.js:73-89 | Digit sequences compare like their values. |
| Radix.ValueAppend | themini-backend/sql/buildCharSetBank.js:73-89 | The value of concatenated digits. |
| Radix.ValueSnoc | themini-backend/sql/buildCharSetBank.js:73-89 | Appending a digit multiplies by the base and adds it. |
| Radix.ValueZeros | themini-backend/sql/buildCharSetBank.js:74 | All zeros are worth 0. |
| Radix.ValueTop | themini-backend/sql/buildCharSetBank.js:88 | All top digits are worth b^n - 1. |
| Radix.Carry | themini-backend/sql/buildCharSetBank.js:81-87 | Incrementing with a carry adds one to the value. |
| CharSetBank.InsertSorted | themini-backend/sql/buildCharSetBank.js:36-44 | Adding a character to a sorted set keeps it sorted and adds exactly that character. |
| CharSetBank.NextCharsMeaning | themini-backend/sql/buildCharSetBank.js:36-44 | The sorted characters are exactly the ones some word has right after the prefix, in strictly increasing order. |
| CharSetBank.IncreasingUnique | themini-backend/sql/buildCharSetBank.js:44 | A sorted set is determined by its members. |
| CharSetBank.GenerateCharSet | themini-backend/sql/buildCharSetBank.js:31-34 | No words and a non-empty prefix give the empty charset. |
| CharSetBank.GenerateCharSetMeaning | themini-backend/sql/buildCharSetBank.js:31-49 | The charset is the sorted set of characters some word has after the prefix. It has '_' appended exactly when the prefix is itself a word or empty. |
| CharSetBank.EmptyPrefixEndsInBlank | themini-backend/sql/buildCharSetBank.js:45-47 | The empty prefix's charset always ends in '_'. |
| CharSetBank.GenerateCharSetEmpty | themini-backend/sql/buildCharSetBank.js:31-49 | The charset is empty exactly when the prefix is non-empty and either there are no words or the prefix is not a word and no word continues it. |
| CharSetBank.EmptyStaysEmpty | themini-backend/sql/buildCharSetBank.js:97-104 | Filtering the words further cannot make an empty charset non-empty. |
| CharSetBank.Spell | themini-backend/sql/buildCharSetBank.js:77 | indices.map(i => charset[i]).join(''): one character per digit. |
| CharSetBank.Count | themini-backend/sql/buildCharSetBank.js:72-90 | There is at least one combination of each length. |
| CharSetBank.Counter | themini-backend/sql/buildCharSetBank.js:74-89 | The odometer's digits after v steps. |
| CharSetBank.Enum | themini-backend/sql/buildCharSetBank.js:74-89 | The combinations of one length in odometer order, |charset|^len of them. |
| CharSetBank.CombinationsCount | themini-backend/sql/buildCharSetBank.js:69-91 | The callback sees the sum over lengths of |charset|^len combinations. |
| CharSetBank.EnumComplete | themini-backend/sql/buildCharSetBank.js:74-89 | Every digit sequence's spelling appears, at the position of its value. |
| CharSetBank.SpellOnto | themini-backend/sql/buildCharSetBank.js:74-89 | Every string over the charset is the spelling of some digits. |
| CharSetBank.SpellInjective | themini-backend/sql/buildCharSetBank.js:74-89 | Different digits spell different strings over a charset without repeats. |
| CharSetBank.EnumOnce | themini-backend/sql/buildCharSetBank.js:74-89 | No combination is emitted twice. |
| CharSetBank.EnumOrdered | themini-backend/sql/buildCharSetBank.js:74-89 | Combinations come in increasing order of their digits. |
| CharSetBank.Increment | themini-backend/sql/buildCharSetBank.js:81-87 | The carry loop: every digit right of pos wrapped to 0; pos went up by one below the base; the digits left of it are unchanged; pos = -1 when all wrapped. |
| CharSetBank.WrapValue | themini-backend/sql/buildCharSetBank.js:88 | When every digit wraps, the odometer has passed its last value. |
| CharSetBank.StepValue | themini-backend/sql/buildCharSetBank.js:81-87 | A carry that stops at pos adds exactly one to the value. |
| CharSetBank.NextCounter | themini-backend/sql/buildCharSetBank.js:80-88 | One increment moves the odometer from step v to step v + 1, or ends the length after the last step. |
| CharSetBank.EmitLength | themini-backend/sql/buildCharSetBank.js:74-89 | The inner loop emits exactly the combinations of one length, in odometer order. |
| CharSetBank.CombinationsNext | themini-backend/sql/buildCharSetBank.js:72-90 | The combinations so far plus those of the next length are the combinations up to that length. |
| CharSetBank.IterateCombinations | themini-backend/sql/buildCharSetBank.js:69-91 | The callback receives "" and then every combination of length 1 to maxLen: shorter ones first, each length in odometer order. |
| CharSetBank.WithPrefixMeaning | themini-backend/sql/buildCharSetBank.js:16-28 | The prefix query returns exactly the dictionary words that start with the prefix. |
| CharSetBank.FittingMeaning | themini-backend/sql/buildCharSetBank.js:98 | The length filter keeps exactly the words no longer than the bound. |
| CharSetBank.FittingShrinks | themini-backend/sql/buildCharSetBank.js:97-98 | A smaller remaining space keeps fewer words. |
| CharSetBank.EntryEmptyBelow | themini-backend/sql/buildCharSetBank.js:97-104 | Once a prefix's charset is empty, it stays empty for every smaller remaining space. |
| CharSetBank.StopLosesNothing | themini-backend/sql/buildCharSetBank.js:101-104 | Stopping at the first empty charset stores the same rows as visiting every remaining space down to 0. |
| CharSetBank.RowsOfAt | themini-backend/sql/buildCharSetBank.js:97-107 | The rows stored for a prefix over a range of spaces are exactly its non-empty charsets in that range. |
| CharSetBank.RowsOfSkip | themini-backend/sql/buildCharSetBank.js:97-107 | Spaces whose charset is empty add no row. |
| CharSetBank.RowsMeaning | themini-backend/sql/buildCharSetBank.js:93-108 | One callback stores exactly one row per remaining space with a non-empty charset, holding that charset. |
| CharSetBank.AllRowsMeaning | themini-backend/sql/buildCharSetBank.js:93-108 | After the run, the table holds exactly the rows of every prefix and remaining space with a non-empty charset. |
| CharSetBank.Bank.constructor | themini-backend/sql/buildCharSetBank.js:66 | The charsets table starts empty. |
| CharSetBank.Bank.InsertCharSet | themini-backend/sql/buildCharSetBank.js:51-63 | Insert, or replace on a clash of (prefix, remaining-space); no other row changes. |
| CharSetBank.Bank.FillPrefix | themini-backend/sql/buildCharSetBank.js:93-108 | The table gains exactly the combination's rows. |
| CharSetBank.Bank.Build | themini-backend/sql/buildCharSetBank.js:93-108 | The callback runs on "" and every combination of up to four letters, and the table gains all of their rows. |
| CrosswordGeneration.Longest | Crossword/src/Utils/CrosswordGeneration.ts:71 | Math.min(n, 7). |
| CrosswordGeneration.RowsFrom | Crossword/src/Utils/CrosswordGeneration.ts:16-18 | The rows [lo, lo + n). |
| CrosswordGeneration.RowsFromCard | Crossword/src/Utils/CrosswordGeneration.ts:16-18 | A down word of length n fills n distinct rows. |
| CrosswordGeneration.GetFilledRows | Crossword/src/Utils/CrosswordGeneration.ts:10-22 | The set holds exactly the rows spanned by the words: an across word's own row, every row of a down word. |
| CrosswordGeneration.CoveredRowsMeaning | Crossword/src/Utils/CrosswordGeneration.ts:10-22 | A row is filled exactly when some word spans it. |
| CrosswordGeneration.FilledRowsHoldLetters | Crossword/src/Utils/CrosswordGeneration.ts:10-22 | For words of positive length, a row is filled exactly when some word puts a letter in it. |
| CrosswordGeneration.FullRows | Crossword/src/Utils/CrosswordGeneration.ts:64 | maxRows filled rows inside [0, maxRows) are all of them. |
| CrosswordGeneration.GetRandomWord | Crossword/src/Interfaces/IDictionaryRepo.ts:4 | A dictionary word of the requested length, or DataError exactly when there is none. |
| CrosswordGeneration.MakeCandidate | Crossword/src/Utils/CrosswordGeneration.ts:74-75 | A fresh word at the given slot, built from a dictionary word and a fresh clue holding the dictionary's clue text; DataError exactly when no word has that length. |
| CrosswordGeneration.TryAcross | Crossword/src/Utils/CrosswordGeneration.ts:68-87 | The first row without letters gets the longest word, min(maxCols, 7) letters, at column 0. The search finds nothing exactly when no row is open or that length is below 3. DataError exactly when the dictionary lacks that length. |
| CrosswordGeneration.HasDownWord | Crossword/src/Utils/CrosswordGeneration.ts:91-97 | True exactly when some down word starts in the column. |
| CrosswordGeneration.TryDown | Crossword/src/Utils/CrosswordGeneration.ts:88-115 | The first column without a down word gets the longest word, min(maxRows, 7) letters, at row 0. The search finds nothing exactly when no column is open or that length is below 3. DataError exactly when the dictionary lacks that length. |
| CrosswordGeneration.NextWord | Crossword/src/Utils/CrosswordGeneration.ts:66-116 | One round places the slot the greedy rule chooses, a down word only when no across word fits. It places nothing exactly when neither search has a candidate. It reports DataError exactly when the search finds a slot whose length no dictionary word has. |
| CrosswordGeneration.StuckFirst | Crossword/src/Utils/CrosswordGeneration.ts:66-116 | The first round, on an empty list, reports DataError exactly when the grid has a row and a column and the dictionary lacks the first word's length: min(maxCols, 7) across, or min(maxRows, 7) down when fewer than three columns. |
| CrosswordGeneration.StuckLater | Crossword/src/Utils/CrosswordGeneration.ts:66-116 | A later round can report DataError only when the dictionary could not have served the first round. |
| CrosswordGeneration.ChosenInside | Crossword/src/Utils/CrosswordGeneration.ts:71-73 | Every chosen word lies inside the grid and has 3 to 7 letters. |
| CrosswordGeneration.GreedySnoc | Crossword/src/Utils/CrosswordGeneration.ts:60-117 | A round that follows the rule extends a greedy word list. |
| CrosswordGeneration.GreedyPrefix | Crossword/src/Utils/CrosswordGeneration.ts:60-117 | The words of the earlier rounds also follow the rule. |
| CrosswordGeneration.GreedyInside | Crossword/src/Utils/CrosswordGeneration.ts:60-117 | Every placed word lies inside the grid and has 3 to 7 letters. |
| CrosswordGeneration.GreedyFresh | Crossword/src/Utils/CrosswordGeneration.ts:60-117 | No two rounds choose the same slot. |
| CrosswordGeneration.AcrossStep | Crossword/src/Utils/CrosswordGeneration.ts:68-87 | Once rows [0, n) are filled, the next word is the longest across word at row n, column 0. |
| CrosswordGeneration.AcrossCovered | Crossword/src/Utils/CrosswordGeneration.ts:10-22 | Across words in rows 0 to n - 1 fill exactly those rows. |
| CrosswordGeneration.GreedyAcross | Crossword/src/Utils/CrosswordGeneration.ts:60-117 | With three or more columns, the placer only ever places across words, at column 0 of rows 0, 1, 2, ... in turn. The first n words fill exactly the first n rows. |
| CrosswordGeneration.CoveredRowsInside | Crossword/src/Utils/CrosswordGeneration.ts:10-22 | Words inside the grid fill only rows of the grid. |
| CrosswordGeneration.SizeInside | Crossword/src/Classes/Crossword.ts:33-36 | Words inside the grid give a crossword no larger than the grid. |
| CrosswordGeneration.BuiltSnoc | Crossword/src/Utils/CrosswordGeneration.ts:77-79 | Pushing the chosen dictionary word keeps the word list sound, distinct and greedy. |
| CrosswordGeneration.GreedyDown | Crossword/src/Utils/CrosswordGeneration.ts:88-115 | With fewer than three columns, the placer only ever places down words of min(maxRows, 7) letters, at row 0 of columns 0, 1, ... in turn, at most one per column. |
| CrosswordGeneration.GreedyDownAt | Crossword/src/Utils/CrosswordGeneration.ts:88-115 | The k-th word of a narrow grid is the down word at the top of column k, and k is inside the grid. |
| CrosswordGeneration.DownStep | Crossword/src/Utils/CrosswordGeneration.ts:88-115 | Once columns 0 to n - 1 have their down words, the next word is the longest down word at the top of column n. |
| CrosswordGeneration.DownCovered | Crossword/src/Utils/CrosswordGeneration.ts:10-22 | Down words of len letters at the top of columns 0, 1, ... fill exactly the rows 0 to len - 1 once there is one. |
| CrosswordGeneration.PlacedOutcome | Crossword/src/Utils/CrosswordGeneration.ts:60-121 | When the loop stopped for one of its three reasons and the first round was served, every row holds a letter exactly when the grid is one the placer fills: no rows; or three or more columns, at most 100 rows and a min(maxCols, 7)-letter word; or one or two columns, 3 to 7 rows and a maxRows-letter word. |
| CrosswordGeneration.Round | Crossword/src/Utils/CrosswordGeneration.ts:62-116 | A round keeps the word list sound and greedy. It places nothing exactly when neither the across nor the down search has a slot left. It reports DataError exactly when its search is stuck on a missing length. With three or more columns, it places a word unless the dictionary lacks min(maxCols, 7)-letter words, and then it reports DataError. |
| CrosswordGeneration.PlaceWords | Crossword/src/Utils/CrosswordGeneration.ts:56-117 | The placement loop keeps the word list sound and greedy, with at most 100 fresh words. It fails, always with DataError, exactly when the dictionary cannot serve the first round. A successful loop stops only after 100 words, with every row holding a letter, or with neither search having a slot left. Every row then holds a letter exactly when the grid fills (see GenerateCrosswordGame). |
| CrosswordGeneration.Finish | Crossword/src/Utils/CrosswordGeneration.ts:119-125 | RowsNotFilled exactly when fewer than maxRows rows hold a letter. Otherwise the game is built over these very words and is a generated game (see GenerateCrosswordGame). |
| CrosswordGeneration.GenerateCrosswordGame | Crossword/src/Utils/CrosswordGeneration.ts:55-126 | Every failure is DataError or RowsNotFilled. DataError comes exactly when the dictionary cannot serve the first round. A game is produced exactly when maxRows <= 0, or the grid has three or more columns and at most 100 rows and the dictionary has a min(maxCols, 7)-letter word, or the grid has one or two columns and 3 to 7 rows and the dictionary has a maxRows-letter word (the down words then fill the rows). A success is a fresh game whose board is the blanked key, with at most 100 words placed by the greedy rule, every key word and clue from the dictionary, a letter in every row 0 to maxRows - 1, and a size within maxRows x maxCols. |

## Left out

- Crossword size of an empty word list: `Math.max()` of nothing is `-Infinity`, and the model uses 0. `Crosswords.Crossword.constructor` and `Layout.ExtentsAreMaxima` state 0 for that case.
- `Crosswords.Crossword.constructor`: the code has no overlap check, though an overlap error class exists, so none is modelled.
- `Words.Word.constructor`: requires non-empty text, because a Dafny constructor cannot fail. The throwing path is `Words.Word.Create`. The `!text` test for a missing (undefined or null) text has no counterpart, because text is always a string here.
- `Words.Word.constructor`: the word's length is `|text|` in code points. JavaScript's `text.length` counts UTF-16 units, which differs for characters outside the Basic Multilingual Plane. `Words.Utf16Length` is used only for the single-character check of setCharAt.
- `Words.CheckChar`: `toLowerCase` is modelled only as far as it can yield a single letter a-z: A-Z and the Kelvin sign. Other characters are left as they are, which is enough to decide acceptance.
- Coordinates are integers. Fractional or NaN arguments to getCharAt and setCharAt are not modelled.
- `console.log` calls are left out: the Crossword constructor's, the generator's progress output and the charset bank's.
- Async and database I/O:
  - The SQLite queries become pure functions over a word list. LIKE 'prefix%' is a prefix test. Case-insensitive LIKE matching is not modelled.
  - The dictionary's `wordExists(pattern, length)` is the oracle parameter `wordExists`.
  - Database errors and rejected promises are not modelled, except the "no word of that length" data error of getRandomWord.
- `CharSetBank.Bank.Build`: the first, unawaited `callback('')` is taken to run before the others. The callbacks are taken to run in emission order. The source awaits each callback in turn, but not that first one.
- `CrosswordGen.ValidGrid`: `blankCount / totalSpaces > 0.5` is modelled as `2 * blankCount > totalSpaces`. This agrees for every non-empty grid.
- `CrosswordGen.Generate`: with gridX == 0 the source's loops never run and it returns the empty rows. The model returns the same grid but does not claim validGrid for it, since validGrid would read `grid[0]` of a grid with no cells.
- `CrosswordGen.Generate`: the per-cell cache keys `"x,y"` are pairs `(x, y)`. The generator's body is split into Step, Place, Backtrack and MustBlank helper methods. They change only the grid array they are given.
- `CrosswordGen.Backtrack`: on an exhausted cell the source sets `x -= 2`, and the for-loop's `x++` then moves the cursor exactly one cell back. The model steps back one cell. Stepping back two cells would skip the previous cell's remaining choices.
- `CrosswordGeneration.GetRandomWord`: the repository method is async and returns `{id, text}` without a clue, while the placer reads `word.text` and `word.clue` from it directly. The model treats the call as synchronous. The dictionary supplies the clue text, and a new `Clue` is built from it.
- `CrosswordGeneration.MakeCandidate`: the leading `word.id` argument of `new Word(word.id, word.text, word.clue, ...)` does not fit the five-parameter Word constructor. The model drops it and builds the word from text, clue, row, column and direction.
- `CrosswordGeneration.TryAcross`, `CrosswordGeneration.TryDown`: `new Crossword(...)` never throws, so the try/catch always accepts the first candidate. The length and column (or row) loops therefore collapse to their first iteration, and the guard `row + 1 > maxRows` inside them can never hold.
- `CrosswordGeneration.GetFilledRows`: `maxRows` and `maxCols` are accepted and ignored, as in the source.
- `Crosswords.Crossword.SetCharAt`: requires `Valid()`, which includes that no Word object is listed twice. The source also accepts a list holding the same word twice, and then writes that word twice. The model does not cover that aliasing. It is the only member that requires it: the read-only queries GetCharAt and IntersectsWord, the copies CreateBlankCopy and CreateFullCopy, and a new game (`Games.CrosswordGame.constructor`, `Games.NewBoard`) require only well-formed words. A game's board is always a fresh copy with distinct words, so `Games.CrosswordGame.SetCharAt` writes to a board that meets it.
- Default arguments: `generate(gridX = 5, gridY = 5)` and `GenerateCrosswordGame(repo, maxRows = 5, maxCols = 5)` take their sizes as explicit parameters. `CrosswordGen.Generate` and `CrosswordGeneration.GenerateCrosswordGame` have no defaults.
- `CharSetBank.NextChars`: `word[prefix.length]` indexes UTF-16 units, and the default `sort()` compares UTF-16 code units. The model indexes and orders by code point. The two agree on dictionaries of Basic Multilingual Plane characters such as a-z.
