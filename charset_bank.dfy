/** The backend's charset-bank builder: for every prefix of up to
    MAX_WORD_LENGTH - 1 letters and every remaining space, the characters that
    can follow the prefix in a dictionary word that fits, stored in a table
    keyed by (prefix, remaining-space). The dictionary is a word list; the
    SQL prefix query is a filter over it. */
module CharSetBank {
  import opened Radix

  const CHARSET: string := "abcdefghijklmnopqrstuvwxyz"
  const MAX_WORD_LENGTH: nat := 5
  /** Appended to a charset when the prefix is itself a word (or empty). */
  const BLANK: char := '_'

  // ------------------------------------------------------------ generateCharSet

  predicate Increasing(s: string) {
    forall i, j :: 0 <= i < j < |s| ==> s[i] < s[j]
  }

  /** Adds c to an increasing string, keeping it increasing (a Set add). */
  function InsertSorted(s: string, c: char): (r: string)
    requires Increasing(s)
    ensures Increasing(r) && forall ch :: ch in r <==> ch in s || ch == c
  {
    if s == [] then [c]
    else if c < s[0] then [c] + s
    else if c == s[0] then s
    else
      var t := InsertSorted(s[1..], c);
      assert forall ch :: ch in s <==> ch == s[0] || ch in s[1..];
      assert forall i :: 0 <= i < |t| ==> s[0] < t[i] by {
        forall i | 0 <= i < |t| ensures s[0] < t[i] {
          assert t[i] in t;
        }
      }
      [s[0]] + t
  }

  /** Some word is longer than n and has ch at index n. */
  predicate Follows(words: seq<string>, n: nat, ch: char) {
    exists k :: 0 <= k < |words| && n < |words[k]| && words[k][n] == ch
  }

  /** The distinct characters at index n of the words longer than n, in
      ascending order: the Set built by the loop, then sort().join(''). */
  function NextChars(words: seq<string>, n: nat): string {
    if words == [] then []
    else
      var r := NextChars(words[..|words| - 1], n);
      var w := words[|words| - 1];
      if n < |w| && Increasing(r) then InsertSorted(r, w[n]) else r
  }

  /** NextChars is increasing and holds exactly the characters that follow
      position n in some word. */
  lemma {:induction false} NextCharsMeaning(words: seq<string>, n: nat)
    ensures Increasing(NextChars(words, n))
    ensures forall ch :: ch in NextChars(words, n) <==> Follows(words, n, ch)
  {
    if words != [] {
      var pre := words[..|words| - 1];
      var w := words[|words| - 1];
      NextCharsMeaning(pre, n);
      forall ch | Follows(words, n, ch) && !(n < |w| && w[n] == ch)
        ensures Follows(pre, n, ch)
      {
        var k :| 0 <= k < |words| && n < |words[k]| && words[k][n] == ch;
        assert k < |pre| && pre[k] == words[k];
      }
      forall ch | Follows(pre, n, ch) ensures Follows(words, n, ch) {
        var k :| 0 <= k < |pre| && n < |pre[k]| && pre[k][n] == ch;
        assert words[k] == pre[k];
      }
    }
  }

  /** The first character of an increasing string is its least. */
  lemma IncreasingFirst(s: string)
    requires Increasing(s) && s != []
    ensures forall k :: 0 <= k < |s| ==> s[0] <= s[k]
  {
  }

  /** An increasing string is determined by its characters: whatever order
      the Set was built in, the sorted result is the same. */
  lemma {:induction false} IncreasingUnique(s: string, t: string)
    requires Increasing(s) && Increasing(t)
    requires forall ch :: ch in s <==> ch in t
    ensures s == t
  {
    if s != [] {
      assert s[0] in s;
    }
    if t != [] {
      assert t[0] in t;
    }
    if s != [] && t != [] {
      IncreasingFirst(s);
      IncreasingFirst(t);
      var j :| 0 <= j < |t| && t[j] == s[0];
      var i :| 0 <= i < |s| && s[i] == t[0];
      assert t[0] <= t[j] && s[0] <= s[i];
      IncreasingTail(s);
      IncreasingTail(t);
      IncreasingUnique(s[1..], t[1..]);
      assert s == [s[0]] + s[1..] && t == [t[0]] + t[1..];
    }
  }

  /** Dropping the first character of an increasing string drops exactly it. */
  lemma IncreasingTail(s: string)
    requires Increasing(s) && s != []
    ensures Increasing(s[1..])
    ensures forall ch :: ch in s[1..] <==> ch in s && ch != s[0]
  {
    forall ch | ch in s[1..]
      ensures ch in s && ch != s[0]
    {
      var k :| 0 <= k < |s| - 1 && s[1..][k] == ch;
      assert s[k + 1] == ch;
    }
    forall ch | ch in s && ch != s[0]
      ensures ch in s[1..]
    {
      var i :| 0 <= i < |s| && s[i] == ch;
      assert s[1..][i - 1] == ch;
    }
  }

  /** generateCharSet(words, prefix): the characters that can follow prefix,
      then '_' when prefix is a word or empty; "" for no words and a
      non-empty prefix. */
  function GenerateCharSet(words: seq<string>, prefix: string): (r: string)
    ensures |words| == 0 && |prefix| > 0 ==> r == ""
  {
    if |words| == 0 && |prefix| > 0 then ""
    else NextChars(words, |prefix|) + (if prefix in words || |prefix| == 0 then [BLANK] else [])
  }

  /** The result is the following characters in ascending order, with '_'
      appended last exactly when prefix is one of the words or empty. */
  lemma GenerateCharSetMeaning(words: seq<string>, prefix: string)
    requires |words| > 0 || |prefix| == 0
    ensures var r := GenerateCharSet(words, prefix);
      var marked := prefix in words || |prefix| == 0;
      var letters := if marked then r[..|r| - 1] else r;
      (marked ==> |r| > 0 && r[|r| - 1] == BLANK) &&
      Increasing(letters) && forall ch :: ch in letters <==> Follows(words, |prefix|, ch)
  {
    var r := GenerateCharSet(words, prefix);
    var nc := NextChars(words, |prefix|);
    NextCharsMeaning(words, |prefix|);
    if prefix in words || |prefix| == 0 {
      assert r[..|r| - 1] == nc;
    }
  }

  /** The empty prefix always yields a charset ending in '_'. */
  lemma EmptyPrefixEndsInBlank(words: seq<string>)
    ensures var r := GenerateCharSet(words, []); |r| > 0 && r[|r| - 1] == BLANK
  {
  }

  /** The charset is empty exactly when there are no words for a non-empty
      prefix, or no word continues the prefix and none equals it. */
  lemma GenerateCharSetEmpty(words: seq<string>, prefix: string)
    ensures GenerateCharSet(words, prefix) == [] <==>
      |prefix| > 0 && (|words| == 0 || (prefix !in words && forall ch :: !Follows(words, |prefix|, ch)))
  {
    var nc := NextChars(words, |prefix|);
    NextCharsMeaning(words, |prefix|);
    if |words| > 0 && prefix !in words && |prefix| > 0 && nc != [] {
      assert nc[0] in nc;
    }
  }

  /** Fewer words never give a non-empty charset where more gave none. */
  lemma EmptyStaysEmpty(words: seq<string>, fewer: seq<string>, prefix: string)
    requires forall w :: w in fewer ==> w in words
    requires GenerateCharSet(words, prefix) == []
    ensures GenerateCharSet(fewer, prefix) == []
  {
    GenerateCharSetEmpty(words, prefix);
    GenerateCharSetEmpty(fewer, prefix);
    if |fewer| > 0 {
      assert fewer[0] in words;
    }
    forall ch | Follows(fewer, |prefix|, ch) ensures Follows(words, |prefix|, ch) {
      var k :| 0 <= k < |fewer| && |prefix| < |fewer[k]| && fewer[k][|prefix|] == ch;
      assert fewer[k] in words;
      var m :| 0 <= m < |words| && words[m] == fewer[k];
    }
  }

  // ------------------------------------------------------------ iterateCombinations

  /** indices.map(i => charset[i]).join(''): an index past the charset reads
      undefined, which joins as nothing. */
  function Spell(cs: string, ds: seq<nat>): (s: string)
    ensures IsDigits(ds, |cs|) ==> |s| == |ds|
  {
    if ds == [] then []
    else Spell(cs, ds[..|ds| - 1]) + (if ds[|ds| - 1] < |cs| then [cs[ds[|ds| - 1]]] else [])
  }

  /** How many combinations of one length the odometer emits: all |cs|^len of
      them, or a single one over an empty charset. */
  function Count(cs: string, len: nat): (n: nat)
    ensures n > 0
  {
    if |cs| == 0 then 1 else Pow(|cs|, len)
  }

  /** The digits of the v-th combination of length len. */
  function Counter(cs: string, len: nat, v: nat): (ds: seq<nat>)
    ensures |ds| == len
  {
    if |cs| == 0 then Zeros(len) else DigitsOf(v, |cs|, len)
  }

  /** The combinations of length len in the order the odometer emits them. */
  function Enum(cs: string, len: nat): (e: seq<string>)
    ensures |e| == Count(cs, len)
  {
    seq(Count(cs, len), v requires 0 <= v => Spell(cs, Counter(cs, len, v)))
  }

  /** The combinations of lengths 1..maxLen, shortest first. */
  function Combinations(cs: string, maxLen: int): (e: seq<string>)
    decreases maxLen
  {
    if maxLen <= 0 then [] else Combinations(cs, maxLen - 1) + Enum(cs, maxLen)
  }

  /** 1 + sum over len of |cs|^len combinations are emitted. */
  function Total(cs: string, maxLen: int): nat
    decreases maxLen
  {
    if maxLen <= 0 then 0 else Total(cs, maxLen - 1) + Count(cs, maxLen)
  }

  lemma {:induction false} CombinationsCount(cs: string, maxLen: int)
    ensures |Combinations(cs, maxLen)| == Total(cs, maxLen)
    decreases maxLen
  {
    if maxLen > 0 {
      CombinationsCount(cs, maxLen - 1);
    }
  }

  /** Completeness: every string of length len over a non-empty charset is
      emitted, at the position its digits denote. */
  lemma EnumComplete(cs: string, ds: seq<nat>)
    requires |cs| > 0 && IsDigits(ds, |cs|)
    ensures Value(ds, |cs|) < |Enum(cs, |ds|)| && Enum(cs, |ds|)[Value(ds, |cs|)] == Spell(cs, ds)
  {
    ValueBound(ds, |cs|);
    DigitsOfValue(ds, |cs|);
  }

  /** Every string made of charset characters is some combination's spelling. */
  lemma {:induction false} SpellOnto(cs: string, s: string)
    requires forall i :: 0 <= i < |s| ==> s[i] in cs
    ensures exists ds :: IsDigits(ds, |cs|) && |ds| == |s| && Spell(cs, ds) == s
  {
    if s != [] {
      var t := s[..|s| - 1];
      SpellOnto(cs, t);
      var es: seq<nat> :| IsDigits(es, |cs|) && |es| == |t| && Spell(cs, es) == t;
      var d: nat :| d < |cs| && cs[d] == s[|s| - 1];
      var ds := es + [d];
      assert ds[..|ds| - 1] == es;
      assert Spell(cs, ds) == s;
    }
  }

  /** Over a charset of distinct characters, distinct digit strings spell
      distinct strings. */
  lemma {:induction false} SpellInjective(cs: string, ds: seq<nat>, es: seq<nat>)
    requires forall i, j :: 0 <= i < j < |cs| ==> cs[i] != cs[j]
    requires IsDigits(ds, |cs|) && IsDigits(es, |cs|) && |ds| == |es|
    requires Spell(cs, ds) == Spell(cs, es)
    ensures ds == es
  {
    if ds != [] {
      var n := |ds| - 1;
      var a, b := Spell(cs, ds[..n]), Spell(cs, es[..n]);
      assert Spell(cs, ds) == a + [cs[ds[n]]] && Spell(cs, es) == b + [cs[es[n]]];
      assert |a| == |b| == n;
      assert a == Spell(cs, ds)[..n] && b == Spell(cs, es)[..n];
      assert cs[ds[n]] == Spell(cs, ds)[n];
      SpellInjective(cs, ds[..n], es[..n]);
      assert ds == ds[..n] + [ds[n]] && es == es[..n] + [es[n]];
    }
  }

  /** Exactly once: over distinct characters no combination of a length is
      emitted twice. */
  lemma EnumOnce(cs: string, len: nat, v: nat, w: nat)
    requires |cs| > 0 && forall i, j :: 0 <= i < j < |cs| ==> cs[i] != cs[j]
    requires v < w < Count(cs, len)
    ensures Enum(cs, len)[v] != Enum(cs, len)[w]
  {
    if Enum(cs, len)[v] == Enum(cs, len)[w] {
      SpellInjective(cs, DigitsOf(v, |cs|, len), DigitsOf(w, |cs|, len));
      ValueOfDigitsOf(v, |cs|, len);
      ValueOfDigitsOf(w, |cs|, len);
    }
  }

  /** Digit string ds comes before es in charset-index lexicographic order. */
  predicate LexLess(ds: seq<nat>, es: seq<nat>) {
    exists p :: 0 <= p < |ds| && p < |es| && ds[..p] == es[..p] && ds[p] < es[p]
  }

  /** Order: the odometer emits a length's combinations in lexicographic
      order of their charset indices. */
  lemma EnumOrdered(cs: string, len: nat, v: nat, w: nat)
    requires |cs| > 0 && v < w < Count(cs, len)
    ensures LexLess(Counter(cs, len, v), Counter(cs, len, w))
  {
    var b := |cs|;
    var ds, es := DigitsOf(v, b, len), DigitsOf(w, b, len);
    ValueOfDigitsOf(v, b, len);
    ValueOfDigitsOf(w, b, len);
    var p := FirstDifference(ds, es);
    if es[p] < ds[p] {
      ValueLexLess(ds, es, b, p);
    }
  }

  /** The first position where two different strings of one length differ. */
  lemma FirstDifference(ds: seq<nat>, es: seq<nat>) returns (p: nat)
    requires |ds| == |es| && ds != es
    ensures p < |ds| && ds[..p] == es[..p] && ds[p] != es[p]
  {
    p := 0;
    while p < |ds| && ds[p] == es[p]
      invariant p <= |ds| && ds[..p] == es[..p]
    {
      assert ds[..p + 1] == ds[..p] + [ds[p]] && es[..p + 1] == es[..p] + [es[p]];
      p := p + 1;
    }
  }

  /** The odometer step on indices: add one at the last position, carrying
      leftwards while a position reaches the base (it is reset to 0). The
      result is the position the carry stopped at, or -1 when it ran off the
      left end. */
  method Increment(indices: array<nat>, base: nat) returns (pos: int)
    modifies indices
    ensures -1 <= pos < indices.Length
    ensures forall k :: pos < k < indices.Length ==> indices[k] == 0 && old(indices[k]) + 1 >= base
    ensures pos >= 0 ==> indices[pos] == old(indices[pos]) + 1 < base
    ensures pos >= 0 ==> indices[..pos] == old(indices[..pos])
  {
    pos := indices.Length - 1;
    while pos >= 0
      invariant -1 <= pos < indices.Length
      invariant forall k :: 0 <= k <= pos ==> indices[k] == old(indices[k])
      invariant forall k :: pos < k < indices.Length ==> indices[k] == 0 && old(indices[k]) + 1 >= base
    {
      indices[pos] := indices[pos] + 1;
      if indices[pos] < base {
        break;
      }
      indices[pos] := 0;
      pos := pos - 1;
    }
  }

  /** A carry that runs off the left end wraps the largest number. */
  lemma WrapValue(before: seq<nat>, base: nat)
    requires base > 0 && IsDigits(before, base)
    requires forall k :: 0 <= k < |before| ==> before[k] + 1 >= base
    ensures Value(before, base) + 1 == Pow(base, |before|)
  {
    ValueTop(before, base);
  }

  /** A carry that stops at pos adds one to the number. */
  lemma StepValue(before: seq<nat>, after: seq<nat>, base: nat, pos: nat)
    requires base > 0 && IsDigits(before, base) && |after| == |before| && pos < |before|
    requires forall k :: pos < k < |before| ==> after[k] == 0 && before[k] + 1 >= base
    requires after[pos] == before[pos] + 1 < base && after[..pos] == before[..pos]
    ensures IsDigits(after, base) && Value(after, base) == Value(before, base) + 1
  {
    var k := |before| - pos - 1;
    var pre := before[..pos];
    var tops: seq<nat> := seq(k, _ => base - 1);
    SplitAt(before, pos, tops, base);
    SplitAt(after, pos, Zeros(k), base);
    var d := before[pos];
    assert after == pre + [d + 1] + Zeros(k);
    Carry(pre, d, k, base);
    assert Value(after, base) == Value(pre + [d + 1] + Zeros(k), base);
    assert Value(before, base) == Value(pre + [d] + tops, base);
    forall i | 0 <= i < |after| ensures after[i] < base {
      if i < pos {
        assert after[i] == before[i];
      }
    }
  }

  /** A digit string is its prefix, the digit at pos, and a given suffix. */
  lemma SplitAt(ds: seq<nat>, pos: nat, suffix: seq<nat>, base: nat)
    requires pos < |ds| && |suffix| == |ds| - pos - 1
    requires forall k :: pos < k < |ds| ==> ds[k] == suffix[k - pos - 1]
    ensures ds == ds[..pos] + [ds[pos]] + suffix
  {
  }

  /** The odometer step on Counter: the indices of combination v become those
      of v + 1, or the carry runs off for the last combination. */
  lemma NextCounter(cs: string, len: nat, v: nat, before: seq<nat>, after: seq<nat>, pos: int)
    requires v < Count(cs, len) && before == Counter(cs, len, v) && |after| == len
    requires -1 <= pos < len
    requires forall k :: pos < k < len ==> after[k] == 0 && before[k] + 1 >= |cs|
    requires pos >= 0 ==> after[pos] == before[pos] + 1 < |cs| && after[..pos] == before[..pos]
    ensures pos < 0 ==> v + 1 == Count(cs, len)
    ensures pos >= 0 ==> v + 1 < Count(cs, len) && after == Counter(cs, len, v + 1)
  {
    if |cs| > 0 {
      ValueOfDigitsOf(v, |cs|, len);
      if pos < 0 {
        WrapValue(before, |cs|);
      } else {
        StepValue(before, after, |cs|, pos);
        ValueBound(after, |cs|);
        DigitsOfValue(after, |cs|);
      }
    }
  }

  /** The odometer run for one length: the combinations it emits, in order. */
  method EmitLength(charset: string, len: nat) returns (out: seq<string>)
    ensures out == Enum(charset, len)
  {
    out := [];
    var indices := new nat[len](_ => 0);
    ghost var v: nat := 0;
    assert indices[..] == Counter(charset, len, 0) by {
      if |charset| > 0 {
        ValueZeros(len, |charset|);
        DigitsOfValue(Zeros(len), |charset|);
      }
    }
    while true
      invariant v < Count(charset, len) && indices.Length == len
      invariant indices[..] == Counter(charset, len, v)
      invariant out == Enum(charset, len)[..v]
      decreases Count(charset, len) - v
    {
      var combination := Spell(charset, indices[..]);
      out := out + [combination];
      assert out == Enum(charset, len)[..v + 1];
      ghost var before := indices[..];
      var pos := Increment(indices, |charset|);
      NextCounter(charset, len, v, before, indices[..], pos);
      if pos < 0 {
        assert Enum(charset, len)[..v + 1] == Enum(charset, len);
        return;
      }
      v := v + 1;
    }
  }

  /** One more length: appending its odometer run extends the emitted list
      from the combinations up to len - 1 to those up to len. */
  lemma CombinationsNext(cs: string, len: nat, emitted: seq<string>, combinations: seq<string>)
    requires len >= 1 && emitted == [""] + Combinations(cs, len - 1) && combinations == Enum(cs, len)
    ensures emitted + combinations == [""] + Combinations(cs, len)
  {
    var shorter := Combinations(cs, len - 1);
    AppendAssoc([""], shorter, combinations);
  }

  lemma AppendAssoc<T>(a: seq<T>, b: seq<T>, c: seq<T>)
    ensures (a + b) + c == a + (b + c)
  {
  }

  /** iterateCombinations(charset, maxLen, callback): the strings passed to
      the callback, in order: "" first, then for each length 1..maxLen every
      combination of that length as the odometer counts. */
  method IterateCombinations(charset: string, maxLen: int) returns (emitted: seq<string>)
    ensures emitted == [""] + Combinations(charset, maxLen)
  {
    emitted := [""];
    var len := 1;
    while len <= maxLen
      invariant len == 1 || 1 < len <= maxLen + 1
      invariant emitted == [""] + Combinations(charset, len - 1)
    {
      var combinations := EmitLength(charset, len);
      CombinationsNext(charset, len, emitted, combinations);
      emitted := emitted + combinations;
      len := len + 1;
    }
    if maxLen < 1 {
      assert Combinations(charset, maxLen) == [];
    }
  }

  // ------------------------------------------------------------ the table

  /** The words the prefix query returns: those starting with prefix. */
  function WithPrefix(dict: seq<string>, prefix: string): seq<string> {
    if dict == [] then []
    else WithPrefix(dict[..|dict| - 1], prefix) + (if prefix <= dict[|dict| - 1] then [dict[|dict| - 1]] else [])
  }

  /** words.filter(word => word.length <= maxLength). */
  function Fitting(words: seq<string>, maxLength: int): seq<string> {
    if words == [] then []
    else Fitting(words[..|words| - 1], maxLength) + (if |words[|words| - 1]| <= maxLength then [words[|words| - 1]] else [])
  }

  lemma {:induction false} WithPrefixMeaning(dict: seq<string>, prefix: string)
    ensures forall w :: w in WithPrefix(dict, prefix) <==> w in dict && prefix <= w
  {
    if dict != [] {
      WithPrefixMeaning(dict[..|dict| - 1], prefix);
      assert dict == dict[..|dict| - 1] + [dict[|dict| - 1]];
    }
  }

  lemma {:induction false} FittingMeaning(words: seq<string>, maxLength: int)
    ensures forall w :: w in Fitting(words, maxLength) <==> w in words && |w| <= maxLength
  {
    if words != [] {
      FittingMeaning(words[..|words| - 1], maxLength);
      assert words == words[..|words| - 1] + [words[|words| - 1]];
    }
  }

  /** The charset the driver computes for prefix and remaining space i. */
  function Entry(dict: seq<string>, prefix: string, i: int): string {
    GenerateCharSet(Fitting(WithPrefix(dict, prefix), |prefix| + i), prefix)
  }

  /** The driver stores a row for (prefix, i) exactly when i is a remaining
      space for the prefix and the charset is non-empty. */
  predicate Stored(dict: seq<string>, prefix: string, i: int) {
    0 <= i <= MAX_WORD_LENGTH - |prefix| && Entry(dict, prefix, i) != []
  }

  /** The rows (prefix, i) := entry(i) for lo < i <= hi with a non-empty entry. */
  function RowsOf(prefix: string, entry: int -> string, lo: int, hi: int): map<(string, int), string>
    decreases hi - lo
  {
    if lo >= hi then map[]
    else
      var above := RowsOf(prefix, entry, lo + 1, hi);
      if entry(lo + 1) != [] then above[(prefix, lo + 1) := entry(lo + 1)] else above
  }

  /** The row for key is present exactly for the prefix, a remaining space
      in (lo, hi] and a non-empty entry, and then holds that entry. */
  lemma {:induction false} RowsOfAt(prefix: string, entry: int -> string, lo: int, hi: int, key: (string, int))
    ensures key in RowsOf(prefix, entry, lo, hi) <==> key.0 == prefix && lo < key.1 <= hi && entry(key.1) != []
    ensures key in RowsOf(prefix, entry, lo, hi) ==> RowsOf(prefix, entry, lo, hi)[key] == entry(key.1)
    decreases hi - lo
  {
    if lo < hi {
      RowsOfAt(prefix, entry, lo + 1, hi, key);
    }
  }

  /** Empty entries at and below i add no row. */
  lemma {:induction false} RowsOfSkip(prefix: string, entry: int -> string, lo: int, i: int, hi: int)
    requires lo <= i && forall j :: lo < j <= i ==> entry(j) == []
    ensures RowsOf(prefix, entry, i, hi) == RowsOf(prefix, entry, lo, hi)
    decreases i - lo
  {
    if lo < i {
      RowsOfSkip(prefix, entry, lo, i - 1, hi);
    }
  }

  function EntryFn(dict: seq<string>, prefix: string): int -> string {
    i => Entry(dict, prefix, i)
  }

  /** The rows the driver writes for prefix with remaining space above lo. */
  function Rows(dict: seq<string>, prefix: string, lo: int): map<(string, int), string> {
    RowsOf(prefix, EntryFn(dict, prefix), lo, MAX_WORD_LENGTH - |prefix|)
  }

  /** Rows holds the row (prefix, i) for each stored i above lo, and no other. */
  lemma RowsMeaning(dict: seq<string>, prefix: string, lo: int)
    requires lo >= -1
    ensures forall key :: key in Rows(dict, prefix, lo) <==> key.0 == prefix && lo < key.1 && Stored(dict, prefix, key.1)
    ensures forall key :: key in Rows(dict, prefix, lo) ==> Rows(dict, prefix, lo)[key] == Entry(dict, prefix, key.1)
  {
    var entry := EntryFn(dict, prefix);
    var hi := MAX_WORD_LENGTH - |prefix|;
    var rows := Rows(dict, prefix, lo);
    assert rows == RowsOf(prefix, entry, lo, hi);
    forall key: (string, int) | key in rows
      ensures key.0 == prefix && lo < key.1 && Stored(dict, prefix, key.1) && rows[key] == Entry(dict, prefix, key.1)
    {
      RowsOfAt(prefix, entry, lo, hi, key);
      assert entry(key.1) == Entry(dict, prefix, key.1);
    }
    forall key: (string, int) | key.0 == prefix && lo < key.1 && Stored(dict, prefix, key.1)
      ensures key in rows
    {
      RowsOfAt(prefix, entry, lo, hi, key);
      assert entry(key.1) == Entry(dict, prefix, key.1);
    }
  }

  /** The rows the driver writes for each prefix in turn. */
  function AllRows(dict: seq<string>, prefixes: seq<string>): (m: map<(string, int), string>)
  {
    if prefixes == [] then map[]
    else AllRows(dict, prefixes[..|prefixes| - 1]) + Rows(dict, prefixes[|prefixes| - 1], -1)
  }

  /** The built table holds a row exactly for each emitted prefix and each
      remaining space with a non-empty charset, and that row is its charset. */
  lemma {:induction false} AllRowsMeaning(dict: seq<string>, prefixes: seq<string>)
    ensures forall key :: key in AllRows(dict, prefixes) <==> key.0 in prefixes && Stored(dict, key.0, key.1)
    ensures forall key :: key in AllRows(dict, prefixes) ==> AllRows(dict, prefixes)[key] == Entry(dict, key.0, key.1)
  {
    if prefixes != [] {
      var pre := prefixes[..|prefixes| - 1];
      AllRowsMeaning(dict, pre);
      RowsMeaning(dict, prefixes[|prefixes| - 1], -1);
      assert forall p :: p in prefixes <==> p in pre || p == prefixes[|prefixes| - 1];
    }
  }

  /** A smaller length bound keeps a subset of the words. */
  lemma FittingShrinks(words: seq<string>, lower: int, upper: int)
    requires lower <= upper
    ensures forall w :: w in Fitting(words, lower) ==> w in Fitting(words, upper)
  {
    FittingMeaning(words, lower);
    FittingMeaning(words, upper);
  }

  /** An empty charset for remaining space i stays empty for every smaller one. */
  lemma EntryEmptyBelow(dict: seq<string>, prefix: string, i: int, j: int)
    requires j <= i && Entry(dict, prefix, i) == []
    ensures Entry(dict, prefix, j) == []
  {
    var words := WithPrefix(dict, prefix);
    FittingShrinks(words, |prefix| + j, |prefix| + i);
    EmptyStaysEmpty(Fitting(words, |prefix| + i), Fitting(words, |prefix| + j), prefix);
  }

  /** Remaining spaces are tried largest first; once one gives an empty
      charset every smaller one does too, so stopping there skips no row. */
  lemma StopLosesNothing(dict: seq<string>, prefix: string, i: int)
    requires 0 <= i && Entry(dict, prefix, i) == []
    ensures Rows(dict, prefix, i) == Rows(dict, prefix, -1)
  {
    forall j | -1 < j <= i ensures EntryFn(dict, prefix)(j) == [] {
      EntryEmptyBelow(dict, prefix, i, j);
    }
    RowsOfSkip(prefix, EntryFn(dict, prefix), -1, i, MAX_WORD_LENGTH - |prefix|);
  }

  /** Writing one row into a union writes it into the right operand. */
  lemma UnionUpdate(a: map<(string, int), string>, b: map<(string, int), string>, k: (string, int), v: string)
    ensures (a + b)[k := v] == a + b[k := v]
  {
  }

  lemma UnionAssoc(a: map<(string, int), string>, b: map<(string, int), string>, c: map<(string, int), string>)
    ensures (a + b) + c == a + (b + c)
  {
  }

  class Bank {
    /** The charsets table: (prefix, remaining-space) to charset. */
    var table: map<(string, int), string>

    constructor ()
      ensures table == map[]
    {
      table := map[];
    }

    /** insertCharSet: insert, or on a clash of (prefix, remaining-space)
        replace the charset; no other row changes. */
    method InsertCharSet(prefix: string, charSet: string, remainingSpace: int)
      modifies this
      ensures table == old(table)[(prefix, remainingSpace) := charSet]
    {
      table := table[(prefix, remainingSpace) := charSet];
    }

    /** The driver's callback for one combination: for each remaining space
        from MAX_WORD_LENGTH - |combination| down to 0, the charset of the
        prefix's fitting words is stored, until the first empty one. The
        table gains exactly the combination's Rows. */
    method FillPrefix(dict: seq<string>, combination: string)
      modifies this
      ensures table == old(table) + Rows(dict, combination, -1)
    {
      var words := WithPrefix(dict, combination);
      var remainingSpace := MAX_WORD_LENGTH - |combination|;
      var i := remainingSpace;
      while i >= 0
        invariant i <= remainingSpace && (-1 <= i || i == remainingSpace)
        invariant table == old(table) + Rows(dict, combination, i)
      {
        var filteredWords := Fitting(words, |combination| + i);
        var charSet := GenerateCharSet(filteredWords, combination);
        if |charSet| == 0 {
          StopLosesNothing(dict, combination, i);
          return;
        }
        InsertCharSet(combination, charSet, i);
        UnionUpdate(old(table), Rows(dict, combination, i), (combination, i), charSet);
        assert EntryFn(dict, combination)(i) == charSet;
        i := i - 1;
      }
      if i < -1 {
        assert Rows(dict, combination, i) == map[] == Rows(dict, combination, -1);
      }
    }

    /** The builder: the callback runs on every combination of up to
        MAX_WORD_LENGTH - 1 letters of CHARSET, "" first, and the table gains
        their rows. */
    method Build(dict: seq<string>) returns (prefixes: seq<string>)
      modifies this
      ensures prefixes == [""] + Combinations(CHARSET, MAX_WORD_LENGTH - 1)
      ensures table == old(table) + AllRows(dict, prefixes)
    {
      prefixes := IterateCombinations(CHARSET, MAX_WORD_LENGTH - 1);
      var k := 0;
      while k < |prefixes|
        invariant k <= |prefixes|
        invariant table == old(table) + AllRows(dict, prefixes[..k])
      {
        FillPrefix(dict, prefixes[k]);
        UnionAssoc(old(table), AllRows(dict, prefixes[..k]), Rows(dict, prefixes[k], -1));
        assert prefixes[..k + 1][..k] == prefixes[..k];
        k := k + 1;
      }
      assert prefixes[..k] == prefixes;
    }
  }
}
