/** Letters and words (src/word.rs): the 26-letter alphabet, parsing a word
    from lower-case ASCII bytes, printing it, and the letter iterator. */
module Words {
  import opened Prelude

  /** An unsigned 8-bit value (Rust `u8`). */
  type Byte = b: int | 0 <= b < 256

  /** A letter, identified with its discriminant: A = 0, B = 1, ..., Z = 25.
      The derived ordering of `Letter` is the order of these numbers. */
  type Letter = i: int | 0 <= i < 26

  /** A word is its letters in reading order. */
  type Word = seq<Letter>

  /** A dictionary identifier: the zero-based position of a word in the dictionary. */
  type Id = nat

  /** The byte value of ASCII `a` (`Word::UTF_A`). */
  const UtfA: Byte := 97

  /** `Letter::from`: the letter with discriminant `i`, or `None` past `Z`. */
  function LetterFrom(i: Byte): (r: Option<Letter>)
    ensures r.Some? <==> i <= 25
    ensures r.Some? ==> r.value == i
  {
    if i < 26 then Some(i as Letter) else None
  }

  // ---------------------------------------------------------------------
  // Parsing (`Word::from_str`)
  // ---------------------------------------------------------------------

  /** Why parsing aborts. Both kinds stop the program at the first offending
      byte, so no partial word is ever produced. */
  datatype ParseFault =
    | Underflow(at: nat)     // a byte below `a`: `x - UTF_A` underflows `u8`
    | FaultyLetter(at: nat)  // a byte above `z`: `Letter::from` gives `None`

  predicate IsLowerAscii(b: Byte) {
    UtfA <= b <= UtfA + 25
  }

  /** Parses `s[k..]`; fault positions are indices into `s`. */
  function ParseFrom(s: seq<Byte>, k: nat): (r: Result<Word, ParseFault>)
    requires k <= |s|
    decreases |s| - k
    ensures r.Ok? <==> forall i :: k <= i < |s| ==> IsLowerAscii(s[i])
    ensures r.Ok? ==> |r.value| == |s| - k
    ensures r.Ok? ==> forall i :: 0 <= i < |r.value| ==> r.value[i] == s[k + i] - UtfA
    ensures r.Err? ==>
              && k <= r.error.at < |s|
              && !IsLowerAscii(s[r.error.at])
              && (forall i :: k <= i < r.error.at ==> IsLowerAscii(s[i]))
              && (r.error.Underflow? <==> s[r.error.at] < UtfA)
  {
    if k == |s| then Ok([])
    else if s[k] < UtfA then Err(Underflow(k))
    else
      match LetterFrom(s[k] - UtfA)
      case None => Err(FaultyLetter(k))
      case Some(l) =>
        match ParseFrom(s, k + 1)
        case Ok(rest) => Ok([l] + rest)
        case Err(f) => Err(f)
  }

  /** `Word::from_str` on the bytes of a line. */
  function Parse(s: seq<Byte>): (r: Result<Word, ParseFault>)
    ensures r.Ok? <==> forall i :: 0 <= i < |s| ==> IsLowerAscii(s[i])
    ensures r.Ok? ==> |r.value| == |s| && forall i :: 0 <= i < |s| ==> r.value[i] == s[i] - UtfA
    ensures r.Err? ==> r.error.at < |s| && !IsLowerAscii(s[r.error.at]) && forall i :: 0 <= i < r.error.at ==> IsLowerAscii(s[i])
  {
    ParseFrom(s, 0)
  }

  // ---------------------------------------------------------------------
  // Printing (`Display for Word`)
  // ---------------------------------------------------------------------

  /** What `{:?}` prints for a letter: the name of its variant, `A` to `Z`. */
  function LetterName(l: Letter): char {
    ('A' as int + l) as char
  }

  /** `Display for Word`: one upper-case letter name per letter, in order. */
  function Display(w: Word): (r: string)
    ensures |r| == |w|
    ensures forall i :: 0 <= i < |w| ==> r[i] == LetterName(w[i])
  {
    if w == [] then "" else [LetterName(w[0])] + Display(w[1..])
  }

  /** Lower-casing of one character as far as ASCII letters are concerned. */
  function ToLower(c: char): char {
    if 'A' <= c <= 'Z' then (c as int + 32) as char else c
  }

  function LowerCase(s: string): (r: string)
    ensures |r| == |s|
    ensures forall i :: 0 <= i < |s| ==> r[i] == ToLower(s[i])
  {
    if s == [] then "" else [ToLower(s[0])] + LowerCase(s[1..])
  }

  /** The UTF-8 bytes of an all-ASCII string (`str::bytes`). */
  function AsciiBytes(s: string): (r: seq<Byte>)
    requires forall i :: 0 <= i < |s| ==> s[i] as int < 128
    ensures |r| == |s|
    ensures forall i :: 0 <= i < |s| ==> r[i] == s[i] as int
  {
    if s == [] then [] else [s[0] as int as Byte] + AsciiBytes(s[1..])
  }

  /** Reading back the lower-cased display text of a word gives the word. */
  lemma DisplayParseRoundTrip(w: Word)
    ensures var text := LowerCase(Display(w));
            (forall i :: 0 <= i < |text| ==> text[i] as int < 128)
            && Parse(AsciiBytes(text)) == Ok(w)
  {
    var text := LowerCase(Display(w));
    forall i | 0 <= i < |text|
      ensures text[i] as int == UtfA + w[i]
    {
      assert Display(w)[i] == LetterName(w[i]);
    }
    var r := Parse(AsciiBytes(text));
    assert r.Ok?;
    assert r.value == w;
  }

  // ---------------------------------------------------------------------
  // The letter iterator (`Letter::iter`, `LetterIter::next`)
  // ---------------------------------------------------------------------

  /** `LetterIter`: the discriminant the next call tries. */
  datatype LetterIter = LetterIter(cur: Byte)

  /** `Letter::iter`. */
  function Iter(): LetterIter {
    LetterIter(0)
  }

  /** `self.cur += 1` past 255 overflows `u8` and aborts. */
  datatype IterFault = Overflow

  /** `LetterIter::next`: the item for the current discriminant, and the
      advanced iterator. */
  function Next(it: LetterIter): (r: Result<(Option<Letter>, LetterIter), IterFault>)
  {
    if it.cur == 255 then Err(Overflow)
    else Ok((LetterFrom(it.cur), LetterIter(it.cur + 1)))
  }

  /** The items of `n` successive calls of `next`. */
  function Take(it: LetterIter, n: nat): Result<seq<Option<Letter>>, IterFault>
    decreases n
  {
    if n == 0 then Ok([])
    else
      match Next(it)
      case Err(f) => Err(f)
      case Ok((x, rest)) =>
        match Take(rest, n - 1)
        case Ok(xs) => Ok([x] + xs)
        case Err(f) => Err(f)
  }

  lemma {:induction false} TakeFrom(c: Byte, n: nat)
    requires c + n <= 255
    ensures Take(LetterIter(c), n).Ok?
    ensures |Take(LetterIter(c), n).value| == n
    ensures forall i :: 0 <= i < n ==> Take(LetterIter(c), n).value[i] == LetterFrom(c + i)
    decreases n
  {
    if n > 0 {
      TakeFrom(c + 1, n - 1);
      var xs := Take(LetterIter(c + 1), n - 1).value;
      assert Take(LetterIter(c), n) == Ok([LetterFrom(c)] + xs);
    }
  }

  /** The iterator yields `A` to `Z` in ascending order, exactly 26 letters,
      then only `None` until the counter overflows on the 256th call. */
  lemma LetterIterYieldsAlphabet()
    ensures var r := Take(Iter(), 255);
            && r.Ok?
            && |r.value| == 255
            && (forall i :: 0 <= i < 26 ==> r.value[i] == Some(i))
            && (forall i :: 26 <= i < 255 ==> r.value[i] == None)
    ensures Take(Iter(), 256).Err?
  {
    TakeFrom(0, 255);
    var r := Take(Iter(), 255);
    assert Take(LetterIter(255), 1).Err?;
    TakeAll(0, 255);
  }

  /** Running past the end of the counter aborts. */
  lemma {:induction false} TakeAll(c: Byte, n: nat)
    requires c + n == 255
    ensures Take(LetterIter(c), n + 1).Err?
    decreases n
  {
    if n > 0 {
      TakeAll(c + 1, n - 1);
    }
  }
}
