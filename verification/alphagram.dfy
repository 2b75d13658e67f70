/** Alphagrams (src/anagram.rs:190-213): a word's letters sorted ascending,
    and the difference of two alphagrams. */
module Alphagram {
  import opened Words

  /** Letters in ascending (non-decreasing) order. */
  predicate Sorted(s: Word) {
    forall i, j :: 0 <= i < j < |s| ==> s[i] <= s[j]
  }

  lemma SortedTail(s: Word)
    requires Sorted(s) && s != []
    ensures Sorted(s[1..])
    ensures forall x :: x in multiset(s[1..]) ==> s[0] <= x
  {
  }

  /** Places `x` into a sorted word. */
  function InsertSorted(x: Letter, s: Word): (r: Word)
    requires Sorted(s)
    ensures Sorted(r)
    ensures multiset(r) == multiset(s) + multiset{x}
  {
    if s == [] || x <= s[0] then [x] + s
    else
      var rest := InsertSorted(x, s[1..]);
      KeepHead(x, s, rest);
      [s[0]] + rest
  }

  /** Putting back the head of `s` in front of `x` inserted into its tail. */
  lemma KeepHead(x: Letter, s: Word, rest: Word)
    requires Sorted(s) && s != [] && s[0] < x
    requires Sorted(rest) && multiset(rest) == multiset(s[1..]) + multiset{x}
    ensures Sorted([s[0]] + rest)
    ensures multiset([s[0]] + rest) == multiset(s) + multiset{x}
  {
    assert s == [s[0]] + s[1..];
    assert forall k :: 0 <= k < |rest| ==> rest[k] in multiset(rest);
  }

  /** `alphatize`: the word's letters in ascending order, its alphagram.
      (The source sorts in place; any sort yields this same word, see
      `SortedUnique`.) */
  function Alphatize(w: Word): (r: Word)
    ensures Sorted(r)
    ensures multiset(r) == multiset(w)
  {
    if w == [] then []
    else
      assert w == [w[0]] + w[1..];
      InsertSorted(w[0], Alphatize(w[1..]))
  }

  /** A sorted arrangement of a multiset of letters is unique. */
  lemma {:induction false} SortedUnique(a: Word, b: Word)
    requires Sorted(a) && Sorted(b) && multiset(a) == multiset(b)
    ensures a == b
    decreases |a|
  {
    assert |a| == |multiset(a)| == |multiset(b)| == |b|;
    if a != [] {
      assert a == [a[0]] + a[1..] && b == [b[0]] + b[1..];
      assert a[0] in multiset(b) && b[0] in multiset(a);
      SortedTail(a);
      SortedTail(b);
      assert a[0] == b[0];
      ConsBag(a);
      ConsBag(b);
      CancelHead(a[0], multiset(a[1..]), multiset(b[1..]));
      SortedUnique(a[1..], b[1..]);
    }
  }

  /** Alphatizing an alphagram changes nothing; in particular alphatizing
      twice is alphatizing once. */
  lemma AlphatizeSorted(s: Word)
    requires Sorted(s)
    ensures Alphatize(s) == s
  {
    SortedUnique(Alphatize(s), s);
  }

  lemma AlphatizeIdempotent(w: Word)
    ensures Alphatize(Alphatize(w)) == Alphatize(w)
  {
    AlphatizeSorted(Alphatize(w));
  }

  /** Two words share an alphagram exactly when they are anagrams. */
  lemma SameAlphagramIff(a: Word, b: Word)
    ensures Alphatize(a) == Alphatize(b) <==> multiset(a) == multiset(b)
  {
    if multiset(a) == multiset(b) {
      SortedUnique(Alphatize(a), Alphatize(b));
    }
  }

  /** `alpha_subtract`: walks `src`, dropping each letter equal to the next
      not-yet-matched letter of `sub` and keeping every other letter. */
  function Subtract(src: Word, sub: Word): Word
  {
    if src == [] then []
    else if sub != [] && src[0] == sub[0] then Subtract(src[1..], sub[1..])
    else [src[0]] + Subtract(src[1..], sub)
  }

  lemma ConsBag(s: Word)
    requires s != []
    ensures multiset(s) == multiset{s[0]} + multiset(s[1..])
  {
    assert s == [s[0]] + s[1..];
  }

  lemma CancelHead(x: Letter, m: multiset<Letter>, n: multiset<Letter>)
    ensures multiset{x} + m <= multiset{x} + n ==> m <= n
    ensures multiset{x} + m == multiset{x} + n ==> m == n
  {
    assert forall y :: (multiset{x} + m)[y] == multiset{x}[y] + m[y];
    assert forall y :: (multiset{x} + n)[y] == multiset{x}[y] + n[y];
  }

  /** When the heads differ, the head of `src` is not in `sub` at all. */
  lemma HeadOutsideSub(src: Word, sub: Word)
    requires Sorted(src) && Sorted(sub) && multiset(sub) <= multiset(src)
    requires src != [] && (sub == [] || src[0] != sub[0])
    ensures src[0] !in multiset(sub)
    ensures multiset(sub) <= multiset(src[1..])
  {
    ConsBag(src);
    if sub != [] {
      assert sub[0] in multiset(src);
      assert src[0] < sub[0];
      assert src[0] !in multiset(sub);
    }
  }

  lemma MinusCons(x: Letter, m: multiset<Letter>, n: multiset<Letter>)
    ensures (multiset{x} + m) - (multiset{x} + n) == m - n
    ensures x !in n ==> (multiset{x} + m) - n == multiset{x} + (m - n)
  {
    assert forall y :: ((multiset{x} + m) - (multiset{x} + n))[y] == (m - n)[y];
    if x !in n {
      assert forall y :: ((multiset{x} + m) - n)[y] == (multiset{x} + (m - n))[y];
    }
  }

  /** A letter no smaller than every letter of `s` can be put in front. */
  lemma SortedCons(x: Letter, s: Word, bound: multiset<Letter>)
    requires Sorted(s) && multiset(s) <= bound
    requires forall y :: y in bound ==> x <= y
    ensures Sorted([x] + s)
  {
    assert forall k :: 0 <= k < |s| ==> s[k] in multiset(s);
  }

  /** For alphagrams `sub` within `src`, `Subtract` is multiset difference and
      keeps the result an alphagram. */
  lemma {:induction false} SubtractSpec(src: Word, sub: Word)
    requires Sorted(src) && Sorted(sub) && multiset(sub) <= multiset(src)
    ensures Sorted(Subtract(src, sub))
    ensures multiset(Subtract(src, sub)) == multiset(src) - multiset(sub)
    ensures |Subtract(src, sub)| == |src| - |sub|
    decreases |src|, 1
  {
    if src == [] {
      assert |sub| == |multiset(sub)| == 0;
    } else if sub != [] && src[0] == sub[0] {
      SubtractDrop(src, sub);
    } else {
      SubtractKeep(src, sub);
    }
  }

  lemma {:induction false} SubtractDrop(src: Word, sub: Word)
    requires Sorted(src) && Sorted(sub) && multiset(sub) <= multiset(src)
    requires src != [] && sub != [] && src[0] == sub[0]
    ensures Sorted(Subtract(src, sub))
    ensures multiset(Subtract(src, sub)) == multiset(src) - multiset(sub)
    ensures |Subtract(src, sub)| == |src| - |sub|
    decreases |src|, 0
  {
    ConsBag(src);
    SortedTail(src);
    ConsBag(sub);
    SortedTail(sub);
    CancelHead(src[0], multiset(sub[1..]), multiset(src[1..]));
    SubtractSpec(src[1..], sub[1..]);
    MinusCons(src[0], multiset(src[1..]), multiset(sub[1..]));
  }

  lemma {:induction false} SubtractKeep(src: Word, sub: Word)
    requires Sorted(src) && Sorted(sub) && multiset(sub) <= multiset(src)
    requires src != [] && (sub == [] || src[0] != sub[0])
    ensures Sorted(Subtract(src, sub))
    ensures multiset(Subtract(src, sub)) == multiset(src) - multiset(sub)
    ensures |Subtract(src, sub)| == |src| - |sub|
    decreases |src|, 0
  {
    ConsBag(src);
    SortedTail(src);
    HeadOutsideSub(src, sub);
    SubtractSpec(src[1..], sub);
    var rest := Subtract(src[1..], sub);
    assert Subtract(src, sub) == [src[0]] + rest;
    SortedCons(src[0], rest, multiset(src[1..]));
    MinusCons(src[0], multiset(src[1..]), multiset(sub));
  }
}
