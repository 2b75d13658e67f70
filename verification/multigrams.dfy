/** `AnagramR::multigrams` (src/anagram.rs:143-187): the lists of the first
    phase expanded into products of word ids, and what those products are in
    terms of the dictionary. */
module Multigrams {
  import opened Prelude
  import opened Words
  import opened Alphagram
  import opened Tries
  import opened TrieWalk
  import opened Engine
  import opened ListSearch
  import opened Products
  import WordOrder

  // ---------------------------------------------------------------------
  // Both phases together
  // ---------------------------------------------------------------------

  /** Every alphagram of every recorded list has an entry in the map, so
      the second phase's `unwrap` never fails. */
  lemma ListsExpandable(e: AnagramR, dict: seq<Word>, limit: Option<nat>, rule: SkipRule, word: Word)
    requires Inv(e, dict)
    ensures Expandable(e.alphaToWords, AlphaLists(e, limit, rule, word))
  {
    var lists := AlphaLists(e, limit, rule, word);
    AlphaListsSound(e, limit, rule, word);
    forall i | 0 <= i < |lists|
      ensures lists[i] != [] && Indexed(e.alphaToWords, lists[i])
    {
      assert Covers(e.alphaTrie, limit, multiset(word), lists[i]);
      forall a | a in lists[i]
        ensures a in e.alphaToWords
      {
        var k :| 0 <= k < |lists[i]| && lists[i][k] == a;
        assert Usable(e.alphaTrie, lists[i][k]);
      }
    }
  }

  /** What `multigrams` returns for `word`, under either skip rule. */
  function AllMultigrams(e: AnagramR, ghost dict: seq<Word>, word: Word, limit: Option<nat>, rule: SkipRule): seq<seq<Id>>
    requires Inv(e, dict)
  {
    ListsExpandable(e, dict, limit, rule, word);
    ExpandAll(e.alphaToWords, AlphaLists(e, limit, rule, word))
  }

  // ---------------------------------------------------------------------
  // Products in terms of the dictionary
  // ---------------------------------------------------------------------

  /** Every id of `p` is a position in the dictionary. */
  ghost predicate InRange(dict: seq<Word>, p: seq<Id>) {
    forall j :: 0 <= j < |p| ==> p[j] < |dict|
  }

  /** The list of alphagrams `p` was built from: the alphagrams of its
      words, last word first. */
  ghost function AlphasOf(dict: seq<Word>, p: seq<Id>): seq<Word>
    requires InRange(dict, p)
  {
    seq(|p|, i requires 0 <= i < |p| => Alphatize(dict[p[|p| - 1 - i]]))
  }

  lemma AlphasOfAt(dict: seq<Word>, p: seq<Id>, i: nat)
    requires InRange(dict, p) && i < |p|
    ensures AlphasOf(dict, p)[i] == Alphatize(dict[p[|p| - 1 - i]])
  {
  }

  /** All the letters of the words `p` names. */
  ghost function Letters(dict: seq<Word>, p: seq<Id>): multiset<Letter>
    requires InRange(dict, p)
    decreases |p|
  {
    if p == [] then multiset{} else multiset(dict[p[0]]) + Letters(dict, p[1..])
  }

  /** The alphagrams of the words of `p` never go down. */
  ghost predicate Ascending(dict: seq<Word>, p: seq<Id>)
    requires InRange(dict, p)
  {
    forall j :: 0 < j < |p| ==> WordOrder.Le(Alphatize(dict[p[j - 1]]), Alphatize(dict[p[j]]))
  }

  /** A multigram of `word`: one or more non-empty dictionary words whose
      letters together are exactly the word's, no more words than the limit
      lets a list grow to. */
  ghost predicate Multigram(dict: seq<Word>, limit: Option<nat>, word: Word, p: seq<Id>) {
    && p != [] && InRange(dict, p)
    && (forall j :: 0 <= j < |p| ==> dict[p[j]] != [])
    && Letters(dict, p) == multiset(word)
    && (|p| == 1 || UnderLimit(limit, |p| - 1))
  }

  /** A product chooses for a list exactly when the list is the product's
      alphagrams, last word first. */
  lemma PicksIff(e: AnagramR, dict: seq<Word>, l: seq<Word>, p: seq<Id>)
    requires Inv(e, dict) && Indexed(e.alphaToWords, l)
    ensures Picks(e.alphaToWords, l, p) <==> InRange(dict, p) && AlphasOf(dict, p) == l
  {
    if Picks(e.alphaToWords, l, p) {
      PicksAlphas(e, dict, l, p);
    }
    if InRange(dict, p) && AlphasOf(dict, p) == l {
      AlphasPicks(e, dict, l, p);
    }
  }

  /** An id is among an alphagram's ids exactly when it names a word with
      that alphagram. */
  lemma IdIn(e: AnagramR, dict: seq<Word>, a: Word, id: Id)
    requires Inv(e, dict) && a in e.alphaToWords
    ensures id in e.alphaToWords[a] <==> id < |dict| && Alphatize(dict[id]) == a
  {
    IdsOfSpec(dict, a);
  }

  lemma PicksAlphas(e: AnagramR, dict: seq<Word>, l: seq<Word>, p: seq<Id>)
    requires Inv(e, dict) && Indexed(e.alphaToWords, l) && Picks(e.alphaToWords, l, p)
    ensures InRange(dict, p) && AlphasOf(dict, p) == l
  {
    forall j | 0 <= j < |p|
      ensures p[j] < |dict|
    {
      IdIn(e, dict, l[|l| - 1 - j], p[j]);
    }
    forall i | 0 <= i < |l|
      ensures Alphatize(dict[p[|p| - 1 - i]]) == l[i]
    {
      PickedAt(e, dict, l, p, i);
    }
    ReversedAlphas(dict, l, p);
  }

  /** The id chosen for alphagram `i` names a word with that alphagram. */
  lemma PickedAt(e: AnagramR, dict: seq<Word>, l: seq<Word>, p: seq<Id>, i: nat)
    requires Inv(e, dict) && Indexed(e.alphaToWords, l) && Picks(e.alphaToWords, l, p)
    requires i < |l|
    ensures p[|p| - 1 - i] < |dict| && Alphatize(dict[p[|p| - 1 - i]]) == l[i]
  {
    var j := |p| - 1 - i;
    assert |l| - 1 - j == i;
    IdIn(e, dict, l[i], p[j]);
  }

  /** Ids whose words have the alphagrams of `l`, last first, have `l` as
      their alphagram list. */
  lemma ReversedAlphas(dict: seq<Word>, l: seq<Word>, p: seq<Id>)
    requires |p| == |l| && InRange(dict, p)
    requires forall i :: 0 <= i < |l| ==> Alphatize(dict[p[|p| - 1 - i]]) == l[i]
    ensures AlphasOf(dict, p) == l
  {
    var r := AlphasOf(dict, p);
    forall i | 0 <= i < |l|
      ensures r[i] == l[i]
    {
      AlphasOfAt(dict, p, i);
    }
  }

  lemma AlphasPicks(e: AnagramR, dict: seq<Word>, l: seq<Word>, p: seq<Id>)
    requires Inv(e, dict) && Indexed(e.alphaToWords, l)
    requires InRange(dict, p) && AlphasOf(dict, p) == l
    ensures Picks(e.alphaToWords, l, p)
  {
    forall j | 0 <= j < |p|
      ensures p[j] in e.alphaToWords[l[|l| - 1 - j]]
    {
      AlphaPicked(e, dict, l, p, j);
    }
  }

  /** The id at position `j` is among the ids of its alphagram. */
  lemma AlphaPicked(e: AnagramR, dict: seq<Word>, l: seq<Word>, p: seq<Id>, j: nat)
    requires Inv(e, dict) && Indexed(e.alphaToWords, l)
    requires InRange(dict, p) && AlphasOf(dict, p) == l && j < |p|
    ensures p[j] in e.alphaToWords[l[|l| - 1 - j]]
  {
    var i := |p| - 1 - j;
    AlphasOfAt(dict, p, i);
    assert |p| - 1 - i == j;
    IdIn(e, dict, l[i], p[j]);
  }

  /** The products returned are exactly the id sequences whose alphagram
      list, last word first, the first phase records. */
  lemma AllMultigramsMembers(e: AnagramR, dict: seq<Word>, word: Word, limit: Option<nat>, rule: SkipRule, p: seq<Id>)
    requires Inv(e, dict)
    ensures p in AllMultigrams(e, dict, word, limit, rule) <==>
              InRange(dict, p) && AlphasOf(dict, p) in AlphaLists(e, limit, rule, word)
  {
    var lists := AlphaLists(e, limit, rule, word);
    ListsExpandable(e, dict, limit, rule, word);
    ExpandAllMembers(e.alphaToWords, lists, p);
    if PicksSome(e.alphaToWords, lists, p) {
      var i :| 0 <= i < |lists| && Picks(e.alphaToWords, lists[i], p);
      PicksIff(e, dict, lists[i], p);
    }
    if InRange(dict, p) && AlphasOf(dict, p) in lists {
      var i :| 0 <= i < |lists| && lists[i] == AlphasOf(dict, p);
      PicksIff(e, dict, lists[i], p);
    }
  }

  /** The letters of a product's alphagram list are the letters of its words. */
  lemma {:induction false} BagAlphas(dict: seq<Word>, p: seq<Id>)
    requires InRange(dict, p)
    ensures Bag(AlphasOf(dict, p)) == Letters(dict, p)
    decreases |p|
  {
    if p != [] {
      AlphasOfTail(dict, p);
      BagAlphas(dict, p[1..]);
      BagSnoc(AlphasOf(dict, p[1..]), Alphatize(dict[p[0]]));
    }
  }

  /** The first word's alphagram ends the list. */
  lemma AlphasOfTail(dict: seq<Word>, p: seq<Id>)
    requires InRange(dict, p) && p != []
    ensures InRange(dict, p[1..])
    ensures AlphasOf(dict, p) == AlphasOf(dict, p[1..]) + [Alphatize(dict[p[0]])]
  {
    var n := |p|;
    assert InRange(dict, p[1..]);
    var front := AlphasOf(dict, p[1..]);
    forall i | 0 <= i < n - 1
      ensures AlphasOf(dict, p)[i] == front[i]
    {
      assert p[1..][n - 2 - i] == p[n - 1 - i];
    }
  }

  /** A product's alphagram list descends exactly when its words' alphagrams
      ascend. */
  lemma DescendingAlphas(dict: seq<Word>, p: seq<Id>)
    requires InRange(dict, p)
    ensures Descending(AlphasOf(dict, p)) <==> Ascending(dict, p)
  {
    var n := |p|;
    var list := AlphasOf(dict, p);
    if Descending(list) {
      forall j | 0 < j < n
        ensures WordOrder.Le(Alphatize(dict[p[j - 1]]), Alphatize(dict[p[j]]))
      {
        assert WordOrder.Le(list[n - j], list[n - j - 1]);
      }
    }
    if Ascending(dict, p) {
      forall i | 0 < i < n
        ensures WordOrder.Le(list[i], list[i - 1])
      {
        assert WordOrder.Le(Alphatize(dict[p[n - i - 1]]), Alphatize(dict[p[n - i]]));
      }
    }
  }

  /** The alphagram list of a product covers the word exactly when the
      product is a multigram. */
  lemma CoversIff(e: AnagramR, dict: seq<Word>, limit: Option<nat>, word: Word, p: seq<Id>)
    requires Inv(e, dict) && InRange(dict, p)
    ensures Covers(e.alphaTrie, limit, multiset(word), AlphasOf(dict, p)) <==> Multigram(dict, limit, word, p)
  {
    BagAlphas(dict, p);
    AllUsableIff(e, dict, p);
  }

  /** Every alphagram of a product's list can stand in a list exactly when
      every word of the product is non-empty. */
  lemma AllUsableIff(e: AnagramR, dict: seq<Word>, p: seq<Id>)
    requires Inv(e, dict) && InRange(dict, p)
    ensures (forall i :: 0 <= i < |p| ==> Usable(e.alphaTrie, AlphasOf(dict, p)[i])) <==>
            (forall j :: 0 <= j < |p| ==> dict[p[j]] != [])
  {
    var n := |p|;
    var list := AlphasOf(dict, p);
    if forall j :: 0 <= j < n ==> dict[p[j]] != [] {
      forall i | 0 <= i < n
        ensures Usable(e.alphaTrie, list[i])
      {
        UsableAt(e, dict, p, i);
      }
    }
    if forall i :: 0 <= i < n ==> Usable(e.alphaTrie, list[i]) {
      forall j | 0 <= j < n
        ensures dict[p[j]] != []
      {
        UsableAt(e, dict, p, n - 1 - j);
        assert n - 1 - (n - 1 - j) == j;
      }
    }
  }

  lemma UsableAt(e: AnagramR, dict: seq<Word>, p: seq<Id>, i: nat)
    requires Inv(e, dict) && InRange(dict, p) && i < |p|
    ensures Usable(e.alphaTrie, AlphasOf(dict, p)[i]) <==> dict[p[|p| - 1 - i]] != []
  {
    AlphasOfAt(dict, p, i);
    UsableIff(e, dict, p[|p| - 1 - i]);
  }

  /** The alphagram of a dictionary word can stand in a list exactly when
      the word is not empty. */
  lemma UsableIff(e: AnagramR, dict: seq<Word>, id: Id)
    requires Inv(e, dict) && id < |dict|
    ensures Usable(e.alphaTrie, Alphatize(dict[id])) <==> dict[id] != []
  {
    var a := Alphatize(dict[id]);
    assert a == [] <==> dict[id] == [] by {
      assert |a| == |multiset(a)| == |multiset(dict[id])| == |dict[id]|;
    }
    IdsOfSpec(dict, a);
    assert id in IdsOf(dict, a);
  }

  /** Every product returned is a multigram of the word; with the intended
      skip rule its words' alphagrams also ascend. */
  lemma MultigramsSound(e: AnagramR, dict: seq<Word>, word: Word, limit: Option<nat>, rule: SkipRule, p: seq<Id>)
    requires Inv(e, dict) && p in AllMultigrams(e, dict, word, limit, rule)
    ensures Multigram(dict, limit, word, p)
    ensures rule == Intended ==> Ascending(dict, p)
  {
    AllMultigramsMembers(e, dict, word, limit, rule, p);
    AlphaListsSound(e, limit, rule, word);
    CoversIff(e, dict, limit, word, p);
    DescendingAlphas(dict, p);
  }

  /** Under either skip rule every multigram of the word whose alphagrams
      ascend is returned. */
  lemma MultigramsComplete(e: AnagramR, dict: seq<Word>, word: Word, limit: Option<nat>, rule: SkipRule, p: seq<Id>)
    requires Inv(e, dict) && Multigram(dict, limit, word, p) && Ascending(dict, p)
    ensures p in AllMultigrams(e, dict, word, limit, rule)
  {
    CoversIff(e, dict, limit, word, p);
    DescendingAlphas(dict, p);
    AlphaListsComplete(e, limit, rule, word, AlphasOf(dict, p));
    AllMultigramsMembers(e, dict, word, limit, rule, p);
  }

  /** With the intended skip rule the products are exactly the multigrams
      of the word whose alphagrams ascend. */
  lemma IntendedMultigrams(e: AnagramR, dict: seq<Word>, word: Word, limit: Option<nat>, p: seq<Id>)
    requires Inv(e, dict)
    ensures p in AllMultigrams(e, dict, word, limit, Intended) <==>
              Multigram(dict, limit, word, p) && Ascending(dict, p)
  {
    if p in AllMultigrams(e, dict, word, limit, Intended) {
      MultigramsSound(e, dict, word, limit, Intended, p);
    }
    if Multigram(dict, limit, word, p) && Ascending(dict, p) {
      MultigramsComplete(e, dict, word, limit, Intended, p);
    }
  }

  /** The index lists each id once, and only under its own word's
      alphagram. */
  lemma IndexSeparated(e: AnagramR, dict: seq<Word>)
    requires Inv(e, dict)
    ensures DistinctIds(e.alphaToWords) && Separated(e.alphaToWords)
  {
    var m := e.alphaToWords;
    forall a | a in m ensures NoDup(m[a]) {
      IdsOfSpec(dict, a);
    }
    forall a, b, id | a in m && b in m && id in m[a] && id in m[b] ensures a == b {
      IdsOfSpec(dict, a);
      IdsOfSpec(dict, b);
    }
  }

  /** Under either skip rule every product comes out once: distinct lists
      and distinct id choices give distinct products. */
  lemma AllMultigramsNoDup(e: AnagramR, dict: seq<Word>, word: Word, limit: Option<nat>, rule: SkipRule)
    requires Inv(e, dict)
    ensures NoDup(AllMultigrams(e, dict, word, limit, rule))
  {
    ListsExpandable(e, dict, limit, rule, word);
    AlphaListsNoDup(e, limit, rule, word);
    IndexSeparated(e, dict);
    ExpandAllNoDup(e.alphaToWords, AlphaLists(e, limit, rule, word));
  }

  /** With a limit of one word (or `Some(0)`), the products are the exact
      anagrams of the word, one id each, leaving out an empty dictionary
      word (which can only be an exact anagram of the empty query). */
  lemma SingleWordLimit(e: AnagramR, dict: seq<Word>, word: Word, n: nat, rule: SkipRule, p: seq<Id>)
    requires Inv(e, dict) && n <= 1
    ensures p in AllMultigrams(e, dict, word, Some(n), rule) <==>
              |p| == 1 && p[0] in ExactAnagrams(e, dict, word) && dict[p[0]] != []
  {
    if p in AllMultigrams(e, dict, word, Some(n), rule) {
      MultigramsSound(e, dict, word, Some(n), rule, p);
      SingleLetters(dict, p);
    }
    if |p| == 1 && p[0] in ExactAnagrams(e, dict, word) && dict[p[0]] != [] {
      SingleMultigram(e, dict, word, n, p);
      MultigramsComplete(e, dict, word, Some(n), rule, p);
    }
  }

  lemma SingleLetters(dict: seq<Word>, p: seq<Id>)
    requires InRange(dict, p) && |p| == 1
    ensures Letters(dict, p) == multiset(dict[p[0]])
  {
    assert Letters(dict, p[1..]) == multiset{};
  }

  lemma SingleMultigram(e: AnagramR, dict: seq<Word>, word: Word, n: nat, p: seq<Id>)
    requires Inv(e, dict)
    requires |p| == 1 && p[0] in ExactAnagrams(e, dict, word) && dict[p[0]] != []
    ensures Multigram(dict, Some(n), word, p) && Ascending(dict, p)
  {
    SingleLetters(dict, p);
  }

  /** The empty word has no multigrams: every product has a non-empty word. */
  lemma EmptyWord(e: AnagramR, dict: seq<Word>, limit: Option<nat>, rule: SkipRule)
    requires Inv(e, dict)
    ensures AllMultigrams(e, dict, [], limit, rule) == []
  {
    var r := AllMultigrams(e, dict, [], limit, rule);
    if r != [] {
      var p := r[0];
      MultigramsSound(e, dict, [], limit, rule, p);
      LettersHas(dict, p);
      assert false;
    }
  }

  /** The first word of a product contributes its letters. */
  lemma LettersHas(dict: seq<Word>, p: seq<Id>)
    requires InRange(dict, p) && p != [] && dict[p[0]] != []
    ensures dict[p[0]][0] in Letters(dict, p)
  {
  }

  // ---------------------------------------------------------------------
  // The stop bound as written: one multigram in two orders
  // ---------------------------------------------------------------------

  /** The dictionary `a`, `b`, `c`. */
  function Abc(): seq<Word> {
    [[0], [1], [2]]
  }

  lemma AlphasOfThree(dict: seq<Word>, a: Id, b: Id, c: Id)
    requires a < |dict| && b < |dict| && c < |dict|
    ensures InRange(dict, [a, b, c])
    ensures AlphasOf(dict, [a, b, c]) == [Alphatize(dict[c]), Alphatize(dict[b]), Alphatize(dict[a])]
  {
    var p := [a, b, c];
    assert InRange(dict, p);
    var r := AlphasOf(dict, p);
    assert |r| == 3;
    assert r[0] == Alphatize(dict[c]);
    assert r[1] == Alphatize(dict[b]);
    assert r[2] == Alphatize(dict[a]);
  }

  lemma AbcAlphas()
    ensures InRange(Abc(), [0, 2, 1]) && InRange(Abc(), [0, 1, 2])
    ensures AlphasOf(Abc(), [0, 2, 1]) == [[1], [2], [0]]
    ensures AlphasOf(Abc(), [0, 1, 2]) == [[2], [1], [0]]
  {
    var d := Abc();
    assert d[0] == [0] && d[1] == [1] && d[2] == [2];
    AlphatizeSorted([0]);
    AlphatizeSorted([1]);
    AlphatizeSorted([2]);
    AlphasOfThree(d, 0, 2, 1);
    AlphasOfThree(d, 0, 1, 2);
  }

  /** For the word `abc` over the dictionary `a`, `b`, `c`, the code as
      written returns both `a c b` and `a b c`. */
  lemma PermutedMultigrams(e: AnagramR)
    requires Inv(e, Abc())
    ensures [0, 2, 1] in AllMultigrams(e, Abc(), [0, 1, 2], None, AsWritten)
    ensures [0, 1, 2] in AllMultigrams(e, Abc(), [0, 1, 2], None, AsWritten)
  {
    ThreeLetterTrie(e);
    AbcAlphas();
    PermutedLists(e);
    AllMultigramsMembers(e, Abc(), [0, 1, 2], None, AsWritten, [0, 2, 1]);
    AllMultigramsMembers(e, Abc(), [0, 1, 2], None, AsWritten, [0, 1, 2]);
  }

  /** With the intended skip rule only `a b c` is returned. */
  lemma PermutedMultigramsFixed(e: AnagramR)
    requires Inv(e, Abc())
    ensures [0, 2, 1] !in AllMultigrams(e, Abc(), [0, 1, 2], None, Intended)
    ensures [0, 1, 2] in AllMultigrams(e, Abc(), [0, 1, 2], None, Intended)
  {
    ThreeLetterTrie(e);
    AbcAlphas();
    DescendingListFound(e, Intended);
    AllMultigramsMembers(e, Abc(), [0, 1, 2], None, Intended, [0, 1, 2]);
    AllMultigramsMembers(e, Abc(), [0, 1, 2], None, Intended, [0, 2, 1]);
    PermutedListsFixed(e);
  }

  // ---------------------------------------------------------------------
  // The source's loops
  // ---------------------------------------------------------------------

  /** How many states the first phase pops from `st` on; it bounds the
      first loop. */
  ghost function Visits(e: AnagramR, limit: Option<nat>, rule: SkipRule, st: State): nat
    requires WellFormed(e.alphaTrie) && Sorted(st.left)
    decreases |st.left|, 1, 0
  {
    PushedShrink(e, st, rule, limit);
    1 + VisitsStack(e, limit, rule, |st.left|, Pushed(st, Candidates(e, st, rule), limit))
  }

  ghost function VisitsStack(e: AnagramR, limit: Option<nat>, rule: SkipRule, bound: nat, stack: seq<State>): nat
    requires WellFormed(e.alphaTrie)
    requires forall k :: 0 <= k < |stack| ==> Sorted(stack[k].left) && |stack[k].left| < bound
    decreases bound, 0, |stack|
  {
    if stack == [] then 0
    else
      var top := |stack| - 1;
      Visits(e, limit, rule, stack[top]) + VisitsStack(e, limit, rule, bound, stack[..top])
  }

  /** Any bound above the letters left in every state gives the same lists. */
  lemma {:induction false} StackBound(e: AnagramR, limit: Option<nat>, rule: SkipRule, b1: nat, b2: nat, stack: seq<State>)
    requires WellFormed(e.alphaTrie)
    requires forall k :: 0 <= k < |stack| ==> Sorted(stack[k].left) && |stack[k].left| < b1 && |stack[k].left| < b2
    ensures ExploreStack(e, limit, rule, b1, stack) == ExploreStack(e, limit, rule, b2, stack)
    ensures VisitsStack(e, limit, rule, b1, stack) == VisitsStack(e, limit, rule, b2, stack)
    decreases |stack|
  {
    if stack != [] {
      StackBound(e, limit, rule, b1, b2, stack[..|stack| - 1]);
    }
  }

  /** States pushed on top are all handled before those below them. */
  lemma {:induction false} StackAppend(e: AnagramR, limit: Option<nat>, rule: SkipRule, bound: nat, a: seq<State>, b: seq<State>)
    requires WellFormed(e.alphaTrie)
    requires forall k :: 0 <= k < |a| ==> Sorted(a[k].left) && |a[k].left| < bound
    requires forall k :: 0 <= k < |b| ==> Sorted(b[k].left) && |b[k].left| < bound
    ensures ExploreStack(e, limit, rule, bound, a + b)
            == ExploreStack(e, limit, rule, bound, b) + ExploreStack(e, limit, rule, bound, a)
    ensures VisitsStack(e, limit, rule, bound, a + b)
            == VisitsStack(e, limit, rule, bound, b) + VisitsStack(e, limit, rule, bound, a)
    decreases |b|
  {
    if b == [] {
      assert a + b == a;
    } else {
      var top := |b| - 1;
      assert (a + b)[..|a + b| - 1] == a + b[..top];
      StackAppend(e, limit, rule, bound, a, b[..top]);
      Assoc3(Explore(e, limit, rule, b[top]), ExploreStack(e, limit, rule, bound, b[..top]),
             ExploreStack(e, limit, rule, bound, a));
    }
  }

  /** One round of the first loop: popping `st` and pushing its states keeps
      the lists still to come, and leaves fewer states to visit. */
  /** Every state of the stack is sorted and has fewer than `bound` letters left. */
  ghost predicate Bounded(stack: seq<State>, bound: nat) {
    forall k :: 0 <= k < |stack| ==> Sorted(stack[k].left) && |stack[k].left| < bound
  }

  lemma OuterStep(e: AnagramR, limit: Option<nat>, bound: nat, lists: seq<seq<Word>>, rest: seq<State>, st: State,
                  done: seq<seq<Word>>, pushed: seq<State>)
    requires WellFormed(e.alphaTrie) && Bounded(rest + [st], bound)
    requires done == Finished(st, Candidates(e, st, AsWritten))
    requires pushed == Pushed(st, Candidates(e, st, AsWritten), limit)
    ensures Bounded(rest + pushed, bound)
    ensures lists + done + ExploreStack(e, limit, AsWritten, bound, rest + pushed)
            == lists + ExploreStack(e, limit, AsWritten, bound, rest + [st])
    ensures VisitsStack(e, limit, AsWritten, bound, rest + pushed)
            < VisitsStack(e, limit, AsWritten, bound, rest + [st])
  {
    BoundedSplit(rest, st, bound);
    PushedShrink(e, st, AsWritten, limit);
    assert Bounded(pushed, |st.left|);
    BoundedJoin(rest, pushed, bound);
    OuterLists(e, limit, bound, lists, rest, st, done, pushed);
    StackTop(e, limit, AsWritten, bound, rest, st);
    StackAppend(e, limit, AsWritten, bound, rest, pushed);
    StackBound(e, limit, AsWritten, bound, |st.left|, pushed);
  }

  lemma BoundedSplit(rest: seq<State>, st: State, bound: nat)
    requires Bounded(rest + [st], bound)
    ensures Bounded(rest, bound) && Sorted(st.left) && |st.left| < bound
  {
    assert (rest + [st])[|rest|] == st;
    assert forall k :: 0 <= k < |rest| ==> (rest + [st])[k] == rest[k];
  }

  lemma BoundedJoin(rest: seq<State>, pushed: seq<State>, bound: nat)
    requires Bounded(rest, bound) && Bounded(pushed, bound)
    ensures Bounded(rest + pushed, bound)
  {
  }

  /** The lists of one round of the first loop. */
  lemma OuterLists(e: AnagramR, limit: Option<nat>, bound: nat, lists: seq<seq<Word>>, rest: seq<State>, st: State,
                   done: seq<seq<Word>>, pushed: seq<State>)
    requires WellFormed(e.alphaTrie) && Bounded(rest, bound) && Sorted(st.left) && |st.left| < bound
    requires Bounded(pushed, |st.left|)
    requires done == Finished(st, Candidates(e, st, AsWritten))
    requires pushed == Pushed(st, Candidates(e, st, AsWritten), limit)
    ensures Bounded(rest + pushed, bound)
    ensures lists + done + ExploreStack(e, limit, AsWritten, bound, rest + pushed)
            == lists + ExploreStack(e, limit, AsWritten, bound, rest + [st])
  {
    BoundedJoin(rest, pushed, bound);
    StackTop(e, limit, AsWritten, bound, rest, st);
    StackAppend(e, limit, AsWritten, bound, rest, pushed);
    StackBound(e, limit, AsWritten, bound, |st.left|, pushed);
    Assoc3(done, ExploreStack(e, limit, AsWritten, |st.left|, pushed),
           ExploreStack(e, limit, AsWritten, bound, rest));
    Assoc3(lists, done, ExploreStack(e, limit, AsWritten, bound, rest + pushed));
  }

  /** The state on top of the stack is handled first. */
  lemma StackTop(e: AnagramR, limit: Option<nat>, rule: SkipRule, bound: nat, rest: seq<State>, st: State)
    requires WellFormed(e.alphaTrie) && Sorted(st.left) && |st.left| < bound
    requires forall k :: 0 <= k < |rest| ==> Sorted(rest[k].left) && |rest[k].left| < bound
    ensures ExploreStack(e, limit, rule, bound, rest + [st])
            == Explore(e, limit, rule, st) + ExploreStack(e, limit, rule, bound, rest)
    ensures VisitsStack(e, limit, rule, bound, rest + [st])
            == Visits(e, limit, rule, st) + VisitsStack(e, limit, rule, bound, rest)
  {
    assert (rest + [st])[..|rest|] == rest;
  }

  lemma SplitLast<T>(s: seq<T>)
    requires s != []
    ensures s == s[..|s| - 1] + [s[|s| - 1]]
  {
  }

  lemma PrefixStep<T>(s: seq<T>, i: nat)
    requires i < |s|
    ensures s[..i + 1][..i] == s[..i] && s[..i + 1][i] == s[i]
  {
  }

  /** The inner `for` loop of the first loop (src/anagram.rs:151-160) for a
      popped state `st`: the lists it completes and the states it pushes. */
  method VisitState(st: State, cands: seq<Word>, limit: Option<nat>) returns (done: seq<seq<Word>>, pushed: seq<State>)
    ensures done == Finished(st, cands) && pushed == Pushed(st, cands, limit)
  {
    done := [];
    pushed := [];
    for i := 0 to |cands|
      invariant done == Finished(st, cands[..i]) && pushed == Pushed(st, cands[..i], limit)
    {
      PrefixStep(cands, i);
      var next := Advance(st, cands[i]);
      if next.left == [] {
        done := done + [next.chosen];
      } else if limit.None? || |next.chosen| < limit.value {
        pushed := pushed + [next];
      }
    }
    assert cands[..|cands|] == cands;
  }

  /** The first loop of `multigrams` (src/anagram.rs:145-161). */
  method AlphaListsLoop(e: AnagramR, word: Word, limit: Option<nat>) returns (lists: seq<seq<Word>>)
    requires WellFormed(e.alphaTrie)
    ensures lists == AlphaLists(e, limit, AsWritten, word)
  {
    var alpha := Alphatize(word);
    ghost var bound := |alpha| + 1;
    var stack := [State(alpha, [])];
    lists := [];
    assert stack[..0] == [];
    while stack != []
      invariant Bounded(stack, bound)
      invariant lists + ExploreStack(e, limit, AsWritten, bound, stack) == AlphaLists(e, limit, AsWritten, word)
      decreases VisitsStack(e, limit, AsWritten, bound, stack)
    {
      var st := stack[|stack| - 1];
      var rest := stack[..|stack| - 1];
      SplitLast(stack);
      var cands := AlphagramsHelper(e, st.left, Last(st.chosen));
      var done, pushed := VisitState(st, cands, limit);
      OuterStep(e, limit, bound, lists, rest, st, done, pushed);
      lists := lists + done;
      stack := rest + pushed;
    }
    assert lists + [] == lists;
  }

  /** A list still on the second stack, with the products built so far. */
  datatype Pending = Pending(alphas: seq<Word>, products: seq<seq<Id>>)

  ghost predicate PendingOk(m: map<Word, seq<Id>>, stack: seq<Pending>) {
    forall k :: 0 <= k < |stack| ==> stack[k].alphas != [] && Indexed(m, stack[k].alphas)
  }

  /** The final products still to come from the second stack. */
  ghost function PendingProducts(m: map<Word, seq<Id>>, stack: seq<Pending>): seq<seq<Id>>
    requires PendingOk(m, stack)
    decreases |stack|
  {
    if stack == [] then []
    else
      var top := |stack| - 1;
      ExpandList(m, stack[top].alphas, stack[top].products) + PendingProducts(m, stack[..top])
  }

  /** The alphagrams still to take off the second stack; it bounds the
      second loop. */
  ghost function Work(stack: seq<Pending>): nat
    decreases |stack|
  {
    if stack == [] then 0 else |stack[|stack| - 1].alphas| + Work(stack[..|stack| - 1])
  }

  lemma AppendAllSnoc(products: seq<seq<Id>>, k: nat, w: Id)
    requires k < |products|
    ensures AppendAll(products[..k + 1], w) == AppendAll(products[..k], w) + [products[k] + [w]]
  {
  }

  /** The two nested `for` loops of one round of the second loop
      (src/anagram.rs:172-179). */
  method ExtendLoop(ids: seq<Id>, products: seq<seq<Id>>) returns (r: seq<seq<Id>>)
    ensures r == Extend(ids, products)
  {
    r := [];
    for i := 0 to |ids|
      invariant r == Extend(ids[..i], products)
    {
      assert ids[..i + 1][..i] == ids[..i];
      ghost var before := r;
      for k := 0 to |products|
        invariant r == before + AppendAll(products[..k], ids[i])
      {
        AppendAllSnoc(products, k, ids[i]);
        r := r + [products[k] + [ids[i]]];
      }
      assert products[..|products|] == products;
    }
    assert ids[..|ids|] == ids;
  }

  /** The `for` loop that pushes every list with the single empty product
      (src/anagram.rs:164-166). */
  method PushLists(m: map<Word, seq<Id>>, lists: seq<seq<Word>>) returns (stack: seq<Pending>)
    requires Expandable(m, lists)
    ensures PendingOk(m, stack) && PendingProducts(m, stack) == ExpandAll(m, lists)
  {
    stack := [];
    for i := 0 to |lists|
      invariant PendingOk(m, stack) && ExpandablePrefix(m, lists, i)
      invariant PendingProducts(m, stack) == ExpandAll(m, lists[..i])
    {
      PushStep(m, lists, i, stack);
      stack := stack + [Pending(lists[i], [[]])];
    }
    assert lists[..|lists|] == lists;
  }

  /** The first `i` lists can be expanded. */
  ghost predicate ExpandablePrefix(m: map<Word, seq<Id>>, lists: seq<seq<Word>>, i: nat) {
    i <= |lists| && Expandable(m, lists[..i])
  }

  /** Pushing the next list adds its products below those already pushed. */
  lemma PushStep(m: map<Word, seq<Id>>, lists: seq<seq<Word>>, i: nat, stack: seq<Pending>)
    requires Expandable(m, lists) && i < |lists|
    requires PendingOk(m, stack) && ExpandablePrefix(m, lists, i)
    requires PendingProducts(m, stack) == ExpandAll(m, lists[..i])
    ensures PendingOk(m, stack + [Pending(lists[i], [[]])]) && ExpandablePrefix(m, lists, i + 1)
    ensures PendingProducts(m, stack + [Pending(lists[i], [[]])]) == ExpandAll(m, lists[..i + 1])
  {
    PushOk(m, lists, i, stack);
    var next := stack + [Pending(lists[i], [[]])];
    PendingSnoc(m, next);
    assert next[..|stack|] == stack;
    ExpandAllSnoc(m, lists, i);
  }

  lemma PushOk(m: map<Word, seq<Id>>, lists: seq<seq<Word>>, i: nat, stack: seq<Pending>)
    requires Expandable(m, lists) && i < |lists| && PendingOk(m, stack)
    ensures PendingOk(m, stack + [Pending(lists[i], [[]])]) && ExpandablePrefix(m, lists, i + 1)
  {
    PrefixStep(lists, i);
    assert Expandable(m, lists[..i + 1]);
  }

  /** The products of a stack: those of its top, then those below it. */
  lemma PendingSnoc(m: map<Word, seq<Id>>, stack: seq<Pending>)
    requires stack != [] && PendingOk(m, stack)
    ensures PendingOk(m, stack[..|stack| - 1])
    ensures PendingProducts(m, stack)
            == ExpandList(m, stack[|stack| - 1].alphas, stack[|stack| - 1].products)
               + PendingProducts(m, stack[..|stack| - 1])
  {
  }

  lemma ExpandAllSnoc(m: map<Word, seq<Id>>, lists: seq<seq<Word>>, i: nat)
    requires Expandable(m, lists) && i < |lists| && Expandable(m, lists[..i + 1])
    ensures Expandable(m, lists[..i])
    ensures ExpandAll(m, lists[..i + 1]) == ExpandList(m, lists[i], [[]]) + ExpandAll(m, lists[..i])
  {
    PrefixStep(lists, i);
  }

  /** A list whose last alphagram was its only one: its products are final. */
  lemma PendingDone(m: map<Word, seq<Id>>, stack: seq<Pending>)
    requires stack != [] && PendingOk(m, stack)
    requires |stack[|stack| - 1].alphas| == 1
    ensures var top := stack[|stack| - 1];
            var rest := stack[..|stack| - 1];
            && PendingOk(m, rest)
            && PendingProducts(m, stack)
               == Extend(m[top.alphas[0]], top.products) + PendingProducts(m, rest)
            && Work(rest) < Work(stack)
  {
  }

  /** A list with alphagrams left goes back on the stack, one alphagram
      shorter, with the extended products. */
  lemma PendingAgain(m: map<Word, seq<Id>>, stack: seq<Pending>)
    requires stack != [] && PendingOk(m, stack)
    requires |stack[|stack| - 1].alphas| > 1
    ensures var top := stack[|stack| - 1];
            var rest := stack[..|stack| - 1];
            var n := |top.alphas| - 1;
            var again := Pending(top.alphas[..n], Extend(m[top.alphas[n]], top.products));
            && PendingOk(m, rest + [again])
            && PendingProducts(m, stack) == PendingProducts(m, rest + [again])
            && Work(rest + [again]) < Work(stack)
  {
    var top := stack[|stack| - 1];
    var rest := stack[..|stack| - 1];
    var n := |top.alphas| - 1;
    IndexedPrefix(m, top.alphas, n);
    var again := Pending(top.alphas[..n], Extend(m[top.alphas[n]], top.products));
    assert (rest + [again])[..|rest|] == rest;
  }

  /** The second loop of `multigrams` (src/anagram.rs:167-185). */
  method ExpandLoop(m: map<Word, seq<Id>>, lists: seq<seq<Word>>) returns (finals: seq<seq<Id>>)
    requires Expandable(m, lists)
    ensures finals == ExpandAll(m, lists)
  {
    var stack := PushLists(m, lists);
    finals := [];
    while stack != []
      invariant PendingOk(m, stack)
      invariant finals + PendingProducts(m, stack) == ExpandAll(m, lists)
      decreases Work(stack)
    {
      var top := stack[|stack| - 1];
      var rest := stack[..|stack| - 1];
      var n := |top.alphas| - 1;
      var products := ExtendLoop(m[top.alphas[n]], top.products);
      if n == 0 {
        PendingDone(m, stack);
        Assoc3(finals, products, PendingProducts(m, rest));
        finals := finals + products;
        stack := rest;
      } else {
        PendingAgain(m, stack);
        stack := rest + [Pending(top.alphas[..n], products)];
      }
    }
    assert finals + [] == finals;
  }

  /** `AnagramR::multigrams`: the first loop's lists, then the second loop's
      products of their word ids. */
  method Multigrams(e: AnagramR, ghost dict: seq<Word>, word: Word, limit: Option<nat>) returns (r: seq<seq<Id>>)
    requires Inv(e, dict)
    ensures r == AllMultigrams(e, dict, word, limit, AsWritten)
    ensures forall p :: p in r ==> Multigram(dict, limit, word, p)
    ensures NoDup(r)
  {
    var lists := AlphaListsLoop(e, word, limit);
    ListsExpandable(e, dict, limit, AsWritten, word);
    r := ExpandLoop(e.alphaToWords, lists);
    forall p | p in r
      ensures Multigram(dict, limit, word, p)
    {
      MultigramsSound(e, dict, word, limit, AsWritten, p);
    }
    AllMultigramsNoDup(e, dict, word, limit, AsWritten);
  }
}
