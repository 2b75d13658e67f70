/** The anagram index `AnagramR` (src/anagram.rs:6-9, 36-127): building it
    from a dictionary, exact anagrams, and sub-anagrams through the trie walk. */
module Engine {
  import opened Prelude
  import opened Words
  import opened Alphagram
  import opened Tries
  import opened TrieWalk
  import WordOrder

  /** `AnagramR`: dictionary ids grouped by alphagram, and the trie of all
      non-empty alphagrams. */
  datatype AnagramR = AnagramR(alphaToWords: map<Word, seq<Id>>, alphaTrie: Trie)

  /** Reference definition: the ids of the dictionary words whose alphagram
      is `k`, in dictionary order. A word's id is its position. */
  function IdsOf(dict: seq<Word>, k: Word): seq<Id>
    decreases |dict|
  {
    if dict == [] then []
    else
      var last := |dict| - 1;
      IdsOf(dict[..last], k) + if Alphatize(dict[last]) == k then [last] else []
  }

  /** Ascending, hence free of repeats. */
  predicate Increasing(s: seq<Id>) {
    forall i, j :: 0 <= i < j < |s| ==> s[i] < s[j]
  }

  /** The ids of `k` are exactly the positions of words with alphagram `k`,
      in ascending order. */
  lemma IdsOfSpec(dict: seq<Word>, k: Word)
    ensures forall j: nat :: j in IdsOf(dict, k) <==> j < |dict| && Alphatize(dict[j]) == k
    ensures Increasing(IdsOf(dict, k))
  {
    IdsOfMembers(dict, k);
    IdsOfIncreasing(dict, k);
  }

  lemma {:induction false} IdsOfMembers(dict: seq<Word>, k: Word)
    ensures forall j: nat :: j in IdsOf(dict, k) <==> j < |dict| && Alphatize(dict[j]) == k
    decreases |dict|
  {
    if dict != [] {
      var last := |dict| - 1;
      var pre := dict[..last];
      IdsOfMembers(pre, k);
      var hit := Alphatize(dict[last]) == k;
      var own: seq<Id> := if hit then [last] else [];
      assert IdsOf(dict, k) == IdsOf(pre, k) + own;
      forall j: nat
        ensures j in IdsOf(dict, k) <==> j < |dict| && Alphatize(dict[j]) == k
      {
        assert j in IdsOf(dict, k) <==> j in IdsOf(pre, k) || j in own;
        if j < last {
          assert dict[j] == pre[j];
          assert j !in own;
        } else if j == last {
          assert j !in IdsOf(pre, k);
        } else {
          assert j !in IdsOf(pre, k) && j !in own;
        }
      }
    }
  }

  lemma {:induction false} IdsOfIncreasing(dict: seq<Word>, k: Word)
    ensures Increasing(IdsOf(dict, k))
    ensures forall i :: 0 <= i < |IdsOf(dict, k)| ==> IdsOf(dict, k)[i] < |dict|
    decreases |dict|
  {
    if dict != [] {
      IdsOfIncreasing(dict[..|dict| - 1], k);
    }
  }

  /** Ids of a longer dictionary: the old ones, then the new word's. */
  lemma IdsOfSnoc(dict: seq<Word>, w: Word, k: Word)
    ensures IdsOf(dict + [w], k) == IdsOf(dict, k) + if Alphatize(w) == k then [|dict|] else []
  {
    assert (dict + [w])[..|dict|] == dict;
  }

  /** The shape every root of an alphagram trie keeps: a full node storing
      nothing itself (the empty alphagram never enters the trie), 26 slots
      per node, and each stored alphagram at the end of its own path. */
  ghost predicate WellFormed(t: Trie) {
    t.Full? && t.alpha.None? && Shaped(t) && PathsOk(t, [])
  }

  /** `e` is the index of `dict`: the trie stores exactly the non-empty keys
      of the map, and the map sends each alphagram that occurs to the ids of
      its words, and nothing else. */
  ghost predicate Inv(e: AnagramR, dict: seq<Word>) {
    && WellFormed(e.alphaTrie)
    && (forall q :: StoredAt(e.alphaTrie, q) <==> q != [] && q in e.alphaToWords)
    && (forall k :: k in e.alphaToWords <==> IdsOf(dict, k) != [])
    && (forall k :: k in e.alphaToWords ==> e.alphaToWords[k] == IdsOf(dict, k))
  }

  /** One round of the loop of `AnagramR::new`: insert the word's alphagram
      into the trie and append its id to the alphagram's entry. */
  function AddWord(e: AnagramR, w: Word, id: Id): AnagramR
    requires Shaped(e.alphaTrie)
  {
    var key := Alphatize(w);
    var ids := if key in e.alphaToWords then e.alphaToWords[key] else [];
    AnagramR(e.alphaToWords[key := ids + [id]], Insert(e.alphaTrie, key))
  }

  /** Adding the next dictionary word keeps the index exact. */
  lemma AddWordInv(e: AnagramR, dict: seq<Word>, w: Word)
    requires Inv(e, dict)
    ensures Shaped(e.alphaTrie) && Inv(AddWord(e, w, |dict|), dict + [w])
  {
    AddWordTrie(e, dict, w);
    AddWordMap(e, dict, w);
  }

  /** The trie part of one round: the new trie stores exactly the non-empty
      keys of the new map. */
  lemma AddWordTrie(e: AnagramR, dict: seq<Word>, w: Word)
    requires Inv(e, dict)
    ensures var e' := AddWord(e, w, |dict|);
            && WellFormed(e'.alphaTrie)
            && forall q :: StoredAt(e'.alphaTrie, q) <==> q != [] && q in e'.alphaToWords
  {
    var key := Alphatize(w);
    var t := e.alphaTrie;
    if key == [] {
      assert AddWord(e, w, |dict|).alphaTrie == t;
    } else {
      assert key[..0] == [] && key[0..] == key;
      InsertSpec(t, key, 0);
    }
  }

  /** The map part of one round: the new map sends every alphagram that
      occurs in the longer dictionary to the ids of its words. */
  lemma AddWordMap(e: AnagramR, dict: seq<Word>, w: Word)
    requires Inv(e, dict)
    ensures var m := AddWord(e, w, |dict|).alphaToWords;
            && (forall k :: k in m <==> IdsOf(dict + [w], k) != [])
            && (forall k :: k in m ==> m[k] == IdsOf(dict + [w], k))
  {
    var m := AddWord(e, w, |dict|).alphaToWords;
    forall k
      ensures (k in m <==> IdsOf(dict + [w], k) != []) && (k in m ==> m[k] == IdsOf(dict + [w], k))
    {
      AddWordKey(e, dict, w, k);
    }
  }

  lemma AddWordKey(e: AnagramR, dict: seq<Word>, w: Word, k: Word)
    requires Inv(e, dict)
    ensures var m := AddWord(e, w, |dict|).alphaToWords;
            && (k in m <==> IdsOf(dict + [w], k) != [])
            && (k in m ==> m[k] == IdsOf(dict + [w], k))
  {
    IdsOfSnoc(dict, w, k);
    assert k in e.alphaToWords <==> IdsOf(dict, k) != [];
  }

  /** `AnagramR::new`. */
  method New(dict: seq<Word>) returns (e: AnagramR)
    ensures Inv(e, dict)
  {
    EmptyInv();
    e := AnagramR(map[], NewFull());
    var i := 0;
    while i < |dict|
      invariant i <= |dict| && Inv(e, dict[..i])
    {
      AddWordStep(e, dict, i);
      e := AddWord(e, dict[i], i);
      i := i + 1;
    }
    assert dict[..i] == dict;
  }

  /** The index of the empty dictionary: an empty map and a fresh root. */
  lemma EmptyInv()
    ensures Inv(AnagramR(map[], NewFull()), [])
  {
    NewFullFacts([]);
  }

  /** One round of the loop of `AnagramR::new`, for the word at `i`. */
  lemma AddWordStep(e: AnagramR, dict: seq<Word>, i: nat)
    requires i < |dict| && Inv(e, dict[..i])
    ensures Shaped(e.alphaTrie) && Inv(AddWord(e, dict[i], i), dict[..i + 1])
  {
    assert dict[..i + 1] == dict[..i] + [dict[i]];
    assert |dict[..i]| == i;
    AddWordInv(e, dict[..i], dict[i]);
  }

  /** Every key of the index is an alphagram. */
  lemma KeysSorted(e: AnagramR, dict: seq<Word>, k: Word)
    requires Inv(e, dict) && k in e.alphaToWords
    ensures Sorted(k)
  {
    IdsOfSpec(dict, k);
    var j := IdsOf(dict, k)[0];
    assert j in IdsOf(dict, k);
  }

  /** Every non-empty dictionary word's alphagram is stored at the end of its
      own path, and the root stores nothing. */
  lemma WordsStored(e: AnagramR, dict: seq<Word>, j: nat)
    requires Inv(e, dict) && j < |dict| && dict[j] != []
    ensures Find(e.alphaTrie, Alphatize(dict[j])).Full?
    ensures Find(e.alphaTrie, Alphatize(dict[j])).alpha == Some(Alphatize(dict[j]))
    ensures e.alphaTrie.alpha.None?
  {
    var a := Alphatize(dict[j]);
    IdsOfSpec(dict, a);
    assert j in IdsOf(dict, a);
    assert a != [] by {
      assert |a| == |multiset(a)| == |multiset(dict[j])| == |dict[j]|;
    }
    FindPathsOk(e.alphaTrie, [], a);
    assert [] + a == a;
  }

  /** `AnagramR::exact_anagrams`: the ids of the dictionary's anagrams of `w`. */
  function ExactAnagrams(e: AnagramR, ghost dict: seq<Word>, w: Word): (r: seq<Id>)
    requires Inv(e, dict)
    ensures forall j: nat :: j in r <==> j < |dict| && multiset(dict[j]) == multiset(w)
    ensures Increasing(r)
  {
    var key := Alphatize(w);
    IdsOfSpec(dict, key);
    forall j: nat | j < |dict|
      ensures Alphatize(dict[j]) == key <==> multiset(dict[j]) == multiset(w)
    {
      SameAlphagramIff(dict[j], w);
    }
    if key in e.alphaToWords then e.alphaToWords[key] else []
  }

  // ---------------------------------------------------------------------
  // Sub-anagrams
  // ---------------------------------------------------------------------

  /** What `alphagrams_helper` returns, as the recursive walk from the root
      over the alphagram of `word`. */
  function Alphagrams(e: AnagramR, word: Word, stop: Option<Word>, rule: SkipRule): seq<Word> {
    Walk(Alphatize(word), stop, RootFrame(e.alphaTrie, stop), rule)
  }

  /** Every frame on the stack is positioned within a target of length `n`. */
  predicate FramesIn(stack: seq<Frame>, n: nat) {
    forall k :: 0 <= k < |stack| ==> stack[k].index <= n
  }

  /** The records of a list of frames popped from the top (the end) down. */
  function WalkStack(target: Word, stop: Option<Word>, stack: seq<Frame>): seq<Word>
    requires FramesIn(stack, |target|)
    decreases |stack|
  {
    if stack == [] then []
    else
      var top := |stack| - 1;
      Walk(target, stop, stack[top], AsWritten) + WalkStack(target, stop, stack[..top])
  }

  ghost function StackSize(target: Word, stop: Option<Word>, stack: seq<Frame>): nat
    requires FramesIn(stack, |target|)
    decreases |stack|
  {
    if stack == [] then 0
    else
      var top := |stack| - 1;
      WalkSize(target, stop, stack[top], AsWritten) + StackSize(target, stop, stack[..top])
  }

  /** The frames a popped frame `f` pushes: none, or its skip frame and
      then its descent frame on top. */
  function Successors(target: Word, stop: Option<Word>, f: Frame): (r: seq<Frame>)
    requires f.index <= |target|
    ensures FramesIn(r, |target|)
  {
    if Pushes(target, stop, f) then [SkipFrame(target, stop, f, AsWritten), DescendFrame(target, stop, f)]
    else []
  }

  lemma WalkStackSnoc(target: Word, stop: Option<Word>, stack: seq<Frame>, f: Frame)
    requires FramesIn(stack, |target|)
    requires f.index <= |target|
    ensures WalkStack(target, stop, stack + [f])
            == Walk(target, stop, f, AsWritten) + WalkStack(target, stop, stack)
    ensures StackSize(target, stop, stack + [f])
            == WalkSize(target, stop, f, AsWritten) + StackSize(target, stop, stack)
  {
    assert (stack + [f])[..|stack|] == stack;
  }

  lemma Assoc3<T>(a: seq<T>, b: seq<T>, c: seq<T>)
    ensures a + b + c == a + (b + c)
  {
  }

  /** Replacing a popped frame by its successors keeps what is still to be
      recorded, once the frame's own alphagram is recorded, and shrinks the
      work left. */
  lemma StackStep(target: Word, stop: Option<Word>, rest: seq<Frame>, f: Frame)
    requires FramesIn(rest, |target|)
    requires f.index <= |target|
    ensures var next := rest + Successors(target, stop, f);
            && FramesIn(next, |target|)
            && WalkStack(target, stop, rest + [f])
               == Own(f) + WalkStack(target, stop, next)
            && StackSize(target, stop, next) < StackSize(target, stop, rest + [f])
  {
    WalkStackSnoc(target, stop, rest, f);
    WalkUnfold(target, stop, f, AsWritten);
    if Pushes(target, stop, f) {
      StackPushRecords(target, stop, rest, f);
      StackPushSize(target, stop, rest, f);
    } else {
      assert rest + Successors(target, stop, f) == rest;
    }
  }

  /** One round of the loop in `alphagrams_helper`: popping the top frame,
      recording its alphagram and pushing its successors keeps what is still
      to be recorded and shrinks the work left. */
  lemma PopFrame(target: Word, stop: Option<Word>, stack: seq<Frame>, r: seq<Word>, all: seq<Word>)
    requires stack != [] && FramesIn(stack, |target|)
    requires r + WalkStack(target, stop, stack) == all
    ensures var f := stack[|stack| - 1];
            var next := stack[..|stack| - 1] + Successors(target, stop, f);
            && FramesIn(next, |target|)
            && (r + Own(f)) + WalkStack(target, stop, next) == all
            && StackSize(target, stop, next) < StackSize(target, stop, stack)
  {
    var f := stack[|stack| - 1];
    var rest := stack[..|stack| - 1];
    assert stack == rest + [f];
    StackStep(target, stop, rest, f);
    Assoc3(r, Own(f), WalkStack(target, stop, rest + Successors(target, stop, f)));
  }

  lemma StackPushRecords(target: Word, stop: Option<Word>, rest: seq<Frame>, f: Frame)
    requires FramesIn(rest, |target|)
    requires f.index <= |target| && Pushes(target, stop, f)
    ensures Walk(target, stop, f, AsWritten) + WalkStack(target, stop, rest)
            == Own(f) + WalkStack(target, stop, rest + Successors(target, stop, f))
  {
    var s := SkipFrame(target, stop, f, AsWritten);
    var d := DescendFrame(target, stop, f);
    assert rest + Successors(target, stop, f) == rest + [s] + [d];
    WalkStackSnoc(target, stop, rest + [s], d);
    WalkStackSnoc(target, stop, rest, s);
    WalkUnfold(target, stop, f, AsWritten);
    var wd := Walk(target, stop, d, AsWritten);
    var ws := Walk(target, stop, s, AsWritten);
    var wr := WalkStack(target, stop, rest);
    calc {
      Walk(target, stop, f, AsWritten) + wr;
      Own(f) + wd + ws + wr;
      { Assoc(Own(f), wd, ws, wr); }
      Own(f) + (wd + (ws + wr));
      Own(f) + WalkStack(target, stop, rest + [s] + [d]);
    }
  }

  lemma StackPushSize(target: Word, stop: Option<Word>, rest: seq<Frame>, f: Frame)
    requires FramesIn(rest, |target|)
    requires f.index <= |target| && Pushes(target, stop, f)
    ensures StackSize(target, stop, rest + Successors(target, stop, f))
            < WalkSize(target, stop, f, AsWritten) + StackSize(target, stop, rest)
  {
    var s := SkipFrame(target, stop, f, AsWritten);
    var d := DescendFrame(target, stop, f);
    assert rest + Successors(target, stop, f) == rest + [s] + [d];
    WalkStackSnoc(target, stop, rest + [s], d);
    WalkStackSnoc(target, stop, rest, s);
    WalkUnfold(target, stop, f, AsWritten);
  }

  lemma Assoc<T>(a: seq<T>, b: seq<T>, c: seq<T>, d: seq<T>)
    ensures a + b + c + d == a + (b + (c + d))
  {
  }

  /** The body of the source's loop for one popped frame: the alphagram it
      records, if any, and the frames it pushes. */
  method VisitFrame(alpha: Word, stop: Option<Word>, f: Frame) returns (own: seq<Word>, push: seq<Frame>)
    requires f.index <= |alpha|
    ensures own == Own(f)
    ensures push == Successors(alpha, stop, f)
  {
    own := [];
    push := [];
    if f.node.Full? {
      if f.isNew && f.node.alpha.Some? {
        own := [f.node.alpha.value];
      }
      if f.index < |alpha| {
        var letter := alpha[f.index];
        var newLess := f.less;
        if !f.less {
          var status := StopStatusOf(letter, stop, f.length);
          if status == Stop {
            return;
          } else if status == Less {
            newLess := true;
          }
        }
        var newIndex := f.index + 1;
        while newIndex < |alpha|
          invariant f.index + 1 <= newIndex <= |alpha|
          invariant RunEndFrom(alpha, letter, newIndex) == RunEnd(alpha, f.index)
        {
          if letter != alpha[newIndex] {
            break;
          }
          newIndex := newIndex + 1;
        }
        push := [Frame(f.node, false, newLess, newIndex, f.length),
                 Frame(Child(f.node, letter), true, newLess, f.index + 1, f.length + 1)];
      }
    }
  }

  /** `AnagramR::alphagrams_helper`, with the source's explicit stack. */
  method AlphagramsHelper(e: AnagramR, word: Word, stop: Option<Word>) returns (r: seq<Word>)
    ensures r == Alphagrams(e, word, stop, AsWritten)
  {
    var alpha := Alphatize(word);
    var stack := [RootFrame(e.alphaTrie, stop)];
    r := [];
    StartStack(e, word, stop);
    while stack != []
      invariant FramesIn(stack, |alpha|)
      invariant r + WalkStack(alpha, stop, stack) == Alphagrams(e, word, stop, AsWritten)
      decreases StackSize(alpha, stop, stack)
    {
      var f := stack[|stack| - 1];
      var rest := stack[..|stack| - 1];
      var own, push := VisitFrame(alpha, stop, f);
      PopFrame(alpha, stop, stack, r, Alphagrams(e, word, stop, AsWritten));
      r := r + own;
      stack := rest + push;
    }
  }

  /** The loop starts with the root frame alone, which still has all of the
      walk to record. */
  lemma StartStack(e: AnagramR, word: Word, stop: Option<Word>)
    ensures var root := RootFrame(e.alphaTrie, stop);
            && FramesIn([root], |Alphatize(word)|)
            && [] + WalkStack(Alphatize(word), stop, [root]) == Alphagrams(e, word, stop, AsWritten)
  {
    WalkStackSnoc(Alphatize(word), stop, [], RootFrame(e.alphaTrie, stop));
    assert [] + [RootFrame(e.alphaTrie, stop)] == [RootFrame(e.alphaTrie, stop)];
  }

  /** What the walk from the root of a well-formed trie records: non-empty
      stored alphagrams drawn from the letters of `word`, each once; all of
      them that sort no later than `stop`; and, with the intended skip rule,
      none that sort later. */
  lemma AlphagramsTrie(e: AnagramR, word: Word, stop: Option<Word>, rule: SkipRule)
    requires WellFormed(e.alphaTrie)
    ensures forall x :: x in Alphagrams(e, word, stop, rule) ==>
              x != [] && StoredAt(e.alphaTrie, x) && Sorted(x) && multiset(x) <= multiset(word)
    ensures forall x :: x != [] && StoredAt(e.alphaTrie, x) && Sorted(x) && multiset(x) <= multiset(word)
                        && (stop.None? || WordOrder.Le(x, stop.value))
                        ==> x in Alphagrams(e, word, stop, rule)
    ensures rule == Intended ==>
              forall x :: x in Alphagrams(e, word, stop, rule) ==> stop.None? || WordOrder.Le(x, stop.value)
    ensures NoDup(Alphagrams(e, word, stop, rule))
  {
    var target := Alphatize(word);
    var root := RootFrame(e.alphaTrie, stop);
    WalkSound(target, stop, root, rule, []);
    WalkNoDup(target, stop, root, rule, []);
    forall x | x in Alphagrams(e, word, stop, rule)
      ensures x != [] && StoredAt(e.alphaTrie, x) && Sorted(x)
    {
      assert x[0..] == x;
    }
    forall x | x != [] && StoredAt(e.alphaTrie, x) && Sorted(x) && multiset(x) <= multiset(word)
               && (stop.None? || WordOrder.Le(x, stop.value))
      ensures x in Alphagrams(e, word, stop, rule)
    {
      AlphagramsHas(e, word, stop, rule, x);
    }
    if rule == Intended {
      IntendedWithinStop(target, stop, root, []);
    }
  }

  /** `alphagrams_helper` returns every non-empty stored alphagram drawn from
      the letters of `word` that sorts no later than `stop`. */
  lemma AlphagramsHas(e: AnagramR, word: Word, stop: Option<Word>, rule: SkipRule, x: Word)
    requires WellFormed(e.alphaTrie)
    requires x != [] && StoredAt(e.alphaTrie, x) && Sorted(x) && multiset(x) <= multiset(word)
    requires stop.None? || WordOrder.Le(x, stop.value)
    ensures x in Alphagrams(e, word, stop, rule)
  {
    assert [] + x == x;
    WalkComplete(Alphatize(word), stop, RootFrame(e.alphaTrie, stop), rule, [], x);
  }

  /** `alphagrams_helper` never returns an alphagram twice. */
  lemma AlphagramsNoDup(e: AnagramR, word: Word, stop: Option<Word>, rule: SkipRule)
    requires WellFormed(e.alphaTrie)
    ensures NoDup(Alphagrams(e, word, stop, rule))
  {
    WalkNoDup(Alphatize(word), stop, RootFrame(e.alphaTrie, stop), rule, []);
  }

  /** With the intended skip rule, every alphagram returned sorts no later
      than the stop alphagram. */
  lemma AlphagramsWithinStop(e: AnagramR, word: Word, stop: Option<Word>, x: Word)
    requires WellFormed(e.alphaTrie) && x in Alphagrams(e, word, stop, Intended)
    ensures stop.None? || WordOrder.Le(x, stop.value)
  {
    IntendedWithinStop(Alphatize(word), stop, RootFrame(e.alphaTrie, stop), []);
  }

  /** A stop bound only takes alphagrams away: whatever the bounded walk
      records, the unbounded one records too. */
  lemma StopSubset(e: AnagramR, word: Word, stop: Option<Word>, rule: SkipRule, x: Word)
    requires WellFormed(e.alphaTrie) && x in Alphagrams(e, word, stop, rule)
    ensures x in Alphagrams(e, word, None, rule)
  {
    AlphagramsTrie(e, word, stop, rule);
    AlphagramsTrie(e, word, None, rule);
  }

  /** The same in terms of the index: the stored alphagrams are the
      non-empty keys. */
  lemma AlphagramsSpec(e: AnagramR, dict: seq<Word>, word: Word, stop: Option<Word>, rule: SkipRule)
    requires Inv(e, dict)
    ensures forall x :: x in Alphagrams(e, word, stop, rule) ==>
              x != [] && x in e.alphaToWords && Sorted(x) && multiset(x) <= multiset(word)
    ensures forall x :: x != [] && x in e.alphaToWords && multiset(x) <= multiset(word)
                        && (stop.None? || WordOrder.Le(x, stop.value))
                        ==> x in Alphagrams(e, word, stop, rule)
    ensures NoDup(Alphagrams(e, word, stop, rule))
  {
    AlphagramsTrie(e, word, stop, rule);
    forall x | x in e.alphaToWords
      ensures Sorted(x)
    {
      KeysSorted(e, dict, x);
    }
  }

  /** The id lists of the given alphagrams, concatenated (the `flat_map` of
      `anagrams_helper`). */
  function Gather(m: map<Word, seq<Id>>, alphas: seq<Word>): (r: seq<Id>)
    requires forall a :: a in alphas ==> a in m
    ensures forall j :: j in r <==> exists a :: a in alphas && j in m[a]
  {
    if alphas == [] then []
    else m[alphas[0]] + Gather(m, alphas[1..])
  }

  /** Distinct alphagrams have disjoint id lists, so gathering a list
      without repeats repeats no id. */
  lemma {:induction false} GatherNoDup(e: AnagramR, dict: seq<Word>, alphas: seq<Word>)
    requires Inv(e, dict) && NoDup(alphas)
    requires forall a :: a in alphas ==> a in e.alphaToWords
    ensures NoDup(Gather(e.alphaToWords, alphas))
    decreases |alphas|
  {
    if alphas != [] {
      var m := e.alphaToWords;
      var a := alphas[0];
      assert NoDup(alphas[1..]) by {
        assert forall i, j :: 0 <= i < j < |alphas[1..]| ==> alphas[1..][i] == alphas[i + 1] && alphas[1..][j] == alphas[j + 1];
      }
      GatherNoDup(e, dict, alphas[1..]);
      IdsOfSpec(dict, a);
      forall j | j in m[a]
        ensures j !in Gather(m, alphas[1..])
      {
        if j in Gather(m, alphas[1..]) {
          var b :| b in alphas[1..] && j in m[b];
          IdsOfSpec(dict, b);
        }
      }
      NoDupConcat(m[a], Gather(m, alphas[1..]));
    }
  }

  /** `AnagramR::anagrams_helper`: the ids of the words of every alphagram
      the walk records. Each id's word fits in `word`; every word that fits
      and whose alphagram sorts no later than `stop` is there; no id twice. */
  method AnagramsHelper(e: AnagramR, ghost dict: seq<Word>, word: Word, stop: Option<Word>) returns (r: seq<Id>)
    requires Inv(e, dict)
    ensures forall j :: j in r ==>
              j < |dict| && dict[j] != [] && multiset(dict[j]) <= multiset(word)
    ensures forall j: nat :: j < |dict| && dict[j] != [] && multiset(dict[j]) <= multiset(word)
                        && (stop.None? || WordOrder.Le(Alphatize(dict[j]), stop.value))
                        ==> j in r
    ensures NoDup(r)
  {
    var alphas := AlphagramsHelper(e, word, stop);
    AlphagramsSpec(e, dict, word, stop, AsWritten);
    r := Gather(e.alphaToWords, alphas);
    GatherNoDup(e, dict, alphas);
    forall j | j in r
      ensures j < |dict| && dict[j] != [] && multiset(dict[j]) <= multiset(word)
    {
      var a :| a in alphas && j in e.alphaToWords[a];
      IdsOfSpec(dict, a);
    }
    forall j: nat | j < |dict| && dict[j] != [] && multiset(dict[j]) <= multiset(word)
               && (stop.None? || WordOrder.Le(Alphatize(dict[j]), stop.value))
      ensures j in r
    {
      var a := Alphatize(dict[j]);
      IdsOfSpec(dict, a);
      assert j in IdsOf(dict, a);
      assert a != [] by {
        assert |a| == |multiset(a)| == |multiset(dict[j])| == |dict[j]|;
      }
      assert a in alphas;
    }
  }

  /** `AnagramR::anagrams`: exactly the non-empty dictionary words whose
      letters all fit in `word`, each once. */
  method Anagrams(e: AnagramR, ghost dict: seq<Word>, word: Word) returns (r: seq<Id>)
    requires Inv(e, dict)
    ensures forall j: nat :: j in r <==>
              j < |dict| && dict[j] != [] && multiset(dict[j]) <= multiset(word)
    ensures NoDup(r)
  {
    r := AnagramsHelper(e, dict, word, None);
  }

  /** The trie stores the one-letter alphagrams `a`, `b` and `c`. */
  ghost predicate StoresAbc(root: Trie) {
    WellFormed(root) && StoredAt(root, [0]) && StoredAt(root, [1]) && StoredAt(root, [2])
  }

  /** In the dictionary `a`, `b`, `c`, each word is its own alphagram's only
      entry. */
  lemma ThreeLetterIds()
    ensures 0 in IdsOf([[0], [1], [2]], [0])
    ensures 1 in IdsOf([[0], [1], [2]], [1])
    ensures 2 in IdsOf([[0], [1], [2]], [2])
  {
    AlphatizeSorted([0]);
    AlphatizeSorted([1]);
    AlphatizeSorted([2]);
    var dict: seq<Word> := [[0], [1], [2]];
    IdsOfMembers(dict, [0]);
    IdsOfMembers(dict, [1]);
    IdsOfMembers(dict, [2]);
  }

  /** The index built from the dictionary `a`, `b`, `c` stores all three. */
  lemma ThreeLetterTrie(e: AnagramR)
    requires Inv(e, [[0], [1], [2]])
    ensures StoresAbc(e.alphaTrie)
  {
    ThreeLetterIds();
  }

  /** The walk for the word `ac` with the stop alphagram `b`, under the skip
      rule as written, reaches `c`. */
  lemma OvershootWalk(root: Trie)
    requires StoresAbc(root)
    ensures [2] in Walk([0, 2], Some([1]), RootFrame(root, Some([1])), AsWritten)
  {
    var target: Word := [0, 2];
    var stop := Some([1]);
    var top := RootFrame(root, stop);
    assert Pushes(target, stop, top);
    var skip := SkipFrame(target, stop, top, AsWritten);
    assert RunEnd(target, 0) == 1;
    assert skip.less && skip.index == 1;
    assert target[1..] == [2] && [] + [2] == [2];
    WalkComplete(target, stop, skip, AsWritten, [], [2]);
    WalkUnfold(target, stop, top, AsWritten);
  }

  /** The stop bound as written lets the walk record an alphagram that sorts
      after it: with the dictionary `a`, `b`, `c`, the word `ac` and the stop
      alphagram `b`, the walk records `c`. */
  lemma StopOvershoot(e: AnagramR)
    requires StoresAbc(e.alphaTrie)
    ensures [2] in Alphagrams(e, [0, 2], Some([1]), AsWritten)
    ensures WordOrder.Compare([2], [1]) == WordOrder.Greater
  {
    AlphatizeSorted([0, 2]);
    OvershootWalk(e.alphaTrie);
  }

  /** With the intended skip rule the same walk records `a` and not `c`. */
  lemma StopRespected(e: AnagramR)
    requires StoresAbc(e.alphaTrie)
    ensures [2] !in Alphagrams(e, [0, 2], Some([1]), Intended)
    ensures [0] in Alphagrams(e, [0, 2], Some([1]), Intended)
  {
    AlphatizeSorted([0, 2]);
    RespectWalk(e.alphaTrie);
  }

  lemma RespectWalk(root: Trie)
    requires StoresAbc(root)
    ensures [2] !in Walk([0, 2], Some([1]), RootFrame(root, Some([1])), Intended)
    ensures [0] in Walk([0, 2], Some([1]), RootFrame(root, Some([1])), Intended)
  {
    var target: Word := [0, 2];
    var stop := Some([1]);
    var top := RootFrame(root, stop);
    assert WordOrder.IsPrefix([], [1]);
    IntendedWithinStop(target, stop, top, []);
    assert target[0..] == target && [] + [0] == [0];
    assert multiset([0]) <= multiset(target);
    WalkComplete(target, stop, top, Intended, [], [0]);
  }
}
