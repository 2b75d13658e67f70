/** The first phase of `AnagramR::multigrams` (src/anagram.rs:143-161):
    every list of alphagrams that together use up the word's letters, each
    list continued only with alphagrams found by a walk bounded by the list's
    last alphagram. */
module ListSearch {
  import opened Prelude
  import opened Words
  import opened Alphagram
  import opened Tries
  import opened TrieWalk
  import opened Engine
  import WordOrder

  // ---------------------------------------------------------------------
  // Lists of alphagrams
  // ---------------------------------------------------------------------

  /** All the letters of a list of alphagrams. */
  function Bag(list: seq<Word>): multiset<Letter>
    decreases |list|
  {
    if list == [] then multiset{} else Bag(list[..|list| - 1]) + multiset(list[|list| - 1])
  }

  lemma BagSnoc(list: seq<Word>, x: Word)
    ensures Bag(list + [x]) == Bag(list) + multiset(x)
  {
    assert (list + [x])[..|list|] == list;
  }

  lemma {:induction false} BagCons(list: seq<Word>)
    requires list != []
    ensures Bag(list) == multiset(list[0]) + Bag(list[1..])
    decreases |list|
  {
    if |list| > 1 {
      var init := list[..|list| - 1];
      BagCons(init);
      assert init[1..] == list[1..][..|list[1..]| - 1];
    }
  }

  /** Each alphagram sorts no later than the one before it. */
  ghost predicate Descending(list: seq<Word>) {
    forall i :: 0 < i < |list| ==> WordOrder.Le(list[i], list[i - 1])
  }

  /** `a` can stand in a list: a non-empty alphagram stored in the trie. */
  ghost predicate Usable(root: Trie, a: Word) {
    a != [] && StoredAt(root, a) && Sorted(a)
  }

  /** `word_limit.is_none() || n < word_limit.unwrap()`. */
  predicate UnderLimit(limit: Option<nat>, n: nat) {
    limit.None? || n < limit.value
  }

  /** What the first phase is to produce: lists of usable alphagrams whose
      letters are exactly `letters`, no longer than the limit allows (a list
      of one alphagram is always allowed; the limit only stops a list from
      being continued). */
  ghost predicate Covers(root: Trie, limit: Option<nat>, letters: multiset<Letter>, list: seq<Word>) {
    && list != []
    && (forall i :: 0 <= i < |list| ==> Usable(root, list[i]))
    && Bag(list) == letters
    && (|list| == 1 || UnderLimit(limit, |list| - 1))
  }

  // ---------------------------------------------------------------------
  // The first phase
  // ---------------------------------------------------------------------

  /** One entry of the first stack: the letters still to cover, and the
      alphagrams chosen so far. */
  datatype State = State(left: Word, chosen: seq<Word>)

  /** `current.last().copied()`: the stop alphagram of the next walk. */
  function Last(chosen: seq<Word>): (r: Option<Word>)
    ensures r.Some? <==> chosen != []
    ensures r.Some? ==> r.value == chosen[|chosen| - 1]
  {
    if chosen == [] then None else Some(chosen[|chosen| - 1])
  }

  /** The state a candidate alphagram leads to. */
  function Advance(st: State, x: Word): State {
    State(Subtract(st.left, x), st.chosen + [x])
  }

  /** The walk a state starts: the alphagrams that may come next. */
  function Candidates(e: AnagramR, st: State, rule: SkipRule): seq<Word>
    requires WellFormed(e.alphaTrie)
  {
    Alphagrams(e, st.left, Last(st.chosen), rule)
  }

  /** Every candidate is a usable alphagram within the letters left. */
  lemma CandidatesSpec(e: AnagramR, st: State, rule: SkipRule)
    requires WellFormed(e.alphaTrie)
    ensures forall x :: x in Candidates(e, st, rule) ==>
              Usable(e.alphaTrie, x) && multiset(x) <= multiset(st.left)
  {
    AlphagramsTrie(e, st.left, Last(st.chosen), rule);
  }

  /** The lists the inner `for` loop records: a candidate that uses up the
      remaining letters completes the list. */
  function Finished(st: State, cands: seq<Word>): seq<seq<Word>>
    decreases |cands|
  {
    if cands == [] then []
    else
      var x := cands[|cands| - 1];
      Finished(st, cands[..|cands| - 1]) + if Subtract(st.left, x) == [] then [st.chosen + [x]] else []
  }

  /** The states the inner `for` loop pushes: a candidate that leaves letters
      over continues the list, while the limit allows a longer one. */
  function Pushed(st: State, cands: seq<Word>, limit: Option<nat>): seq<State>
    decreases |cands|
  {
    if cands == [] then []
    else
      var x := cands[|cands| - 1];
      Pushed(st, cands[..|cands| - 1], limit)
      + if Subtract(st.left, x) != [] && UnderLimit(limit, |st.chosen| + 1) then [Advance(st, x)] else []
  }

  lemma {:induction false} PushedFrom(st: State, cands: seq<Word>, limit: Option<nat>)
    ensures forall s :: s in Pushed(st, cands, limit) ==>
              exists x :: x in cands && s == Advance(st, x)
                          && Subtract(st.left, x) != [] && UnderLimit(limit, |st.chosen| + 1)
    decreases |cands|
  {
    if cands != [] {
      var init := cands[..|cands| - 1];
      PushedFrom(st, init, limit);
      forall s | s in Pushed(st, cands, limit)
        ensures exists x :: x in cands && s == Advance(st, x)
                            && Subtract(st.left, x) != [] && UnderLimit(limit, |st.chosen| + 1)
      {
        if s in Pushed(st, init, limit) {
          var x :| x in init && s == Advance(st, x)
                   && Subtract(st.left, x) != [] && UnderLimit(limit, |st.chosen| + 1);
          assert x in cands;
        } else {
          assert s == Advance(st, cands[|cands| - 1]);
        }
      }
    }
  }

  lemma {:induction false} FinishedFrom(st: State, cands: seq<Word>)
    ensures forall l :: l in Finished(st, cands) ==>
              exists x :: x in cands && l == st.chosen + [x] && Subtract(st.left, x) == []
    decreases |cands|
  {
    if cands != [] {
      var init := cands[..|cands| - 1];
      FinishedFrom(st, init);
      forall l | l in Finished(st, cands)
        ensures exists x :: x in cands && l == st.chosen + [x] && Subtract(st.left, x) == []
      {
        if l in Finished(st, init) {
          var x :| x in init && l == st.chosen + [x] && Subtract(st.left, x) == [];
          assert x in cands;
        } else {
          assert l == st.chosen + [cands[|cands| - 1]];
        }
      }
    }
  }

  /** A candidate's state has fewer letters left. */
  lemma AdvanceShrinks(st: State, x: Word)
    requires Sorted(st.left) && Sorted(x) && x != [] && multiset(x) <= multiset(st.left)
    ensures Sorted(Advance(st, x).left)
    ensures |Advance(st, x).left| < |st.left|
    ensures multiset(Advance(st, x).left) == multiset(st.left) - multiset(x)
  {
    SubtractSpec(st.left, x);
  }

  lemma PushedShrink(e: AnagramR, st: State, rule: SkipRule, limit: Option<nat>)
    requires WellFormed(e.alphaTrie) && Sorted(st.left)
    ensures forall k :: 0 <= k < |Pushed(st, Candidates(e, st, rule), limit)| ==>
              && Sorted(Pushed(st, Candidates(e, st, rule), limit)[k].left)
              && |Pushed(st, Candidates(e, st, rule), limit)[k].left| < |st.left|
  {
    var cands := Candidates(e, st, rule);
    var ps := Pushed(st, cands, limit);
    PushedFrom(st, cands, limit);
    CandidatesSpec(e, st, rule);
    forall k | 0 <= k < |ps|
      ensures Sorted(ps[k].left) && |ps[k].left| < |st.left|
    {
      assert ps[k] in ps;
      var x :| x in cands && ps[k] == Advance(st, x);
      AdvanceShrinks(st, x);
    }
  }

  /** Every list the first phase records from state `st`, in the order the
      source's stack produces them: the lists `st` completes, then those of
      the states it pushed, the last pushed first. */
  function Explore(e: AnagramR, limit: Option<nat>, rule: SkipRule, st: State): seq<seq<Word>>
    requires WellFormed(e.alphaTrie) && Sorted(st.left)
    decreases |st.left|, 1, 0
  {
    var cands := Candidates(e, st, rule);
    PushedShrink(e, st, rule, limit);
    Finished(st, cands) + ExploreStack(e, limit, rule, |st.left|, Pushed(st, cands, limit))
  }

  /** The lists recorded from a stack of states, popped from the top (the
      end) down. `bound` exceeds the letters left in every state. */
  function ExploreStack(e: AnagramR, limit: Option<nat>, rule: SkipRule, bound: nat, stack: seq<State>): seq<seq<Word>>
    requires WellFormed(e.alphaTrie)
    requires forall k :: 0 <= k < |stack| ==> Sorted(stack[k].left) && |stack[k].left| < bound
    decreases bound, 0, |stack|
  {
    if stack == [] then []
    else
      var top := |stack| - 1;
      Explore(e, limit, rule, stack[top]) + ExploreStack(e, limit, rule, bound, stack[..top])
  }

  // ---------------------------------------------------------------------
  // Soundness of the first phase
  // ---------------------------------------------------------------------

  /** What holds of every state the first phase visits, for the word with
      letters `letters`: the chosen alphagrams and the letters left make up
      the word, every chosen alphagram is usable, a non-empty choice was
      within the limit when it was pushed, and with the intended skip rule
      the choice is descending. */
  ghost predicate Good(root: Trie, limit: Option<nat>, rule: SkipRule, letters: multiset<Letter>, st: State) {
    && Sorted(st.left)
    && Bag(st.chosen) + multiset(st.left) == letters
    && (forall i :: 0 <= i < |st.chosen| ==> Usable(root, st.chosen[i]))
    && (st.chosen == [] || UnderLimit(limit, |st.chosen|))
    && (rule == Intended ==> Descending(st.chosen))
  }

  /** A completed list meets the requirements, and with the intended skip
      rule it is descending. */
  ghost predicate Record(root: Trie, limit: Option<nat>, rule: SkipRule, letters: multiset<Letter>, list: seq<Word>) {
    Covers(root, limit, letters, list) && (rule == Intended ==> Descending(list))
  }

  /** Taking a candidate keeps the state good. */
  lemma AdvanceGood(e: AnagramR, limit: Option<nat>, rule: SkipRule, letters: multiset<Letter>, st: State, x: Word)
    requires WellFormed(e.alphaTrie) && Good(e.alphaTrie, limit, rule, letters, st)
    requires x in Candidates(e, st, rule)
    requires UnderLimit(limit, |st.chosen| + 1)
    ensures Good(e.alphaTrie, limit, rule, letters, Advance(st, x))
  {
    CandidatesSpec(e, st, rule);
    assert Usable(e.alphaTrie, x) && multiset(x) <= multiset(st.left);
    AdvanceShrinks(st, x);
    AdvanceLetters(st, x);
    SnocUsable(e.alphaTrie, st.chosen, x);
    if rule == Intended {
      AdvanceDescending(e, st, x);
    }
  }

  lemma SnocUsable(root: Trie, chosen: seq<Word>, x: Word)
    requires forall i :: 0 <= i < |chosen| ==> Usable(root, chosen[i])
    requires Usable(root, x)
    ensures forall i :: 0 <= i < |chosen + [x]| ==> Usable(root, (chosen + [x])[i])
  {
  }

  lemma AdvanceLetters(st: State, x: Word)
    requires Sorted(st.left) && Sorted(x) && x != [] && multiset(x) <= multiset(st.left)
    ensures Bag(Advance(st, x).chosen) + multiset(Advance(st, x).left) == Bag(st.chosen) + multiset(st.left)
  {
    AdvanceShrinks(st, x);
    BagSnoc(st.chosen, x);
    assert multiset(x) + (multiset(st.left) - multiset(x)) == multiset(st.left);
  }

  lemma AdvanceDescending(e: AnagramR, st: State, x: Word)
    requires WellFormed(e.alphaTrie) && Descending(st.chosen)
    requires x in Candidates(e, st, Intended)
    ensures Descending(st.chosen + [x])
  {
    CandidateWithinLast(e, st, x);
    var l := st.chosen + [x];
    forall i | 0 < i < |l|
      ensures WordOrder.Le(l[i], l[i - 1])
    {
      if i < |st.chosen| {
        assert l[i] == st.chosen[i] && l[i - 1] == st.chosen[i - 1];
      }
    }
  }

  /** With the intended skip rule, a candidate sorts no later than the last
      choice. */
  lemma CandidateWithinLast(e: AnagramR, st: State, x: Word)
    requires WellFormed(e.alphaTrie) && x in Candidates(e, st, Intended)
    ensures st.chosen == [] || WordOrder.Le(x, st.chosen[|st.chosen| - 1])
  {
    AlphagramsWithinStop(e, st.left, Last(st.chosen), x);
  }

  /** A candidate that uses up the letters completes a good record. */
  lemma FinishGood(e: AnagramR, limit: Option<nat>, rule: SkipRule, letters: multiset<Letter>, st: State, x: Word)
    requires WellFormed(e.alphaTrie) && Good(e.alphaTrie, limit, rule, letters, st)
    requires x in Candidates(e, st, rule) && Subtract(st.left, x) == []
    ensures Record(e.alphaTrie, limit, rule, letters, st.chosen + [x])
  {
    CandidatesSpec(e, st, rule);
    AdvanceLetters(st, x);
    var l := st.chosen + [x];
    assert forall i :: 0 <= i < |st.chosen| ==> l[i] == st.chosen[i];
    if rule == Intended {
      AdvanceDescending(e, st, x);
    }
  }

  lemma {:induction false} ExploreSound(e: AnagramR, limit: Option<nat>, rule: SkipRule, letters: multiset<Letter>, st: State)
    requires WellFormed(e.alphaTrie) && Good(e.alphaTrie, limit, rule, letters, st)
    ensures forall l :: l in Explore(e, limit, rule, st) ==> Record(e.alphaTrie, limit, rule, letters, l)
    decreases |st.left|, 1, 0
  {
    var cands := Candidates(e, st, rule);
    PushedShrink(e, st, rule, limit);
    var ps := Pushed(st, cands, limit);
    FinishedFrom(st, cands);
    forall l | l in Finished(st, cands)
      ensures Record(e.alphaTrie, limit, rule, letters, l)
    {
      var x :| x in cands && l == st.chosen + [x] && Subtract(st.left, x) == [];
      FinishGood(e, limit, rule, letters, st, x);
    }
    PushedFrom(st, cands, limit);
    forall k | 0 <= k < |ps|
      ensures Good(e.alphaTrie, limit, rule, letters, ps[k])
    {
      assert ps[k] in ps;
      var x :| x in cands && ps[k] == Advance(st, x) && UnderLimit(limit, |st.chosen| + 1);
      AdvanceGood(e, limit, rule, letters, st, x);
    }
    ExploreStackSound(e, limit, rule, letters, |st.left|, ps);
  }

  lemma {:induction false} ExploreStackSound(e: AnagramR, limit: Option<nat>, rule: SkipRule, letters: multiset<Letter>, bound: nat, stack: seq<State>)
    requires WellFormed(e.alphaTrie)
    requires forall k :: 0 <= k < |stack| ==> Sorted(stack[k].left) && |stack[k].left| < bound
    requires forall k :: 0 <= k < |stack| ==> Good(e.alphaTrie, limit, rule, letters, stack[k])
    ensures forall l :: l in ExploreStack(e, limit, rule, bound, stack) ==> Record(e.alphaTrie, limit, rule, letters, l)
    decreases bound, 0, |stack|
  {
    if stack != [] {
      var top := |stack| - 1;
      ExploreSound(e, limit, rule, letters, stack[top]);
      ExploreStackSound(e, limit, rule, letters, bound, stack[..top]);
    }
  }

  // ---------------------------------------------------------------------
  // Completeness of the first phase
  // ---------------------------------------------------------------------

  lemma {:induction false} FinishedHas(st: State, cands: seq<Word>, x: Word)
    requires x in cands && Subtract(st.left, x) == []
    ensures st.chosen + [x] in Finished(st, cands)
    decreases |cands|
  {
    var init := cands[..|cands| - 1];
    if x != cands[|cands| - 1] {
      assert x in init by {
        var k :| 0 <= k < |cands| && cands[k] == x;
        assert init[k] == x;
      }
      FinishedHas(st, init, x);
    }
  }

  lemma {:induction false} PushedHas(st: State, cands: seq<Word>, limit: Option<nat>, x: Word)
    requires x in cands && Subtract(st.left, x) != [] && UnderLimit(limit, |st.chosen| + 1)
    ensures Advance(st, x) in Pushed(st, cands, limit)
    decreases |cands|
  {
    var init := cands[..|cands| - 1];
    if x != cands[|cands| - 1] {
      assert x in init by {
        var k :| 0 <= k < |cands| && cands[k] == x;
        assert init[k] == x;
      }
      PushedHas(st, init, limit, x);
    }
  }

  lemma {:induction false} ExploreStackHas(e: AnagramR, limit: Option<nat>, rule: SkipRule, bound: nat, stack: seq<State>, s: State, l: seq<Word>)
    requires WellFormed(e.alphaTrie)
    requires forall k :: 0 <= k < |stack| ==> Sorted(stack[k].left) && |stack[k].left| < bound
    requires s in stack && Sorted(s.left) && l in Explore(e, limit, rule, s)
    ensures l in ExploreStack(e, limit, rule, bound, stack)
    decreases |stack|
  {
    var top := |stack| - 1;
    if s != stack[top] {
      assert s in stack[..top] by {
        var k :| 0 <= k < |stack| && stack[k] == s;
        assert stack[..top][k] == s;
      }
      ExploreStackHas(e, limit, rule, bound, stack[..top], s, l);
    }
  }

  lemma EmptyBag(w: Word)
    requires multiset(w) == multiset{}
    ensures w == []
  {
    assert |w| == |multiset(w)|;
  }

  /** The walk offers every usable alphagram within the letters left that
      sorts no later than the last choice. */
  lemma CandidateHas(e: AnagramR, rule: SkipRule, st: State, x: Word)
    requires WellFormed(e.alphaTrie) && Usable(e.alphaTrie, x) && multiset(x) <= multiset(st.left)
    requires st.chosen == [] || WordOrder.Le(x, st.chosen[|st.chosen| - 1])
    ensures x in Candidates(e, st, rule)
  {
    AlphagramsHas(e, st.left, Last(st.chosen), rule, x);
  }

  lemma ExploreHasFinished(e: AnagramR, limit: Option<nat>, rule: SkipRule, st: State, x: Word)
    requires WellFormed(e.alphaTrie) && Sorted(st.left)
    requires x in Candidates(e, st, rule) && Subtract(st.left, x) == []
    ensures st.chosen + [x] in Explore(e, limit, rule, st)
  {
    FinishedHas(st, Candidates(e, st, rule), x);
  }

  lemma ExploreHasChild(e: AnagramR, limit: Option<nat>, rule: SkipRule, st: State, x: Word, l: seq<Word>)
    requires WellFormed(e.alphaTrie) && Sorted(st.left)
    requires x in Candidates(e, st, rule) && Subtract(st.left, x) != [] && UnderLimit(limit, |st.chosen| + 1)
    requires Sorted(Advance(st, x).left) && l in Explore(e, limit, rule, Advance(st, x))
    ensures l in Explore(e, limit, rule, st)
  {
    var cands := Candidates(e, st, rule);
    PushedHas(st, cands, limit, x);
    PushedShrink(e, st, rule, limit);
    ExploreStackHas(e, limit, rule, |st.left|, Pushed(st, cands, limit), Advance(st, x), l);
  }

  lemma TailDescending(m: seq<Word>)
    requires |m| > 1 && Descending(m)
    ensures Descending(m[1..]) && WordOrder.Le(m[1], m[0])
  {
    forall i | 0 < i < |m[1..]|
      ensures WordOrder.Le(m[1..][i], m[1..][i - 1])
    {
      assert m[1..][i] == m[i + 1] && m[1..][i - 1] == m[i];
    }
  }

  /** From a state whose letters are exactly those of a descending list `m`
      of usable alphagrams starting no later than the last choice, the first
      phase records the choice followed by `m`, if the limit allows. This
      holds for both skip rules. */
  lemma {:induction false} ExploreComplete(e: AnagramR, limit: Option<nat>, rule: SkipRule, st: State, m: seq<Word>)
    requires WellFormed(e.alphaTrie) && Sorted(st.left)
    requires m != [] && (forall i :: 0 <= i < |m| ==> Usable(e.alphaTrie, m[i])) && Descending(m)
    requires Bag(m) == multiset(st.left)
    requires st.chosen == [] || WordOrder.Le(m[0], st.chosen[|st.chosen| - 1])
    requires |m| == 1 || UnderLimit(limit, |st.chosen| + |m| - 1)
    ensures st.chosen + m in Explore(e, limit, rule, st)
    decreases |st.left|, 2
  {
    if |m| == 1 {
      ExploreCompleteOne(e, limit, rule, st, m);
    } else {
      ExploreCompleteStep(e, limit, rule, st, m);
    }
  }

  /** The head of the list is a candidate of the walk. */
  lemma HeadCandidate(e: AnagramR, rule: SkipRule, st: State, m: seq<Word>)
    requires WellFormed(e.alphaTrie) && Sorted(st.left)
    requires m != [] && Usable(e.alphaTrie, m[0]) && Bag(m) == multiset(st.left)
    requires st.chosen == [] || WordOrder.Le(m[0], st.chosen[|st.chosen| - 1])
    ensures m[0] in Candidates(e, st, rule)
  {
    BagCons(m);
    CandidateHas(e, rule, st, m[0]);
  }

  /** A list of one alphagram: it uses up the letters, so it is recorded as
      soon as the walk offers it. */
  lemma ExploreCompleteOne(e: AnagramR, limit: Option<nat>, rule: SkipRule, st: State, m: seq<Word>)
    requires WellFormed(e.alphaTrie) && Sorted(st.left)
    requires |m| == 1 && Usable(e.alphaTrie, m[0])
    requires Bag(m) == multiset(st.left)
    requires st.chosen == [] || WordOrder.Le(m[0], st.chosen[|st.chosen| - 1])
    ensures st.chosen + m in Explore(e, limit, rule, st)
  {
    OneFacts(st, m);
    HeadCandidate(e, rule, st, m);
    ExploreHasFinished(e, limit, rule, st, m[0]);
  }

  lemma OneFacts(st: State, m: seq<Word>)
    requires Sorted(st.left) && |m| == 1 && Sorted(m[0]) && m[0] != []
    requires Bag(m) == multiset(st.left)
    ensures Subtract(st.left, m[0]) == [] && m == [m[0]]
  {
    BagCons(m);
    assert m[1..] == [];
    AdvanceShrinks(st, m[0]);
    EmptyBag(Advance(st, m[0]).left);
  }

  /** Choosing the head of a list of two or more leaves exactly the letters
      of its tail. */
  lemma StepLetters(st: State, m: seq<Word>)
    requires Sorted(st.left)
    requires |m| > 1 && Sorted(m[0]) && m[0] != [] && m[1] != []
    requires Bag(m) == multiset(st.left)
    ensures Subtract(st.left, m[0]) != [] && Sorted(Advance(st, m[0]).left)
    ensures |Advance(st, m[0]).left| < |st.left|
    ensures Bag(m[1..]) == multiset(Advance(st, m[0]).left)
  {
    var rest := m[1..];
    var left := Subtract(st.left, m[0]);
    BagCons(m);
    AdvanceShrinks(st, m[0]);
    assert multiset(left) == Bag(rest) by {
      MinusPlus(multiset(m[0]), Bag(rest));
    }
    BagCons(rest);
    assert rest[0] == m[1];
    assert m[1][0] in multiset(left);
  }

  lemma MinusPlus(a: multiset<Letter>, b: multiset<Letter>)
    ensures (a + b) - a == b
  {
    assert forall y :: ((a + b) - a)[y] == b[y];
  }

  /** The tail of a descending list of usable alphagrams is one too, and
      starts no later than the head. */
  lemma StepList(root: Trie, m: seq<Word>)
    requires |m| > 1 && (forall i :: 0 <= i < |m| ==> Usable(root, m[i])) && Descending(m)
    ensures forall i :: 0 <= i < |m[1..]| ==> Usable(root, m[1..][i])
    ensures Descending(m[1..]) && WordOrder.Le(m[1..][0], m[0])
  {
    forall i | 0 <= i < |m[1..]|
      ensures Usable(root, m[1..][i])
    {
      assert m[1..][i] == m[i + 1];
    }
    TailDescending(m);
  }

  /** A list of two or more: the first alphagram leaves letters over, so its
      state is pushed and the rest is found from there. */
  lemma {:induction false} ExploreCompleteStep(e: AnagramR, limit: Option<nat>, rule: SkipRule, st: State, m: seq<Word>)
    requires WellFormed(e.alphaTrie) && Sorted(st.left)
    requires |m| > 1 && (forall i :: 0 <= i < |m| ==> Usable(e.alphaTrie, m[i])) && Descending(m)
    requires Bag(m) == multiset(st.left)
    requires st.chosen == [] || WordOrder.Le(m[0], st.chosen[|st.chosen| - 1])
    requires UnderLimit(limit, |st.chosen| + |m| - 1)
    ensures st.chosen + m in Explore(e, limit, rule, st)
    decreases |st.left|, 1
  {
    HeadCandidate(e, rule, st, m);
    ExploreCompleteTail(e, limit, rule, st, m);
    ExploreHasChild(e, limit, rule, st, m[0], st.chosen + m);
  }

  /** The tail of the list is found from the state its head leads to. */
  lemma {:induction false} ExploreCompleteTail(e: AnagramR, limit: Option<nat>, rule: SkipRule, st: State, m: seq<Word>)
    requires WellFormed(e.alphaTrie) && Sorted(st.left)
    requires |m| > 1 && (forall i :: 0 <= i < |m| ==> Usable(e.alphaTrie, m[i])) && Descending(m)
    requires Bag(m) == multiset(st.left)
    requires UnderLimit(limit, |st.chosen| + |m| - 1)
    ensures Subtract(st.left, m[0]) != [] && Sorted(Advance(st, m[0]).left)
    ensures UnderLimit(limit, |st.chosen| + 1)
    ensures st.chosen + m in Explore(e, limit, rule, Advance(st, m[0]))
    decreases |st.left|, 0
  {
    assert Usable(e.alphaTrie, m[0]) && Usable(e.alphaTrie, m[1]);
    StepLetters(st, m);
    StepList(e.alphaTrie, m);
    ChosenSplit(st.chosen, m);
    ExploreComplete(e, limit, rule, Advance(st, m[0]), m[1..]);
  }

  lemma ChosenSplit(chosen: seq<Word>, m: seq<Word>)
    requires m != []
    ensures (chosen + [m[0]])[|chosen + [m[0]]| - 1] == m[0]
    ensures chosen + [m[0]] + m[1..] == chosen + m
  {
    assert m == [m[0]] + m[1..];
    Assoc3(chosen, [m[0]], m[1..]);
  }

  // ---------------------------------------------------------------------
  // The first phase from the start
  // ---------------------------------------------------------------------
  // Each list is recorded once
  // ---------------------------------------------------------------------

  /** A list recorded from a stack comes from one of its states. */
  lemma {:induction false} ExploreStackFrom(e: AnagramR, limit: Option<nat>, rule: SkipRule, bound: nat, stack: seq<State>, l: seq<Word>)
    requires WellFormed(e.alphaTrie)
    requires forall k :: 0 <= k < |stack| ==> Sorted(stack[k].left) && |stack[k].left| < bound
    requires l in ExploreStack(e, limit, rule, bound, stack)
    ensures exists k :: 0 <= k < |stack| && l in Explore(e, limit, rule, stack[k])
    decreases |stack|
  {
    var top := |stack| - 1;
    if l !in Explore(e, limit, rule, stack[top]) {
      ExploreStackFrom(e, limit, rule, bound, stack[..top], l);
      var k :| 0 <= k < top && l in Explore(e, limit, rule, stack[..top][k]);
      assert stack[..top][k] == stack[k];
    }
  }

  /** Every list recorded from a state continues that state's choice by at
      least one more alphagram. */
  lemma {:induction false} ExplorePrefix(e: AnagramR, limit: Option<nat>, rule: SkipRule, st: State, l: seq<Word>)
    requires WellFormed(e.alphaTrie) && Sorted(st.left)
    requires l in Explore(e, limit, rule, st)
    ensures |l| > |st.chosen| && l[..|st.chosen|] == st.chosen
    decreases |st.left|, 1
  {
    var cands := Candidates(e, st, rule);
    if l in Finished(st, cands) {
      FinishedPrefix(st, cands, l);
    } else {
      PushedPrefix(e, limit, rule, st, l);
    }
  }

  /** A completed list is the state's choice and one more alphagram. */
  lemma FinishedPrefix(st: State, cands: seq<Word>, l: seq<Word>)
    requires l in Finished(st, cands)
    ensures |l| == |st.chosen| + 1 && l[..|st.chosen|] == st.chosen
  {
    FinishedFrom(st, cands);
    var x :| x in cands && l == st.chosen + [x] && Subtract(st.left, x) == [];
    assert l[..|st.chosen|] == st.chosen;
  }

  lemma {:induction false} PushedPrefix(e: AnagramR, limit: Option<nat>, rule: SkipRule, st: State, l: seq<Word>)
    requires WellFormed(e.alphaTrie) && Sorted(st.left)
    requires l in Explore(e, limit, rule, st) && l !in Finished(st, Candidates(e, st, rule))
    ensures |l| > |st.chosen| && l[..|st.chosen|] == st.chosen
    decreases |st.left|, 0
  {
    var cands := Candidates(e, st, rule);
    var ps := Pushed(st, cands, limit);
    PushedShrink(e, st, rule, limit);
    ExploreStackFrom(e, limit, rule, |st.left|, ps, l);
    var k :| 0 <= k < |ps| && l in Explore(e, limit, rule, ps[k]);
    PushedFrom(st, cands, limit);
    assert ps[k] in ps;
    var x :| x in cands && ps[k] == Advance(st, x);
    assert ps[k].chosen == st.chosen + [x];
    ExplorePrefix(e, limit, rule, ps[k], l);
    ChildPrefix(l, st.chosen, ps[k].chosen, x);
  }

  /** What continues a child's choice continues its parent's. */
  lemma ChildPrefix<T>(l: seq<T>, parent: seq<T>, child: seq<T>, x: T)
    requires child == parent + [x] && |l| > |child| && l[..|child|] == child
    ensures |l| > |parent| && l[..|parent|] == parent
  {
    PrefixShorter(l, parent, x);
  }

  lemma PrefixShorter<T>(l: seq<T>, c: seq<T>, x: T)
    requires |l| > |c| && l[..|c| + 1] == c + [x]
    ensures l[..|c|] == c
  {
    forall i | 0 <= i < |c| ensures l[i] == c[i] {
      assert l[..|c| + 1][i] == l[i];
    }
  }

  /** Distinct candidates complete distinct lists. */
  lemma {:induction false} FinishedNoDup(st: State, cands: seq<Word>)
    requires NoDup(cands)
    ensures NoDup(Finished(st, cands))
    decreases |cands|
  {
    if cands != [] {
      var init := cands[..|cands| - 1];
      var x := cands[|cands| - 1];
      assert NoDup(init) by {
        forall i, j | 0 <= i < j < |init| ensures init[i] != init[j] {
          assert init[i] == cands[i] && init[j] == cands[j];
        }
      }
      FinishedNoDup(st, init);
      if Subtract(st.left, x) == [] {
        FinishedFrom(st, init);
        forall l | l in Finished(st, init) ensures l !in [st.chosen + [x]] {
          var y :| y in init && l == st.chosen + [y] && Subtract(st.left, y) == [];
          assert y == l[|st.chosen|];
          var i :| 0 <= i < |init| && init[i] == y;
          assert cands[i] == y;
        }
        NoDupConcat(Finished(st, init), [st.chosen + [x]]);
      } else {
        assert Finished(st, cands) == Finished(st, init) + [];
      }
    }
  }

  /** States whose choices all have length `n` and differ pairwise. */
  ghost predicate Siblings(stack: seq<State>, n: nat) {
    && (forall k :: 0 <= k < |stack| ==> |stack[k].chosen| == n)
    && (forall i, j :: 0 <= i < j < |stack| ==> stack[i].chosen != stack[j].chosen)
  }

  /** The states pushed for distinct candidates are siblings: their choices
      extend the popped one by different alphagrams. */
  lemma {:induction false} PushedDistinct(st: State, cands: seq<Word>, limit: Option<nat>)
    requires NoDup(cands)
    ensures Siblings(Pushed(st, cands, limit), |st.chosen| + 1)
    decreases |cands|
  {
    var ps := Pushed(st, cands, limit);
    PushedFrom(st, cands, limit);
    forall k | 0 <= k < |ps| ensures |ps[k].chosen| == |st.chosen| + 1 {
      assert ps[k] in ps;
    }
    if cands != [] {
      var init := cands[..|cands| - 1];
      var x := cands[|cands| - 1];
      assert NoDup(init) by {
        forall i, j | 0 <= i < j < |init| ensures init[i] != init[j] {
          assert init[i] == cands[i] && init[j] == cands[j];
        }
      }
      PushedDistinct(st, init, limit);
      var before := Pushed(st, init, limit);
      assert Siblings(before, |st.chosen| + 1);
      PushedFrom(st, init, limit);
      var last := if Subtract(st.left, x) != [] && UnderLimit(limit, |st.chosen| + 1) then [Advance(st, x)] else [];
      assert ps == before + last;
      forall i, j | 0 <= i < j < |ps| ensures ps[i].chosen != ps[j].chosen {
        if j >= |before| {
          assert ps[j] == Advance(st, x);
          assert ps[i] == before[i] && before[i] in before;
          var y :| y in init && before[i] == Advance(st, y);
          var n :| 0 <= n < |init| && init[n] == y;
          assert cands[n] == y && cands[|cands| - 1] == x;
          assert ps[i].chosen[|st.chosen|] == y && ps[j].chosen[|st.chosen|] == x;
        } else {
          assert ps[i] == before[i] && ps[j] == before[j];
        }
      }
    }
  }

  /** The states of a stack whose choices have one length and are pairwise
      distinct record disjoint lists; so if each state records every list
      once, the stack does too. */
  lemma {:induction false} ExploreStackNoDup(e: AnagramR, limit: Option<nat>, rule: SkipRule, bound: nat, stack: seq<State>, n: nat)
    requires WellFormed(e.alphaTrie)
    requires forall k :: 0 <= k < |stack| ==> Sorted(stack[k].left) && |stack[k].left| < bound
    requires Siblings(stack, n)
    ensures NoDup(ExploreStack(e, limit, rule, bound, stack))
    decreases bound, 0, |stack|
  {
    if stack != [] {
      var top := |stack| - 1;
      var init := stack[..top];
      StackInit(stack, bound, n);
      ExploreNoDup(e, limit, rule, stack[top]);
      ExploreStackNoDup(e, limit, rule, bound, init, n);
      forall l | l in Explore(e, limit, rule, stack[top])
        ensures l !in ExploreStack(e, limit, rule, bound, init)
      {
        TopApart(e, limit, rule, bound, stack, n, l);
      }
      NoDupConcat(Explore(e, limit, rule, stack[top]), ExploreStack(e, limit, rule, bound, init));
    }
  }

  /** The states below the top keep the bound and are still siblings. */
  lemma StackInit(stack: seq<State>, bound: nat, n: nat)
    requires stack != [] && Siblings(stack, n)
    requires forall k :: 0 <= k < |stack| ==> Sorted(stack[k].left) && |stack[k].left| < bound
    ensures var init := stack[..|stack| - 1];
            && Siblings(init, n)
            && forall k :: 0 <= k < |init| ==> Sorted(init[k].left) && |init[k].left| < bound
  {
  }

  /** A list the top state records is recorded by no sibling below it. */
  lemma TopApart(e: AnagramR, limit: Option<nat>, rule: SkipRule, bound: nat, stack: seq<State>, n: nat, l: seq<Word>)
    requires WellFormed(e.alphaTrie) && stack != []
    requires forall k :: 0 <= k < |stack| ==> Sorted(stack[k].left) && |stack[k].left| < bound
    requires Siblings(stack, n)
    requires l in Explore(e, limit, rule, stack[|stack| - 1])
    ensures l !in ExploreStack(e, limit, rule, bound, stack[..|stack| - 1])
  {
    var top := |stack| - 1;
    var init := stack[..top];
    StackInit(stack, bound, n);
    ExplorePrefix(e, limit, rule, stack[top], l);
    if l in ExploreStack(e, limit, rule, bound, init) {
      ExploreStackFrom(e, limit, rule, bound, init, l);
      var k :| 0 <= k < |init| && l in Explore(e, limit, rule, init[k]);
      ExplorePrefix(e, limit, rule, init[k], l);
      assert false;
    }
  }

  /** The first phase records each list at most once from any state. */
  lemma {:induction false} ExploreNoDup(e: AnagramR, limit: Option<nat>, rule: SkipRule, st: State)
    requires WellFormed(e.alphaTrie) && Sorted(st.left)
    ensures NoDup(Explore(e, limit, rule, st))
    decreases |st.left|, 1, 0
  {
    var cands := Candidates(e, st, rule);
    AlphagramsNoDup(e, st.left, Last(st.chosen), rule);
    PushedShrink(e, st, rule, limit);
    var ps := Pushed(st, cands, limit);
    FinishedNoDup(st, cands);
    PushedDistinct(st, cands, limit);
    ExploreStackNoDup(e, limit, rule, |st.left|, ps, |st.chosen| + 1);
    forall l | l in Finished(st, cands)
      ensures l !in ExploreStack(e, limit, rule, |st.left|, ps)
    {
      FinishedFrom(st, cands);
      if l in ExploreStack(e, limit, rule, |st.left|, ps) {
        ExploreStackFrom(e, limit, rule, |st.left|, ps, l);
        var k :| 0 <= k < |ps| && l in Explore(e, limit, rule, ps[k]);
        ExplorePrefix(e, limit, rule, ps[k], l);
        assert false;
      }
    }
    NoDupConcat(Finished(st, cands), ExploreStack(e, limit, rule, |st.left|, ps));
  }

  // ---------------------------------------------------------------------

  /** `alpha_lists`: the lists the first phase records for `word`. */
  function AlphaLists(e: AnagramR, limit: Option<nat>, rule: SkipRule, word: Word): seq<seq<Word>>
    requires WellFormed(e.alphaTrie)
  {
    Explore(e, limit, rule, State(Alphatize(word), []))
  }

  /** Every list the first phase records covers the word within the limit;
      with the intended skip rule it is also descending. */
  lemma AlphaListsSound(e: AnagramR, limit: Option<nat>, rule: SkipRule, word: Word)
    requires WellFormed(e.alphaTrie)
    ensures forall l :: l in AlphaLists(e, limit, rule, word) ==>
              Covers(e.alphaTrie, limit, multiset(word), l) && (rule == Intended ==> Descending(l))
  {
    var init := State(Alphatize(word), []);
    assert Bag([]) + multiset(init.left) == multiset(word);
    ExploreSound(e, limit, rule, multiset(word), init);
  }

  /** Under either skip rule the first phase records every descending list
      that covers the word within the limit. */
  lemma AlphaListsComplete(e: AnagramR, limit: Option<nat>, rule: SkipRule, word: Word, l: seq<Word>)
    requires WellFormed(e.alphaTrie)
    requires Covers(e.alphaTrie, limit, multiset(word), l) && Descending(l)
    ensures l in AlphaLists(e, limit, rule, word)
  {
    var init := State(Alphatize(word), []);
    assert |l| == 1 || UnderLimit(limit, |init.chosen| + |l| - 1);
    ExploreComplete(e, limit, rule, init, l);
    assert [] + l == l;
  }

  /** Under either skip rule the first phase records each list once. */
  lemma AlphaListsNoDup(e: AnagramR, limit: Option<nat>, rule: SkipRule, word: Word)
    requires WellFormed(e.alphaTrie)
    ensures NoDup(AlphaLists(e, limit, rule, word))
  {
    ExploreNoDup(e, limit, rule, State(Alphatize(word), []));
  }

  // ---------------------------------------------------------------------
  // The stop bound as written: the same alphagrams in two orders
  // ---------------------------------------------------------------------

  lemma ThreeBag(x: Word, y: Word, z: Word)
    ensures Bag([x, y, z]) == multiset(x) + multiset(y) + multiset(z)
  {
    BagSnoc([], x);
    BagSnoc([x], y);
    BagSnoc([x, y], z);
    assert [] + [x] == [x] && [x] + [y] == [x, y] && [x, y] + [z] == [x, y, z];
  }

  /** Taking the middle letter out of a three-letter alphagram. */
  lemma SubtractMiddle(a: Letter, b: Letter, c: Letter)
    requires a != b
    ensures Subtract([a, b, c], [b]) == [a, c]
  {
    assert [a, b, c][1..] == [b, c] && [b, c][1..] == [c] && [c][1..] == [];
    assert Subtract([c], []) == [c];
    assert Subtract([b, c], [b]) == [c];
  }

  /** Taking the last letter out of a two-letter alphagram. */
  lemma SubtractLast(a: Letter, c: Letter)
    requires a != c
    ensures Subtract([a, c], [c]) == [a]
  {
    assert [a, c][1..] == [c] && [c][1..] == [];
    assert Subtract([c], [c]) == [];
  }

  /** `[c, b, a]` covers `abc` and is descending, so either rule records it. */
  lemma DescendingListFound(e: AnagramR, rule: SkipRule)
    requires StoresAbc(e.alphaTrie)
    ensures [[2], [1], [0]] in AlphaLists(e, None, rule, [0, 1, 2])
  {
    assert Usable(e.alphaTrie, [0]) && Usable(e.alphaTrie, [1]) && Usable(e.alphaTrie, [2]);
    var desc: seq<Word> := [[2], [1], [0]];
    ThreeBag([2], [1], [0]);
    assert multiset([2]) + multiset([1]) + multiset([0]) == multiset([0, 1, 2]);
    assert Descending(desc);
    AlphaListsComplete(e, None, rule, [0, 1, 2], desc);
  }

  /** After `b` and then `c`, the letter `a` completes `[b, c, a]`. */
  lemma PermutedTail(e: AnagramR, rule: SkipRule)
    requires StoresAbc(e.alphaTrie)
    ensures [[1], [2], [0]] in Explore(e, None, rule, State([0], [[1], [2]]))
  {
    assert Usable(e.alphaTrie, [0]) && Usable(e.alphaTrie, [1]) && Usable(e.alphaTrie, [2]);
    var s2 := State([0], [[1], [2]]);
    assert Bag([[0]]) == multiset(s2.left);
    ExploreComplete(e, None, rule, s2, [[0]]);
    assert s2.chosen + [[0]] == [[1], [2], [0]];
  }

  /** With the stop bound as written, the walk after `b` offers `c`, so
      `[b, c]` is continued. */
  lemma PermutedMiddle(e: AnagramR)
    requires StoresAbc(e.alphaTrie)
    ensures [[1], [2], [0]] in Explore(e, None, AsWritten, State([0, 2], [[1]]))
  {
    var s1 := State([0, 2], [[1]]);
    SortedTwoThree(0, 1, 2);
    SubtractLast(0, 2);
    var s2 := Advance(s1, [2]);
    assert s2 == State([0], [[1], [2]]);
    assert [2] in Candidates(e, s1, AsWritten) by {
      StopOvershoot(e);
    }
    assert [[1], [2], [0]] in Explore(e, None, AsWritten, s2) by {
      PermutedTail(e, AsWritten);
    }
    ExploreHasChild(e, None, AsWritten, s1, [2], [[1], [2], [0]]);
  }

  /** With the stop bound as written, the walk from `abc` offers `b`, so
      `[b]` is continued. */
  lemma PermutedHead(e: AnagramR)
    requires StoresAbc(e.alphaTrie)
    ensures [[1], [2], [0]] in Explore(e, None, AsWritten, State([0, 1, 2], []))
  {
    var init := State([0, 1, 2], []);
    SortedTwoThree(0, 1, 2);
    SubtractMiddle(0, 1, 2);
    assert Advance(init, [1]) == State([0, 2], [[1]]);
    assert Usable(e.alphaTrie, [1]) && multiset([1]) <= multiset([0, 1, 2]);
    assert [[1], [2], [0]] in Explore(e, None, AsWritten, Advance(init, [1])) by {
      PermutedMiddle(e);
    }
    FirstChoice(e, AsWritten, None, init, [1], [[1], [2], [0]]);
  }

  lemma SortedTwoThree(a: Letter, b: Letter, c: Letter)
    requires a <= b <= c
    ensures Sorted([a, b, c]) && Sorted([a, c]) && Sorted([a])
  {
  }

  /** A usable alphagram within the letters of a state with nothing chosen
      yet is always a candidate, so the lists found after it are recorded. */
  lemma FirstChoice(e: AnagramR, rule: SkipRule, limit: Option<nat>, st: State, x: Word, l: seq<Word>)
    requires WellFormed(e.alphaTrie) && Sorted(st.left) && st.chosen == []
    requires Usable(e.alphaTrie, x) && multiset(x) <= multiset(st.left) && Subtract(st.left, x) != []
    requires UnderLimit(limit, 1)
    requires Sorted(Advance(st, x).left) && l in Explore(e, limit, rule, Advance(st, x))
    ensures l in Explore(e, limit, rule, st)
  {
    CandidateHas(e, rule, st, x);
    ExploreHasChild(e, limit, rule, st, x, l);
  }

  /** With the stop bound as written, the first phase records the same
      alphagrams in two orders: for the dictionary `a`, `b`, `c` and the word
      `abc`, both `[b, c, a]` and `[c, b, a]`. */
  lemma PermutedLists(e: AnagramR)
    requires StoresAbc(e.alphaTrie)
    ensures [[1], [2], [0]] in AlphaLists(e, None, AsWritten, [0, 1, 2])
    ensures [[2], [1], [0]] in AlphaLists(e, None, AsWritten, [0, 1, 2])
  {
    AlphatizeSorted([0, 1, 2]);
    PermutedHead(e);
    DescendingListFound(e, AsWritten);
  }

  /** With the intended skip rule, a recorded list is descending. */
  lemma IntendedDescending(e: AnagramR, limit: Option<nat>, word: Word, l: seq<Word>)
    requires WellFormed(e.alphaTrie) && l in AlphaLists(e, limit, Intended, word)
    ensures Descending(l)
  {
    AlphaListsSound(e, limit, Intended, word);
  }

  /** The intended skip rule does not record `[b, c, a]`. */
  lemma PermutedListsFixed(e: AnagramR)
    requires StoresAbc(e.alphaTrie)
    ensures [[1], [2], [0]] !in AlphaLists(e, None, Intended, [0, 1, 2])
  {
    if [[1], [2], [0]] in AlphaLists(e, None, Intended, [0, 1, 2]) {
      IntendedDescending(e, None, [0, 1, 2], [[1], [2], [0]]);
      PermutedNotDescending();
      assert false;
    }
  }

  lemma PermutedNotDescending()
    ensures !Descending([[1], [2], [0]])
  {
    var l: seq<Word> := [[1], [2], [0]];
    assert l[1] == [2] && l[0] == [1];
    assert WordOrder.Compare([2], [1]) == WordOrder.Greater;
  }
}
