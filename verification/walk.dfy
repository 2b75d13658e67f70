/** The sub-multiset walk of the alphagram trie (`alphagrams_helper` and
    `stop_status`, src/anagram.rs:82-142), stated as a recursive function
    over the frames the source keeps on its explicit stack. */
module TrieWalk {
  import opened Prelude
  import opened Words
  import opened Alphagram
  import opened Tries
  import WordOrder

  /** `StopStatus`. */
  datatype StopStatus = Stop | Equal | Less

  /** `AnagramR::stop_status`: how the letter about to be appended at position
      `at` of the current path compares with the stop alphagram. */
  function StopStatusOf(test: Letter, stop: Option<Word>, at: nat): StopStatus
  {
    match stop
    case None => Less
    case Some(s) =>
      if at >= |s| then Stop
      else if s[at] < test then Stop
      else if s[at] == test then Equal
      else Less
  }

  /** What the three answers mean for a path `p` that so far spells the
      start of the stop alphagram `s`: `Stop` when every path through
      `p + [test]` sorts after `s`, `Equal` when `p + [test]` still spells
      the start of `s`, `Less` when every path through it sorts before `s`. */
  lemma StopStatusMeaning(p: Word, test: Letter, s: Word, q: Word)
    requires WordOrder.IsPrefix(p, s)
    ensures StopStatusOf(test, Some(s), |p|) == Stop ==>
              WordOrder.Compare(p + [test] + q, s) == WordOrder.Greater
    ensures StopStatusOf(test, Some(s), |p|) == Equal ==>
              WordOrder.IsPrefix(p + [test], s)
    ensures StopStatusOf(test, Some(s), |p|) == Less ==>
              WordOrder.Compare(p + [test] + q, s) == WordOrder.Less
  {
    assert p + [test] + q == p + ([test] + q);
    match StopStatusOf(test, Some(s), |p|)
    case Stop =>
      WordOrder.PrefixStepAbove(p, [test] + q, s);
    case Equal =>
      assert (p + [test])[..|p|] == s[..|p|];
    case Less =>
      WordOrder.PrefixStepBelow(p, test, s);
      WordOrder.ExtendBelow(p + [test], q, s);
  }

  /** One entry of the walk's stack: `(node, new_node, less, index, length)`.
      `index` is the next position of the target to consider and `length` the
      depth of `node`. */
  datatype Frame = Frame(node: Trie, isNew: bool, less: bool, index: nat, length: nat)

  /** The frame the walk starts from. */
  function RootFrame(root: Trie, stop: Option<Word>): Frame {
    Frame(root, true, stop.None?, 0, 0)
  }

  /** The `less` flag of the skip frame: the source gives it the flag
      computed for the descent (`new_less`); the stop bound needs the node's
      own flag (`less`). */
  datatype SkipRule = AsWritten | Intended

  /** The inner `while` loop: the first position from `k` on that does not
      hold `letter`. */
  function RunEndFrom(t: Word, letter: Letter, k: nat): (j: nat)
    requires k <= |t|
    ensures k <= j <= |t|
    ensures forall m :: k <= m < j ==> t[m] == letter
    ensures j == |t| || t[j] != letter
    decreases |t| - k
  {
    if k < |t| && t[k] == letter then RunEndFrom(t, letter, k + 1) else k
  }

  /** Where the skip frame resumes: past every copy of `t[i]`. */
  function RunEnd(t: Word, i: nat): (j: nat)
    requires i < |t|
    ensures i < j <= |t|
    ensures forall m :: i <= m < j ==> t[m] == t[i]
    ensures j == |t| || t[j] != t[i]
  {
    RunEndFrom(t, t[i], i + 1)
  }

  /** The alphagram a popped frame records: its node's, on the first visit. */
  function Own(f: Frame): seq<Word> {
    if f.node.Full? && f.isNew && f.node.alpha.Some? then [f.node.alpha.value] else []
  }

  /** A popped frame pushes two more: its node is `Full`, there is a target
      letter left, and the stop bound does not prune it. */
  predicate Pushes(target: Word, stop: Option<Word>, f: Frame) {
    && f.node.Full?
    && f.index < |target|
    && (f.less || StopStatusOf(target[f.index], stop, f.length) != Stop)
  }

  function NewLess(target: Word, stop: Option<Word>, f: Frame): bool
    requires f.index < |target|
  {
    f.less || StopStatusOf(target[f.index], stop, f.length) == Less
  }

  /** Take one copy of the current target letter: move to its child. */
  function DescendFrame(target: Word, stop: Option<Word>, f: Frame): Frame
    requires f.index < |target|
  {
    Frame(Child(f.node, target[f.index]), true, NewLess(target, stop, f), f.index + 1, f.length + 1)
  }

  /** Take no (more) copies of the current target letter: stay at the node
      and move past the run of that letter. */
  function SkipFrame(target: Word, stop: Option<Word>, f: Frame, rule: SkipRule): Frame
    requires f.index < |target|
  {
    var less := if rule == AsWritten then NewLess(target, stop, f) else f.less;
    Frame(f.node, false, less, RunEnd(target, f.index), f.length)
  }

  /** Everything the walk records from frame `f` on, in the order the
      source's stack produces it: the frame's own alphagram, then all of the
      descent (pushed last, so popped first), then all of the skip. */
  function Walk(target: Word, stop: Option<Word>, f: Frame, rule: SkipRule): seq<Word>
    requires f.index <= |target|
    decreases |target| - f.index
  {
    if Pushes(target, stop, f) then
      Own(f)
      + Walk(target, stop, DescendFrame(target, stop, f), rule)
      + Walk(target, stop, SkipFrame(target, stop, f, rule), rule)
    else Own(f)
  }

  /** The number of frames the walk pops from `f` on. */
  ghost function WalkSize(target: Word, stop: Option<Word>, f: Frame, rule: SkipRule): nat
    requires f.index <= |target|
    decreases |target| - f.index
  {
    1 +
    if Pushes(target, stop, f) then
      WalkSize(target, stop, DescendFrame(target, stop, f), rule)
      + WalkSize(target, stop, SkipFrame(target, stop, f, rule), rule)
    else 0
  }

  /** One step of the walk and of its size. */
  lemma WalkUnfold(target: Word, stop: Option<Word>, f: Frame, rule: SkipRule)
    requires f.index <= |target|
    ensures Pushes(target, stop, f) ==>
              var d := DescendFrame(target, stop, f);
              var s := SkipFrame(target, stop, f, rule);
              && Walk(target, stop, f, rule) == Own(f) + Walk(target, stop, d, rule) + Walk(target, stop, s, rule)
              && WalkSize(target, stop, f, rule) == 1 + WalkSize(target, stop, d, rule) + WalkSize(target, stop, s, rule)
    ensures !Pushes(target, stop, f) ==>
              Walk(target, stop, f, rule) == Own(f) && WalkSize(target, stop, f, rule) == 1
  {
  }

  // ---------------------------------------------------------------------
  // What the walk records
  // ---------------------------------------------------------------------

  /** `x` is an alphagram the walk may record from frame `f` at path `p`:
      it continues `p` by a sorted path `q` below the node that stores an
      alphagram, `q` uses only letters still available in the target, and
      `q` is empty only on a node's first visit. */
  ghost predicate Reached(target: Word, f: Frame, p: Word, x: Word)
    requires f.index <= |target|
  {
    && |p| <= |x| && x[..|p|] == p
    && StoredAt(f.node, x[|p|..])
    && Sorted(x[|p|..])
    && multiset(x[|p|..]) <= multiset(target[f.index..])
    && (f.isNew || |p| < |x|)
  }

  lemma SuffixBag(t: Word, i: nat, j: nat)
    requires i <= j <= |t|
    ensures multiset(t[j..]) <= multiset(t[i..])
  {
    assert t[i..] == t[i..j] + t[j..];
  }

  /** In a sorted word, every letter from position `i` on is at least `t[i]`. */
  lemma LowerBound(t: Word, i: nat, y: Letter)
    requires Sorted(t) && i <= |t| && y in multiset(t[i..])
    ensures i < |t| && t[i] <= y
  {
    assert y in t[i..];
  }

  /** Letters of `q` other than `t[i]` that fit in `t[i..]` fit past the run
      of `t[i]`. */
  lemma SkipRunBag(t: Word, i: nat, q: Word)
    requires i < |t| && multiset(q) <= multiset(t[i..])
    requires t[i] !in multiset(q)
    ensures multiset(q) <= multiset(t[RunEnd(t, i)..])
  {
    var j := RunEnd(t, i);
    assert t[i..] == t[i..j] + t[j..];
    forall y
      ensures multiset(q)[y] <= multiset(t[j..])[y]
    {
      if y != t[i] {
        assert y !in t[i..j];
        assert multiset(t[i..j])[y] == 0;
      }
    }
  }

  /** The descent's records, seen from the parent frame. */
  lemma DescendReached(target: Word, stop: Option<Word>, f: Frame, p: Word, x: Word)
    requires Sorted(target) && f.index < |target| && f.node.Full?
    requires Reached(target, DescendFrame(target, stop, f), p + [target[f.index]], x)
    ensures Reached(target, f, p, x)
    ensures |p| < |x| && x[|p|] == target[f.index]
  {
    var c := target[f.index];
    var q' := x[|p| + 1..];
    SplitAfter(x, p, c);
    assert Find(f.node, [c] + q') == Find(Child(f.node, c), q');
    ConsFits(target, f.index, q');
  }

  /** A word that starts with `p + [c]` starts with `p`, and its rest after
      `p` is `c` followed by its rest after `p + [c]`. */
  lemma SplitAfter<T>(x: seq<T>, p: seq<T>, c: T)
    requires |p| + 1 <= |x| && x[..|p| + 1] == p + [c]
    ensures x[..|p|] == p && x[|p|] == c && x[|p|..] == [c] + x[|p| + 1..]
  {
    assert x[..|p|] == x[..|p| + 1][..|p|];
  }

  /** Putting the target's letter `t[i]` in front of a sorted word that fits
      in the rest of the target keeps it sorted and fitting. */
  lemma ConsFits(t: Word, i: nat, q: Word)
    requires Sorted(t) && i < |t| && Sorted(q) && multiset(q) <= multiset(t[i + 1..])
    ensures Sorted([t[i]] + q) && multiset([t[i]] + q) <= multiset(t[i..])
  {
    var c := t[i];
    forall k | 0 <= k < |q|
      ensures c <= q[k]
    {
      assert q[k] in multiset(q);
      LowerBound(t, i + 1, q[k]);
    }
    assert t[i..] == [c] + t[i + 1..];
  }

  /** Every alphagram the walk records from `f` is reached from `f`. */
  lemma {:induction false} WalkSound(target: Word, stop: Option<Word>, f: Frame, rule: SkipRule, p: Word)
    requires Sorted(target) && f.index <= |target| && PathsOk(f.node, p)
    ensures forall x :: x in Walk(target, stop, f, rule) ==> Reached(target, f, p, x)
    decreases |target| - f.index
  {
    if Own(f) != [] {
      assert f.node.alpha.value == p;
      assert p[|p|..] == [] && p[..|p|] == p;
      assert Reached(target, f, p, p);
    }
    if Pushes(target, stop, f) {
      var c := target[f.index];
      var d := DescendFrame(target, stop, f);
      var s := SkipFrame(target, stop, f, rule);
      ChildPathsOk(f.node, p, c);
      WalkSound(target, stop, d, rule, p + [c]);
      WalkSound(target, stop, s, rule, p);
      forall x | x in Walk(target, stop, d, rule)
        ensures Reached(target, f, p, x)
      {
        DescendReached(target, stop, f, p, x);
      }
      forall x | x in Walk(target, stop, s, rule)
        ensures Reached(target, f, p, x)
      {
        SuffixBag(target, f.index, s.index);
      }
    }
  }

  /** Records from the skip frame continue the path with a letter larger
      than the one the descent takes. */
  lemma SkipAbove(target: Word, stop: Option<Word>, f: Frame, rule: SkipRule, p: Word, x: Word)
    requires Sorted(target) && f.index < |target|
    requires Reached(target, SkipFrame(target, stop, f, rule), p, x)
    ensures |p| < |x| && x[|p|] > target[f.index]
  {
    var j := RunEnd(target, f.index);
    var q := x[|p|..];
    assert q[0] in multiset(q);
    LowerBound(target, j, q[0]);
    assert target[f.index] <= target[j];
  }

  /** The walk's three parts cannot share a record: they differ in length or
      in the letter after the path. */
  lemma PartsApart(p: Word, c: Letter, own: seq<Word>, wd: seq<Word>, ws: seq<Word>)
    requires NoDup(wd) && NoDup(ws)
    requires own == [] || own == [p]
    requires forall x :: x in wd ==> |p| < |x| && x[|p|] == c
    requires forall x :: x in ws ==> |p| < |x| && x[|p|] > c
    ensures NoDup(own + wd + ws)
  {
    NoDupConcat(own, wd);
    NoDupConcat(own + wd, ws);
  }

  /** What the descent and the skip record, seen from their parent. */
  lemma PartsShape(target: Word, stop: Option<Word>, f: Frame, rule: SkipRule, p: Word)
    requires Sorted(target) && PathsOk(f.node, p) && Pushes(target, stop, f)
    ensures forall x :: x in Walk(target, stop, DescendFrame(target, stop, f), rule) ==>
              |p| < |x| && x[|p|] == target[f.index]
    ensures forall x :: x in Walk(target, stop, SkipFrame(target, stop, f, rule), rule) ==>
              |p| < |x| && x[|p|] > target[f.index]
    ensures Own(f) == [] || Own(f) == [p]
  {
    var c := target[f.index];
    var d := DescendFrame(target, stop, f);
    var s := SkipFrame(target, stop, f, rule);
    ChildPathsOk(f.node, p, c);
    WalkSound(target, stop, d, rule, p + [c]);
    WalkSound(target, stop, s, rule, p);
    forall x | x in Walk(target, stop, d, rule)
      ensures |p| < |x| && x[|p|] == c
    {
      DescendReached(target, stop, f, p, x);
    }
    forall x | x in Walk(target, stop, s, rule)
      ensures |p| < |x| && x[|p|] > c
    {
      SkipAbove(target, stop, f, rule, p, x);
    }
  }

  /** The walk never records an alphagram twice. */
  lemma {:induction false} WalkNoDup(target: Word, stop: Option<Word>, f: Frame, rule: SkipRule, p: Word)
    requires Sorted(target) && f.index <= |target| && PathsOk(f.node, p)
    ensures NoDup(Walk(target, stop, f, rule))
    decreases |target| - f.index
  {
    if Pushes(target, stop, f) {
      var c := target[f.index];
      var d := DescendFrame(target, stop, f);
      var s := SkipFrame(target, stop, f, rule);
      ChildPathsOk(f.node, p, c);
      WalkNoDup(target, stop, d, rule, p + [c]);
      WalkNoDup(target, stop, s, rule, p);
      PartsShape(target, stop, f, rule, p);
      var wd := Walk(target, stop, d, rule);
      var ws := Walk(target, stop, s, rule);
      assert Walk(target, stop, f, rule) == Own(f) + wd + ws;
      PartsApart(p, c, Own(f), wd, ws);
    }
  }

  // ---------------------------------------------------------------------
  // What the walk is sure to record
  // ---------------------------------------------------------------------

  /** The frame's bookkeeping agrees with its path `p`: `length` is its
      depth, and unless the frame is unconstrained, `p` spells the start of
      the stop alphagram. */
  ghost predicate Tracks(stop: Option<Word>, f: Frame, p: Word) {
    && f.length == |p|
    && (f.less || stop.None? || WordOrder.IsPrefix(p, stop.value))
  }

  /** `x` passes the stop bound as seen from frame `f`. */
  ghost predicate Within(stop: Option<Word>, f: Frame, x: Word) {
    f.less || stop.None? || WordOrder.Le(x, stop.value)
  }

  lemma ConsSubBag(c: Letter, q: Word, t: Word)
    requires q != [] && t != [] && q[0] == c && t[0] == c
    requires multiset(q) <= multiset(t)
    ensures multiset(q[1..]) <= multiset(t[1..])
  {
    assert q == [c] + q[1..] && t == [c] + t[1..];
    assert multiset(q) == multiset{c} + multiset(q[1..]);
    assert multiset(t) == multiset{c} + multiset(t[1..]);
    CancelHead(c, multiset(q[1..]), multiset(t[1..]));
  }

  /** The descent case of completeness: `q` starts with the current letter. */
  lemma DescendComplete(target: Word, stop: Option<Word>, f: Frame, rule: SkipRule, p: Word, q: Word)
    requires Sorted(target) && f.index < |target| && PathsOk(f.node, p)
    requires Tracks(stop, f, p) && Pushes(target, stop, f)
    requires StoredAt(f.node, q) && Sorted(q) && multiset(q) <= multiset(target[f.index..])
    requires q != [] && q[0] == target[f.index]
    requires Within(stop, f, p + q)
    ensures var d := DescendFrame(target, stop, f);
            && PathsOk(d.node, p + [q[0]])
            && Tracks(stop, d, p + [q[0]])
            && StoredAt(d.node, q[1..]) && Sorted(q[1..])
            && multiset(q[1..]) <= multiset(target[d.index..])
            && Within(stop, d, p + [q[0]] + q[1..])
            && p + [q[0]] + q[1..] == p + q
  {
    DescendPath(target, stop, f, p, q);
    DescendStop(target, stop, f, p, q);
  }

  /** Descending keeps the path, the stored suffix and the letters left. */
  lemma DescendPath(target: Word, stop: Option<Word>, f: Frame, p: Word, q: Word)
    requires Sorted(target) && f.index < |target| && PathsOk(f.node, p)
    requires StoredAt(f.node, q) && Sorted(q) && multiset(q) <= multiset(target[f.index..])
    requires q != [] && q[0] == target[f.index]
    ensures var d := DescendFrame(target, stop, f);
            && PathsOk(d.node, p + [q[0]])
            && StoredAt(d.node, q[1..]) && Sorted(q[1..])
            && multiset(q[1..]) <= multiset(target[d.index..])
            && p + [q[0]] + q[1..] == p + q
  {
    var c := q[0];
    ChildPathsOk(f.node, p, c);
    FindStep(f.node, q);
    SortedTail(q);
    TailBag(q, target, f.index);
    ConsSplit(p, q);
  }

  /** Dropping the target's letter at `i` from a word that starts with it
      and fits in `t[i..]` leaves a word that fits in `t[i + 1..]`. */
  lemma TailBag(q: Word, t: Word, i: nat)
    requires i < |t| && q != [] && q[0] == t[i] && multiset(q) <= multiset(t[i..])
    ensures multiset(q[1..]) <= multiset(t[i + 1..])
  {
    assert t[i..][0] == t[i] && t[i..][1..] == t[i + 1..];
    ConsSubBag(t[i], q, t[i..]);
  }

  lemma ConsSplit<T>(p: seq<T>, q: seq<T>)
    requires q != []
    ensures p + [q[0]] + q[1..] == p + q
  {
    assert q == [q[0]] + q[1..];
  }

  /** Descending keeps track of the stop bound along the path. */
  lemma DescendStop(target: Word, stop: Option<Word>, f: Frame, p: Word, q: Word)
    requires f.index < |target| && Tracks(stop, f, p) && Pushes(target, stop, f)
    requires q != [] && q[0] == target[f.index]
    requires Within(stop, f, p + q)
    ensures var d := DescendFrame(target, stop, f);
            && Tracks(stop, d, p + [q[0]])
            && Within(stop, d, p + [q[0]] + q[1..])
  {
    ConsSplit(p, q);
    if !f.less && stop.Some? {
      StopStatusMeaning(p, q[0], stop.value, q[1..]);
    }
  }

  /** The skip case of completeness: `q` starts with a larger letter. */
  lemma SkipComplete(target: Word, stop: Option<Word>, f: Frame, rule: SkipRule, p: Word, q: Word)
    requires Sorted(target) && f.index < |target| && PathsOk(f.node, p)
    requires Tracks(stop, f, p) && Pushes(target, stop, f)
    requires Sorted(q) && multiset(q) <= multiset(target[f.index..])
    requires q != [] && q[0] > target[f.index]
    requires Within(stop, f, p + q)
    ensures var s := SkipFrame(target, stop, f, rule);
            && Tracks(stop, s, p)
            && multiset(q) <= multiset(target[s.index..])
            && Within(stop, s, p + q)
  {
    assert target[f.index] !in multiset(q);
    SkipRunBag(target, f.index, q);
  }

  /** A stop bound never prunes a path that stays within it. */
  lemma PushesWithin(target: Word, stop: Option<Word>, f: Frame, p: Word, q: Word)
    requires Sorted(target) && f.index < |target| && f.node.Full?
    requires Tracks(stop, f, p)
    requires Sorted(q) && q != [] && multiset(q) <= multiset(target[f.index..])
    requires Within(stop, f, p + q)
    ensures Pushes(target, stop, f)
  {
    if !f.less && stop.Some? {
      var s := stop.value;
      var c := target[f.index];
      assert q[0] in multiset(q);
      LowerBound(target, f.index, q[0]);
      if StopStatusOf(c, stop, f.length) == Stop {
        WordOrder.PrefixStepAbove(p, q, s);
      }
    }
  }

  /** Every stored sorted path within the target's letters (and within the
      stop bound, where one applies) is recorded. This holds for both skip
      rules. */
  lemma {:induction false} WalkComplete(target: Word, stop: Option<Word>, f: Frame, rule: SkipRule, p: Word, q: Word)
    requires Sorted(target) && f.index <= |target| && PathsOk(f.node, p)
    requires Tracks(stop, f, p)
    requires StoredAt(f.node, q) && Sorted(q)
    requires multiset(q) <= multiset(target[f.index..])
    requires f.isNew || q != []
    requires Within(stop, f, p + q)
    ensures p + q in Walk(target, stop, f, rule)
    decreases |target| - f.index
  {
    if q == [] {
      FindPathsOk(f.node, p, q);
      assert p + q == p;
      assert Own(f) == [p];
    } else {
      if f.node.Empty? {
        FindEmpty(q);
        assert false;
      }
      assert q[0] in multiset(q);
      LowerBound(target, f.index, q[0]);
      PushesWithin(target, stop, f, p, q);
      if q[0] == target[f.index] {
        DescendComplete(target, stop, f, rule, p, q);
        var d := DescendFrame(target, stop, f);
        assert Find(f.node, q) == Find(d.node, q[1..]);
        WalkComplete(target, stop, d, rule, p + [q[0]], q[1..]);
      } else {
        SkipComplete(target, stop, f, rule, p, q);
        WalkComplete(target, stop, SkipFrame(target, stop, f, rule), rule, p, q);
      }
    }
  }

  // ---------------------------------------------------------------------
  // The stop bound as intended
  // ---------------------------------------------------------------------

  /** Bookkeeping for the intended stop bound: an unconstrained frame's path
      already sorts before the stop alphagram (and every extension does),
      a constrained frame's path spells its start. */
  ghost predicate TracksBelow(stop: Option<Word>, f: Frame, p: Word) {
    && f.length == |p|
    && (stop.None? ||
        if f.less then WordOrder.Compare(p, stop.value) == WordOrder.Less && !WordOrder.IsPrefix(p, stop.value)
        else WordOrder.IsPrefix(p, stop.value))
  }

  /** With the intended skip rule, everything recorded is within the stop
      bound. */
  lemma {:induction false} IntendedWithinStop(target: Word, stop: Option<Word>, f: Frame, p: Word)
    requires f.index <= |target| && PathsOk(f.node, p) && TracksBelow(stop, f, p)
    ensures forall x :: x in Walk(target, stop, f, Intended) ==>
              stop.None? || WordOrder.Le(x, stop.value)
    decreases |target| - f.index
  {
    if stop.Some? && Own(f) != [] {
      assert f.node.alpha.value == p;
      if !f.less {
        WordOrder.PrefixNotGreater(p, stop.value);
      }
    }
    if Pushes(target, stop, f) {
      var c := target[f.index];
      var d := DescendFrame(target, stop, f);
      ChildPathsOk(f.node, p, c);
      if stop.Some? {
        var s := stop.value;
        if f.less {
          WordOrder.ExtendBelow(p, [c], s);
        } else {
          StopStatusMeaning(p, c, s, []);
          assert p + [c] + [] == p + [c];
          if StopStatusOf(c, stop, f.length) == Less {
            WordOrder.PrefixStepBelow(p, c, s);
          }
        }
      }
      assert TracksBelow(stop, d, p + [c]);
      IntendedWithinStop(target, stop, d, p + [c]);
      IntendedWithinStop(target, stop, SkipFrame(target, stop, f, Intended), p);
    }
  }
}
