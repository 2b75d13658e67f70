/** The ordering `Word` derives (src/word.rs:7-13): lexicographic comparison
    of the letter vectors, letters compared by discriminant. */
module WordOrder {
  import opened Words

  /** Rust's `std::cmp::Ordering`. */
  datatype Ordering = Less | Equal | Greater

  /** Derived `Ord::cmp` on words. */
  function Compare(a: Word, b: Word): Ordering
  {
    if a == [] then (if b == [] then Equal else Less)
    else if b == [] then Greater
    else if a[0] < b[0] then Less
    else if a[0] > b[0] then Greater
    else Compare(a[1..], b[1..])
  }

  /** `a <= b` for words. */
  predicate Le(a: Word, b: Word) {
    Compare(a, b) != Greater
  }

  predicate IsPrefix(p: Word, s: Word) {
    |p| <= |s| && p == s[..|p|]
  }

  /** Reference definition of "a sorts before b": a is a proper prefix of b,
      or at the first position where they differ a has the smaller letter. */
  ghost predicate Precedes(a: Word, b: Word) {
    || (|a| < |b| && IsPrefix(a, b))
    || exists k :: 0 <= k < |a| && k < |b| && a[..k] == b[..k] && a[k] < b[k]
  }

  lemma {:induction false} CompareLessIff(a: Word, b: Word)
    ensures Compare(a, b) == Less <==> Precedes(a, b)
    decreases |a|
  {
    if a == [] || b == [] {
      if a == [] && b != [] {
        assert IsPrefix(a, b);
      }
    } else if a[0] < b[0] {
      assert a[..0] == b[..0];
    } else if a[0] > b[0] {
    } else {
      CompareLessIff(a[1..], b[1..]);
      if Precedes(a, b) {
        if |a| < |b| && IsPrefix(a, b) {
          assert IsPrefix(a[1..], b[1..]);
        } else {
          var k :| 0 <= k < |a| && k < |b| && a[..k] == b[..k] && a[k] < b[k];
          assert k > 0;
          assert a[1..][..k - 1] == a[..k][1..] == b[..k][1..] == b[1..][..k - 1];
          assert a[1..][k - 1] < b[1..][k - 1];
        }
        assert Precedes(a[1..], b[1..]);
      }
      if Precedes(a[1..], b[1..]) {
        if |a[1..]| < |b[1..]| && IsPrefix(a[1..], b[1..]) {
          assert a == [a[0]] + a[1..] && b[..|a|] == [b[0]] + b[1..][..|a| - 1];
          assert IsPrefix(a, b);
        } else {
          var k :| 0 <= k < |a[1..]| && k < |b[1..]| && a[1..][..k] == b[1..][..k] && a[1..][k] < b[1..][k];
          assert a[..k + 1] == [a[0]] + a[1..][..k];
          assert b[..k + 1] == [b[0]] + b[1..][..k];
          assert a[k + 1] < b[k + 1];
        }
      }
    }
  }

  lemma {:induction false} CompareEqualIff(a: Word, b: Word)
    ensures Compare(a, b) == Equal <==> a == b
    decreases |a|
  {
    if a != [] && b != [] && a[0] == b[0] {
      CompareEqualIff(a[1..], b[1..]);
      if a[1..] == b[1..] {
        assert a == [a[0]] + a[1..] && b == [b[0]] + b[1..];
      }
    }
  }

  lemma {:induction false} CompareFlip(a: Word, b: Word)
    ensures Compare(a, b) == Greater <==> Compare(b, a) == Less
    decreases |a|
  {
    if a != [] && b != [] && a[0] == b[0] {
      CompareFlip(a[1..], b[1..]);
    }
  }

  lemma {:induction false} CompareTransitive(a: Word, b: Word, c: Word)
    requires Compare(a, b) == Less && Compare(b, c) == Less
    ensures Compare(a, c) == Less
    decreases |a|
  {
    if a != [] && b != [] && c != [] && a[0] == b[0] == c[0] {
      CompareTransitive(a[1..], b[1..], c[1..]);
    }
  }

  /** A prefix never sorts after the word it begins. */
  lemma {:induction false} PrefixNotGreater(p: Word, s: Word)
    requires IsPrefix(p, s)
    ensures Le(p, s)
    decreases |p|
  {
    if p != [] {
      PrefixNotGreater(p[1..], s[1..]);
    }
  }

  /** Once a word sorts before `s` without being a prefix of it, every
      extension of it does too. */
  lemma {:induction false} ExtendBelow(p: Word, q: Word, s: Word)
    requires Compare(p, s) == Less && !IsPrefix(p, s)
    ensures Compare(p + q, s) == Less && !IsPrefix(p + q, s)
    decreases |p|
  {
    assert p != [] && s != [];
    assert (p + q)[0] == p[0];
    if p[0] == s[0] {
      assert (p + q)[1..] == p[1..] + q;
      ExtendBelow(p[1..], q, s[1..]);
    }
  }

  /** Extending a prefix of `s` by a letter below `s`'s next letter sorts
      before `s`, and so does every further extension. */
  lemma PrefixStepBelow(p: Word, c: Letter, s: Word)
    requires IsPrefix(p, s) && |p| < |s| && c < s[|p|]
    ensures Compare(p + [c], s) == Less && !IsPrefix(p + [c], s)
  {
    var x := p + [c];
    assert x[..|p|] == s[..|p|];
    assert x[|p|] < s[|p|];
    CompareLessIff(x, s);
  }

  /** Extending a prefix of `s` past its end, or by a letter above `s`'s next
      letter, sorts after `s`. */
  lemma PrefixStepAbove(p: Word, q: Word, s: Word)
    requires IsPrefix(p, s) && q != []
    requires |p| == |s| || s[|p|] < q[0]
    ensures Compare(p + q, s) == Greater
  {
    var x := p + q;
    CompareFlip(x, s);
    CompareLessIff(s, x);
    if |p| == |s| {
      assert x[..|s|] == s;
      assert IsPrefix(s, x);
    } else {
      assert s[..|p|] == x[..|p|];
      assert s[|p|] < x[|p|];
    }
  }
}
