/** The second phase of `AnagramR::multigrams` (src/anagram.rs:162-186):
    each list of alphagrams becomes every way of choosing one word id per
    alphagram. The source extends its products starting from the list's
    last alphagram, so a product names the list's words in reverse order. */
module Products {
  import opened Prelude
  import opened Words

  /** `product.clone()` with `word` pushed, for every product in order. */
  function AppendAll(products: seq<seq<Id>>, w: Id): seq<seq<Id>> {
    seq(|products|, k requires 0 <= k < |products| => products[k] + [w])
  }

  /** The two nested `for` loops of one round: for each id of the alphagram
      in turn, every product extended by that id. */
  function Extend(ids: seq<Id>, products: seq<seq<Id>>): seq<seq<Id>>
    decreases |ids|
  {
    if ids == [] then []
    else Extend(ids[..|ids| - 1], products) + AppendAll(products, ids[|ids| - 1])
  }

  /** A product of a round is an earlier product followed by one of the
      alphagram's ids, and every such pair yields one. */
  lemma {:induction false} ExtendMembers(ids: seq<Id>, products: seq<seq<Id>>, p: seq<Id>)
    ensures p in Extend(ids, products) <==>
              p != [] && p[..|p| - 1] in products && p[|p| - 1] in ids
    decreases |ids|
  {
    if ids != [] {
      var init := ids[..|ids| - 1];
      var w := ids[|ids| - 1];
      ExtendMembers(init, products, p);
      assert ids == init + [w];
      if p in AppendAll(products, w) {
        var k :| 0 <= k < |products| && AppendAll(products, w)[k] == p;
        assert p[..|p| - 1] == products[k];
      }
      if p != [] && p[..|p| - 1] in products && p[|p| - 1] == w {
        var k :| 0 <= k < |products| && products[k] == p[..|p| - 1];
        assert AppendAll(products, w)[k] == p;
      }
    }
  }

  /** A round yields one product per pair of id and earlier product. */
  lemma {:induction false} ExtendCount(ids: seq<Id>, products: seq<seq<Id>>)
    ensures |Extend(ids, products)| == |ids| * |products|
    decreases |ids|
  {
    if ids != [] {
      ExtendCount(ids[..|ids| - 1], products);
      assert |ids| * |products| == (|ids| - 1) * |products| + |products|;
    }
  }

  /** The alphagrams a list's words come from are all indexed. */
  ghost predicate Indexed(m: map<Word, seq<Id>>, alphas: seq<Word>) {
    forall a :: a in alphas ==> a in m
  }

  lemma IndexedPrefix(m: map<Word, seq<Id>>, alphas: seq<Word>, n: nat)
    requires Indexed(m, alphas) && n <= |alphas|
    ensures Indexed(m, alphas[..n])
  {
    forall a | a in alphas[..n]
      ensures a in m
    {
      var k :| 0 <= k < n && alphas[..n][k] == a;
      assert alphas[k] == a;
    }
  }

  /** The rounds one list goes through on the second stack: take its last
      alphagram off and extend the products by that alphagram's ids; the
      products of the round for its first alphagram are final. The lookup
      `alpha_to_words.get(..).unwrap()` needs every alphagram indexed. */
  function ExpandList(m: map<Word, seq<Id>>, alphas: seq<Word>, products: seq<seq<Id>>): seq<seq<Id>>
    requires alphas != [] && Indexed(m, alphas)
    decreases |alphas|
  {
    var last := |alphas| - 1;
    var next := Extend(m[alphas[last]], products);
    if last == 0 then next
    else
      IndexedPrefix(m, alphas, last);
      ExpandList(m, alphas[..last], next)
  }

  /** How many ways there are to choose one id per alphagram. */
  function Choices(m: map<Word, seq<Id>>, alphas: seq<Word>): nat
    requires Indexed(m, alphas)
    decreases |alphas|
  {
    if alphas == [] then 1
    else
      IndexedPrefix(m, alphas, |alphas| - 1);
      Choices(m, alphas[..|alphas| - 1]) * |m[alphas[|alphas| - 1]]|
  }

  /** A list turns each earlier product into one product per choice. */
  lemma {:induction false} ExpandListCount(m: map<Word, seq<Id>>, alphas: seq<Word>, products: seq<seq<Id>>)
    requires alphas != [] && Indexed(m, alphas)
    ensures |ExpandList(m, alphas, products)| == |products| * Choices(m, alphas)
    decreases |alphas|
  {
    var n := |alphas|;
    var ids := m[alphas[n - 1]];
    ExtendCount(ids, products);
    IndexedPrefix(m, alphas, n - 1);
    var c := Choices(m, alphas[..n - 1]);
    if n > 1 {
      ExpandListCount(m, alphas[..n - 1], Extend(ids, products));
      assert |ids| * |products| * c == |products| * (c * |ids|) by {
        MulShuffle(|ids|, |products|, c);
      }
    } else {
      assert c == 1;
    }
  }

  lemma MulShuffle(a: nat, b: nat, c: nat)
    ensures a * b * c == b * (c * a)
  {
  }

  /** `p` chooses, for each alphagram of the list from the last to the
      first, one of that alphagram's ids. */
  ghost predicate Picks(m: map<Word, seq<Id>>, alphas: seq<Word>, p: seq<Id>)
    requires Indexed(m, alphas)
  {
    |p| == |alphas| && forall j :: 0 <= j < |p| ==> p[j] in m[alphas[|alphas| - 1 - j]]
  }

  /** Choosing for a list of two or more: the last alphagram's id first,
      then a choice for the rest of the list. */
  lemma PicksStep(m: map<Word, seq<Id>>, alphas: seq<Word>, t: seq<Id>)
    requires |alphas| > 1 && Indexed(m, alphas) && Indexed(m, alphas[..|alphas| - 1])
    ensures Picks(m, alphas, t) <==>
              |t| == |alphas| && t[0] in m[alphas[|alphas| - 1]] && Picks(m, alphas[..|alphas| - 1], t[1..])
  {
    var n := |alphas|;
    if |t| == n && t[0] in m[alphas[n - 1]] && Picks(m, alphas[..n - 1], t[1..]) {
      forall j | 0 < j < |t|
        ensures t[j] in m[alphas[n - 1 - j]]
      {
        assert t[1..][j - 1] == t[j];
        assert alphas[..n - 1][n - 2 - (j - 1)] == alphas[n - 1 - j];
      }
    }
    if Picks(m, alphas, t) {
      forall j | 0 <= j < |t[1..]|
        ensures t[1..][j] in m[alphas[..n - 1][n - 2 - j]]
      {
        assert t[1..][j] == t[j + 1];
        assert alphas[..n - 1][n - 2 - j] == alphas[n - 1 - (j + 1)];
      }
    }
  }

  /** The products of a list extend an earlier product by a choice of one
      id per alphagram, taken from the last alphagram to the first. */
  lemma {:induction false} ExpandListMembers(m: map<Word, seq<Id>>, alphas: seq<Word>, products: seq<seq<Id>>, p: seq<Id>)
    requires alphas != [] && Indexed(m, alphas)
    ensures p in ExpandList(m, alphas, products) <==>
              |p| >= |alphas| && p[..|p| - |alphas|] in products
              && Picks(m, alphas, p[|p| - |alphas|..])
    decreases |alphas|
  {
    var n := |alphas|;
    var next := Extend(m[alphas[n - 1]], products);
    ExtendMembers(m[alphas[n - 1]], products, p);
    if n > 1 {
      IndexedPrefix(m, alphas, n - 1);
      ExpandListMembers(m, alphas[..n - 1], next, p);
      if |p| >= n {
        var q := p[..|p| - (n - 1)];
        ExtendMembers(m[alphas[n - 1]], products, q);
        assert q[..|q| - 1] == p[..|p| - n];
        assert q[|q| - 1] == p[|p| - n];
        var t := p[|p| - n..];
        PicksStep(m, alphas, t);
        assert t[1..] == p[|p| - (n - 1)..];
        assert t[0] == p[|p| - n];
      } else if |p| == n - 1 {
        assert p[..|p| - (n - 1)] == [];
        ExtendMembers(m[alphas[n - 1]], products, []);
      }
    } else if p != [] {
      var t := p[|p| - 1..];
      assert t == [p[|p| - 1]];
    }
  }

  /** Starting from the single empty product, a list's products are exactly
      its choices. */
  lemma ExpandListFromEmpty(m: map<Word, seq<Id>>, alphas: seq<Word>, p: seq<Id>)
    requires alphas != [] && Indexed(m, alphas)
    ensures p in ExpandList(m, alphas, [[]]) <==> Picks(m, alphas, p)
  {
    ExpandListMembers(m, alphas, [[]], p);
    if |p| >= |alphas| {
      assert p[|p| - |alphas|..] == p <==> |p| == |alphas|;
      assert (p[..|p| - |alphas|] in [[]]) <==> |p| == |alphas|;
    }
  }

  /** Every list on the second stack is non-empty and indexed. */
  ghost predicate Expandable(m: map<Word, seq<Id>>, lists: seq<seq<Word>>) {
    forall i :: 0 <= i < |lists| ==> lists[i] != [] && Indexed(m, lists[i])
  }

  /** The final products: the lists are pushed in order and popped from the
      top, each expanded completely before the one below it. */
  function ExpandAll(m: map<Word, seq<Id>>, lists: seq<seq<Word>>): seq<seq<Id>>
    requires Expandable(m, lists)
    decreases |lists|
  {
    if lists == [] then []
    else
      var last := |lists| - 1;
      ExpandList(m, lists[last], [[]]) + ExpandAll(m, lists[..last])
  }

  /** A final product is a choice for one of the lists, and every choice
      for every list is a final product. */
  lemma {:induction false} ExpandAllMembers(m: map<Word, seq<Id>>, lists: seq<seq<Word>>, p: seq<Id>)
    requires Expandable(m, lists)
    ensures p in ExpandAll(m, lists) <==> PicksSome(m, lists, p)
    decreases |lists|
  {
    if lists != [] {
      var last := |lists| - 1;
      ExpandListFromEmpty(m, lists[last], p);
      ExpandAllMembers(m, lists[..last], p);
      PicksSomeSplit(m, lists, p);
    }
  }

  /** `p` is a choice for one of the lists. */
  ghost predicate PicksSome(m: map<Word, seq<Id>>, lists: seq<seq<Word>>, p: seq<Id>)
    requires Expandable(m, lists)
  {
    exists i :: 0 <= i < |lists| && Picks(m, lists[i], p)
  }

  lemma PicksSomeSplit(m: map<Word, seq<Id>>, lists: seq<seq<Word>>, p: seq<Id>)
    requires Expandable(m, lists) && lists != []
    ensures PicksSome(m, lists, p) <==>
              Picks(m, lists[|lists| - 1], p) || PicksSome(m, lists[..|lists| - 1], p)
  {
    var last := |lists| - 1;
    var init := lists[..last];
    if PicksSome(m, lists, p) {
      var i :| 0 <= i < |lists| && Picks(m, lists[i], p);
      if i < last {
        assert init[i] == lists[i];
      }
    }
    if PicksSome(m, init, p) {
      var i :| 0 <= i < |init| && Picks(m, init[i], p);
      assert lists[i] == init[i];
    }
  }

  // ---------------------------------------------------------------------
  // Each product once
  // ---------------------------------------------------------------------

  /** No alphagram lists an id twice. */
  ghost predicate DistinctIds(m: map<Word, seq<Id>>) {
    forall a :: a in m ==> NoDup(m[a])
  }

  /** No id is listed under two alphagrams. */
  ghost predicate Separated(m: map<Word, seq<Id>>) {
    forall a, b, id :: a in m && b in m && id in m[a] && id in m[b] ==> a == b
  }

  lemma {:induction false} AppendAllNoDup(products: seq<seq<Id>>, w: Id)
    requires NoDup(products)
    ensures NoDup(AppendAll(products, w))
  {
    var r := AppendAll(products, w);
    forall i, j | 0 <= i < j < |r| ensures r[i] != r[j] {
      assert r[i][..|r[i]| - 1] == products[i];
      assert r[j][..|r[j]| - 1] == products[j];
    }
  }

  /** A round over distinct ids and distinct products gives distinct
      products. */
  lemma {:induction false} ExtendNoDup(ids: seq<Id>, products: seq<seq<Id>>)
    requires NoDup(ids) && NoDup(products)
    ensures NoDup(Extend(ids, products))
    decreases |ids|
  {
    if ids != [] {
      var init := ids[..|ids| - 1];
      var w := ids[|ids| - 1];
      assert NoDup(init) by {
        forall i, j | 0 <= i < j < |init| ensures init[i] != init[j] {
          assert init[i] == ids[i] && init[j] == ids[j];
        }
      }
      ExtendNoDup(init, products);
      AppendAllNoDup(products, w);
      forall p | p in Extend(init, products) ensures p !in AppendAll(products, w) {
        ExtendMembers(init, products, p);
        var n :| 0 <= n < |init| && init[n] == p[|p| - 1];
        assert ids[n] == init[n];
      }
      NoDupConcat(Extend(init, products), AppendAll(products, w));
    }
  }

  /** A list over alphagrams with distinct ids turns distinct products into
      distinct products. */
  lemma {:induction false} ExpandListNoDup(m: map<Word, seq<Id>>, alphas: seq<Word>, products: seq<seq<Id>>)
    requires alphas != [] && Indexed(m, alphas) && DistinctIds(m) && NoDup(products)
    ensures NoDup(ExpandList(m, alphas, products))
    decreases |alphas|
  {
    var last := |alphas| - 1;
    ExtendNoDup(m[alphas[last]], products);
    if last > 0 {
      IndexedPrefix(m, alphas, last);
      ExpandListNoDup(m, alphas[..last], Extend(m[alphas[last]], products));
    }
  }

  /** When no id is listed under two alphagrams, a product chooses for one
      list only. */
  lemma PicksUnique(m: map<Word, seq<Id>>, a: seq<Word>, b: seq<Word>, p: seq<Id>)
    requires Indexed(m, a) && Indexed(m, b) && Separated(m)
    requires Picks(m, a, p) && Picks(m, b, p)
    ensures a == b
  {
    var n := |p|;
    forall i | 0 <= i < n ensures a[i] == b[i] {
      var j := n - 1 - i;
      assert p[j] in m[a[n - 1 - j]] && p[j] in m[b[n - 1 - j]];
      assert a[i] in a && b[i] in b;
    }
  }

  /** Distinct lists over separated alphagrams with distinct ids give every
      product once. */
  lemma {:induction false} ExpandAllNoDup(m: map<Word, seq<Id>>, lists: seq<seq<Word>>)
    requires Expandable(m, lists) && NoDup(lists) && DistinctIds(m) && Separated(m)
    ensures NoDup(ExpandAll(m, lists))
    decreases |lists|
  {
    if lists != [] {
      var last := |lists| - 1;
      var init := lists[..last];
      assert NoDup(init) by {
        forall i, j | 0 <= i < j < |init| ensures init[i] != init[j] {
          assert init[i] == lists[i] && init[j] == lists[j];
        }
      }
      ExpandListNoDup(m, lists[last], [[]]);
      ExpandAllNoDup(m, init);
      forall p | p in ExpandList(m, lists[last], [[]]) ensures p !in ExpandAll(m, init) {
        ExpandListFromEmpty(m, lists[last], p);
        ExpandAllMembers(m, init, p);
        if PicksSome(m, init, p) {
          var i :| 0 <= i < |init| && Picks(m, init[i], p);
          PicksUnique(m, init[i], lists[last], p);
          assert false;
        }
      }
      NoDupConcat(ExpandList(m, lists[last], [[]]), ExpandAll(m, init));
    }
  }
}
