/** The alphagram trie (`TrieNode`, src/anagram.rs:11-32 and the insertion
    loop of `AnagramR::new`, src/anagram.rs:42-59). */
module Tries {
  import opened Prelude
  import opened Words

  /** `TrieNode`: `Full` holds one child slot per letter and, at the end of a
      stored alphagram's path, that alphagram. */
  datatype Trie = Empty | Full(next: seq<Trie>, alpha: Option<Word>)

  /** `TrieNode::new_full`: 26 empty slots, nothing stored. */
  function NewFull(): Trie {
    Full(seq(26, _ => Empty), None)
  }

  /** Every `Full` node has exactly 26 child slots (the source's array type). */
  ghost predicate Shaped(t: Trie)
    decreases t
  {
    match t
    case Empty => true
    case Full(next, _) => |next| == 26 && forall i :: 0 <= i < |next| ==> Shaped(next[i])
  }

  /** The slot for letter `c`; on a shaped node this is `next[c]`. */
  function Child(t: Trie, c: Letter): Trie {
    match t
    case Empty => Empty
    case Full(next, _) => if c < |next| then next[c] else Empty
  }

  /** The node reached by following the letters of `q` from `t`. */
  function Find(t: Trie, q: Word): Trie
    decreases |q|
  {
    if q == [] then t else Find(Child(t, q[0]), q[1..])
  }

  /** Some alphagram is stored at the end of path `q` below `t`. */
  ghost predicate StoredAt(t: Trie, q: Word) {
    Find(t, q).Full? && Find(t, q).alpha.Some?
  }

  /** `t` is the node at path `p`: every alphagram stored below it equals the
      path that leads to it. */
  ghost predicate PathsOk(t: Trie, p: Word)
    decreases t
  {
    match t
    case Empty => true
    case Full(next, a) =>
      && (a.Some? ==> a.value == p)
      && forall c: Letter :: c < |next| ==> PathsOk(next[c], p + [c])
  }

  lemma ChildPathsOk(t: Trie, p: Word, c: Letter)
    requires PathsOk(t, p)
    ensures PathsOk(Child(t, c), p + [c])
  {
  }

  /** Under `PathsOk`, the alphagram stored at path `q` is `p + q`. */
  lemma {:induction false} FindPathsOk(t: Trie, p: Word, q: Word)
    requires PathsOk(t, p) && StoredAt(t, q)
    ensures Find(t, q).alpha.value == p + q
    decreases |q|
  {
    if q != [] {
      ChildPathsOk(t, p, q[0]);
      FindPathsOk(Child(t, q[0]), p + [q[0]], q[1..]);
      assert p + [q[0]] + q[1..] == p + q;
    }
  }

  lemma {:induction false} FindEmpty(q: Word)
    ensures Find(Empty, q) == Empty
    decreases |q|
  {
    if q != [] {
      FindEmpty(q[1..]);
    }
  }

  /** A fresh node stores nothing anywhere below it. */
  lemma NewFullFacts(p: Word)
    ensures Shaped(NewFull()) && PathsOk(NewFull(), p)
    ensures forall q :: !StoredAt(NewFull(), q)
  {
    forall q
      ensures !StoredAt(NewFull(), q)
    {
      if q != [] {
        FindEmpty(q[1..]);
      }
    }
  }

  /** `get_or_insert_with`: stores `key` at a `Full` node that stores nothing yet. */
  function GetOrInsert(t: Trie, key: Word): Trie {
    match t
    case Empty => t
    case Full(next, a) => Full(next, if a.Some? then a else Some(key))
  }

  /** One pass of the insertion loop from position `i` of `key`, starting at
      `node`: create missing nodes along the path and store `key` at the
      node for its last letter. */
  function InsertFrom(node: Trie, key: Word, i: nat): Trie
    requires i <= |key| && Shaped(node)
    decreases |key| - i
  {
    if i == |key| then node
    else
      match node
      case Empty => node
      case Full(next, a) =>
        var c := key[i];
        var child := if next[c].Empty? then NewFull() else next[c];
        var child' := if i == |key| - 1 then GetOrInsert(child, key) else child;
        NewFullFacts([]);
        assert Shaped(child);
        assert Shaped(child');
        Full(next[c := InsertFrom(child', key, i + 1)], a)
  }

  /** Inserting `key` into the trie rooted at `root`. The empty key takes no
      step and stores nothing. */
  function Insert(root: Trie, key: Word): Trie
    requires Shaped(root)
  {
    InsertFrom(root, key, 0)
  }

  /** What the slot for `key[i]` becomes before the rest of the key is
      inserted below it. */
  lemma {:induction false} PreparedChild(node: Trie, key: Word, i: nat)
    requires i < |key| && Shaped(node) && node.Full? && PathsOk(node, key[..i])
    ensures var c := key[i];
            var child := if node.next[c].Empty? then NewFull() else node.next[c];
            var child' := if i == |key| - 1 then GetOrInsert(child, key) else child;
            && child'.Full? && Shaped(child') && PathsOk(child', key[..i + 1])
            && (i == |key| - 1 ==> child'.alpha.Some?)
            && forall q :: q != [] || i < |key| - 1 ==>
                 (StoredAt(child', q) <==> StoredAt(Child(node, c), q))
  {
    var c := key[i];
    assert key[..i + 1] == key[..i] + [c];
    ChildPathsOk(node, key[..i], c);
    NewFullFacts(key[..i + 1]);
    var child := if node.next[c].Empty? then NewFull() else node.next[c];
    var child' := if i == |key| - 1 then GetOrInsert(child, key) else child;
    if i == |key| - 1 {
      assert key[..i + 1] == key;
    }
    forall q | q != [] || i < |key| - 1
      ensures StoredAt(child', q) <==> StoredAt(Child(node, c), q)
    {
      if node.next[c].Empty? {
        FindEmpty(q);
      }
      if q != [] {
        assert Child(child', q[0]) == Child(child, q[0]);
      }
    }
  }

  /** Inserting `key` below the node at path `key[..i]` keeps the trie well
      formed and adds exactly the path `key[i..]` to the stored ones. */
  lemma {:induction false} InsertSpec(node: Trie, key: Word, i: nat)
    requires i < |key| && Shaped(node) && node.Full? && PathsOk(node, key[..i])
    ensures var r := InsertFrom(node, key, i);
            && r.Full? && r.alpha == node.alpha && Shaped(r)
            && PathsOk(r, key[..i])
            && forall q :: StoredAt(r, q) <==> StoredAt(node, q) || q == key[i..]
    decreases |key| - i
  {
    var c := key[i];
    var next := node.next;
    var child := if next[c].Empty? then NewFull() else next[c];
    var child' := if i == |key| - 1 then GetOrInsert(child, key) else child;
    PreparedChild(node, key, i);
    var nc := InsertFrom(child', key, i + 1);
    var r := InsertFrom(node, key, i);
    assert r == Full(next[c := nc], node.alpha);
    assert key[..i + 1] == key[..i] + [c];
    // The new slot stores exactly what the old one did, plus `key[i + 1..]`.
    if i + 1 < |key| {
      InsertSpec(child', key, i + 1);
    }
    assert nc.Full? && Shaped(nc) && PathsOk(nc, key[..i + 1]);
    assert forall q :: StoredAt(nc, q) <==> StoredAt(Child(node, c), q) || q == key[i + 1..];
    forall d: Letter | d < |r.next|
      ensures PathsOk(r.next[d], key[..i] + [d])
    {
      if d != c {
        ChildPathsOk(node, key[..i], d);
      }
    }
    SlotStored(node, nc, key, i);
  }

  /** Replacing the slot of `key[i]` by a node that stores what the old slot
      did plus `key[i + 1..]` adds exactly `key[i..]` to the stored paths. */
  lemma SlotStored(node: Trie, nc: Trie, key: Word, i: nat)
    requires i < |key| && node.Full? && key[i] < |node.next|
    requires forall q :: StoredAt(nc, q) <==> StoredAt(Child(node, key[i]), q) || q == key[i + 1..]
    ensures forall q :: StoredAt(Full(node.next[key[i] := nc], node.alpha), q) <==> StoredAt(node, q) || q == key[i..]
  {
    var r := Full(node.next[key[i] := nc], node.alpha);
    forall q
      ensures StoredAt(r, q) <==> StoredAt(node, q) || q == key[i..]
    {
      if q != [] {
        var c := key[i];
        assert key[i..] == [c] + key[i + 1..];
        FindStep(r, q);
        FindStep(node, q);
        if q[0] == c {
          assert Child(r, q[0]) == nc;
          assert q == key[i..] <==> q[1..] == key[i + 1..];
        } else {
          assert Child(r, q[0]) == Child(node, q[0]);
        }
      }
    }
  }

  lemma FindStep(t: Trie, q: Word)
    requires q != []
    ensures Find(t, q) == Find(Child(t, q[0]), q[1..])
    ensures StoredAt(t, q) <==> StoredAt(Child(t, q[0]), q[1..])
  {
  }
}
