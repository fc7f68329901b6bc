/** The abstract value of the clue store: a binary search tree of clue texts
    under `strcmp` order, with the insert-or-ignore of `inserirPista` and the
    in-order walk of `listarPistas`/`exibirPistas`. The heap nodes in
    module ClueStore are proved to follow these functions. */
module ClueTree {
  import opened CStrings

  datatype Tree = Nil | Node(left: Tree, key: string, right: Tree)

  function Keys(t: Tree): set<string> {
    match t
    case Nil => {}
    case Node(l, k, r) => Keys(l) + {k} + Keys(r)
  }

  function Size(t: Tree): nat {
    match t
    case Nil => 0
    case Node(l, _, r) => Size(l) + 1 + Size(r)
  }

  /** Every key of a left subtree is below its node's key and every key of a
      right subtree above it, at every node. */
  ghost predicate IsBST(t: Tree) {
    match t
    case Nil => true
    case Node(l, k, r) =>
      && (forall x :: x in Keys(l) ==> Less(x, k))
      && (forall x :: x in Keys(r) ==> Less(k, x))
      && IsBST(l) && IsBST(r)
  }

  /** The insert of `inserirPista`: descend by `strcmp`, ignore an equal key,
      hang a new leaf holding the truncated text at the empty place. */
  function Insert(t: Tree, k: string): Tree {
    match t
    case Nil => Node(Nil, Truncate(k), Nil)
    case Node(l, x, r) =>
      var c := Compare(k, x);
      if c < 0 then Node(Insert(l, k), x, r)
      else if c > 0 then Node(l, x, Insert(r, k))
      else t
  }

  /** The in-order walk: left subtree, node, right subtree. */
  function InOrder(t: Tree): seq<string> {
    match t
    case Nil => []
    case Node(l, k, r) => InOrder(l) + [k] + InOrder(r)
  }

  /** Clues inserted one after another, as exploration does. */
  function InsertAll(t: Tree, ks: seq<string>): Tree
    decreases |ks|
  {
    if ks == [] then t else InsertAll(Insert(t, ks[0]), ks[1..])
  }

  ghost predicate StrictlySorted(s: seq<string>) {
    forall i, j :: 0 <= i < j < |s| ==> Less(s[i], s[j])
  }

  /** A key of fewer than 50 characters ends up in the tree, and nothing else does. */
  lemma {:induction false} InsertKeys(t: Tree, k: string)
    requires |k| < MaxString
    ensures Keys(Insert(t, k)) == Keys(t) + {k}
  {
    match t
    case Nil =>
    case Node(l, x, r) =>
      if Compare(k, x) < 0 {
        InsertKeys(l, k);
      } else if Compare(k, x) > 0 {
        InsertKeys(r, k);
      }
  }

  /** Insertion keeps the search-tree ordering. */
  lemma {:induction false} InsertPreservesBST(t: Tree, k: string)
    requires IsBST(t) && |k| < MaxString
    ensures IsBST(Insert(t, k))
  {
    match t
    case Nil =>
    case Node(l, x, r) =>
      CompareFlip(k, x);
      if Compare(k, x) < 0 {
        InsertPreservesBST(l, k);
        InsertKeys(l, k);
      } else if Compare(k, x) > 0 {
        InsertPreservesBST(r, k);
        InsertKeys(r, k);
      }
  }

  /** In a search tree, a key below the node key can only be in the left
      subtree and a key above it only in the right one. */
  lemma SearchStep(t: Tree, k: string)
    requires t.Node? && IsBST(t)
    ensures Less(k, t.key) ==> (k in Keys(t) <==> k in Keys(t.left))
    ensures Less(t.key, k) ==> (k in Keys(t) <==> k in Keys(t.right))
  {
    if Less(k, t.key) && k in Keys(t.right) {
      Trichotomy(k, t.key);
    }
    if Less(t.key, k) && k in Keys(t.left) {
      Trichotomy(k, t.key);
    }
  }

  /** Inserting a key the tree already holds changes nothing. */
  lemma {:induction false} InsertExisting(t: Tree, k: string)
    requires IsBST(t) && k in Keys(t)
    ensures Insert(t, k) == t
  {
    match t
    case Node(l, x, r) =>
      CompareFlip(k, x);
      SearchStep(t, k);
      if Compare(k, x) < 0 {
        InsertExisting(l, k);
      } else if Compare(k, x) > 0 {
        InsertExisting(r, k);
      }
  }

  /** The tree changes exactly when the key is new. */
  lemma InsertChangesIffNew(t: Tree, k: string)
    requires IsBST(t) && |k| < MaxString
    ensures Insert(t, k) == t <==> k in Keys(t)
  {
    if k in Keys(t) {
      InsertExisting(t, k);
    } else {
      InsertKeys(t, k);
    }
  }

  /** Inserting the same clue twice is the same as inserting it once. */
  lemma InsertIdempotent(t: Tree, k: string)
    requires IsBST(t) && |k| < MaxString
    ensures Insert(Insert(t, k), k) == Insert(t, k)
  {
    InsertKeys(t, k);
    InsertPreservesBST(t, k);
    InsertExisting(Insert(t, k), k);
  }

  /** Insertion never replaces the root: `inserirPista` returns the root it
      was given whenever that root is not NULL. */
  lemma InsertKeepsRoot(t: Tree, k: string)
    requires t.Node?
    ensures Insert(t, k).Node? && Insert(t, k).key == t.key
  {
  }

  lemma {:induction false} InOrderElements(t: Tree)
    ensures forall x :: x in InOrder(t) <==> x in Keys(t)
    ensures |InOrder(t)| == Size(t)
  {
    match t
    case Nil =>
    case Node(l, k, r) =>
      InOrderElements(l);
      InOrderElements(r);
      assert InOrder(t) == InOrder(l) + [k] + InOrder(r);
  }

  /** The listing of a search tree is strictly ascending (so it has no
      duplicates) and lists exactly the stored keys. */
  lemma {:induction false} InOrderSorted(t: Tree)
    requires IsBST(t)
    ensures StrictlySorted(InOrder(t))
    ensures forall x :: x in InOrder(t) <==> x in Keys(t)
    ensures |InOrder(t)| == Size(t) == |Keys(t)|
  {
    InOrderElements(t);
    assert (set x | x in InOrder(t)) == Keys(t);
    match t
    case Nil =>
    case Node(l, k, r) =>
      InOrderSorted(l);
      InOrderSorted(r);
      SortedAround(InOrder(l), k, InOrder(r));
      DistinctCount(InOrder(t));
  }

  /** Joining two ascending runs around a key that separates them gives an
      ascending run. */
  lemma SortedAround(ls: seq<string>, k: string, rs: seq<string>)
    requires StrictlySorted(ls) && StrictlySorted(rs)
    requires forall i :: 0 <= i < |ls| ==> Less(ls[i], k)
    requires forall i :: 0 <= i < |rs| ==> Less(k, rs[i])
    ensures StrictlySorted(ls + [k] + rs)
  {
    var s := ls + [k] + rs;
    forall i, j | 0 <= i < j < |s|
      ensures Less(s[i], s[j])
    {
      if i < |ls| && j > |ls| {
        assert s[j] == rs[j - |ls| - 1];
        LessTransitive(s[i], k, s[j]);
      } else if i > |ls| {
        assert s[i] == rs[i - |ls| - 1] && s[j] == rs[j - |ls| - 1];
      }
    }
  }

  /** A strictly ascending sequence has as many elements as its element set. */
  lemma {:induction false} DistinctCount(s: seq<string>)
    requires StrictlySorted(s)
    ensures |set x | x in s| == |s|
  {
    if s != [] {
      DistinctCount(s[1..]);
      Trichotomy(s[0], s[0]);
      assert s[0] !in s[1..] by {
        forall j | 0 <= j < |s[1..]| ensures s[1..][j] != s[0] {
          assert Less(s[0], s[j + 1]);
        }
      }
      assert (set x | x in s) == {s[0]} + (set x | x in s[1..]);
    }
  }

  /** Two strictly ascending sequences with the same elements are equal: the
      listing of a set of clues does not depend on how it was built. */
  lemma {:induction false} SortedUnique(a: seq<string>, b: seq<string>)
    requires StrictlySorted(a) && StrictlySorted(b)
    requires forall x :: x in a <==> x in b
    ensures a == b
  {
    if a != [] {
      assert a[0] in a;
    }
    if b != [] {
      assert b[0] in b;
    }
    if a != [] {
      assert a[0] in b && b[0] in a;
      var i :| 0 <= i < |a| && a[i] == b[0];
      var j :| 0 <= j < |b| && b[j] == a[0];
      if i > 0 && j > 0 {
        assert Less(a[0], a[i]) && Less(b[0], b[j]);
        Trichotomy(a[0], b[0]);
        assert false;
      }
      assert a[0] == b[0];
      Trichotomy(a[0], a[0]);
      forall x ensures x in a[1..] <==> x in b[1..] {
        if x in a[1..] {
          var k :| 0 <= k < |a[1..]| && a[1..][k] == x;
          assert Less(a[0], a[k + 1]);
          assert x in b;
        }
        if x in b[1..] {
          var k :| 0 <= k < |b[1..]| && b[1..][k] == x;
          assert Less(b[0], b[k + 1]);
          assert x in a;
        }
      }
      SortedUnique(a[1..], b[1..]);
      assert a == [a[0]] + a[1..] && b == [b[0]] + b[1..];
    }
  }

  /** Inserting a run of short clues into a search tree keeps it a search tree
      and adds exactly those clues. */
  lemma {:induction false} InsertAllKeys(t: Tree, ks: seq<string>)
    requires IsBST(t)
    requires forall i :: 0 <= i < |ks| ==> |ks[i]| < MaxString
    ensures IsBST(InsertAll(t, ks))
    ensures Keys(InsertAll(t, ks)) == Keys(t) + (set x | x in ks)
    decreases |ks|
  {
    if ks != [] {
      InsertKeys(t, ks[0]);
      InsertPreservesBST(t, ks[0]);
      InsertAllKeys(Insert(t, ks[0]), ks[1..]);
      assert (set x | x in ks) == {ks[0]} + (set x | x in ks[1..]);
    }
  }

  /** Whatever order the same clues are collected in, the listing is the same. */
  lemma ListingIgnoresInsertionOrder(ks: seq<string>, ms: seq<string>)
    requires forall i :: 0 <= i < |ks| ==> |ks[i]| < MaxString
    requires forall i :: 0 <= i < |ms| ==> |ms[i]| < MaxString
    requires forall x :: x in ks <==> x in ms
    ensures InOrder(InsertAll(Nil, ks)) == InOrder(InsertAll(Nil, ms))
  {
    var tk, tm := InsertAll(Nil, ks), InsertAll(Nil, ms);
    InsertAllKeys(Nil, ks);
    InsertAllKeys(Nil, ms);
    InOrderSorted(tk);
    InOrderSorted(tm);
    forall x ensures x in InOrder(tk) <==> x in InOrder(tm) {
      assert x in Keys(tk) <==> x in ks;
      assert x in Keys(tm) <==> x in ms;
    }
    SortedUnique(InOrder(tk), InOrder(tm));
  }
}
