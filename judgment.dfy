/** The final judgment of Mestre.c (`verificarSuspeitoFinal` with its nested
    `contarPistas`): walk the collected clues in order, look each one up in
    the suspect index, count those that name the accused, and declare
    success when the count reaches two. */
module Judgment {
  import opened CStrings
  import opened ClueTree
  import opened ClueStore
  import opened SuspectIndex

  /** The fixed number of clues an accusation needs. */
  const Threshold: nat := 2

  /** `contarPistas` as a function: in-order over the store, one for every
      clue whose looked-up suspect equals the accused name. */
  function Tally(t: Tree, table: seq<seq<Item>>, accused: string): nat
    requires |table| == TableSize
  {
    match t
    case Nil => 0
    case Node(l, k, r) =>
      Tally(l, table, accused) + (if Lookup(table, k) == Some(accused) then 1 else 0) + Tally(r, table, accused)
  }

  /** The collected clues that the index ties to the accused. */
  ghost function Incriminating(t: Tree, table: seq<seq<Item>>, accused: string): set<string>
    requires |table| == TableSize
  {
    set k | k in Keys(t) && Lookup(table, k) == Some(accused)
  }

  /** The tally is the number of distinct collected clues that point to the
      accused: in-order walking is incidental, and a clue missing from the
      index counts for nobody. */
  lemma TallyCountsIncriminatingClues(t: Tree, table: seq<seq<Item>>, accused: string)
    requires |table| == TableSize && IsBST(t)
    ensures Tally(t, table, accused) == |Incriminating(t, table, accused)|
  {
    var s := Incriminating(t, table, accused);
    TallyIsCountIn(t, table, accused, s);
    CountInIsCard(t, s);
    assert Keys(t) * s == s;
  }

  /** How many keys of `t` lie in `s`, counted node by node. */
  function CountIn(t: Tree, s: set<string>): nat {
    match t
    case Nil => 0
    case Node(l, k, r) => CountIn(l, s) + (if k in s then 1 else 0) + CountIn(r, s)
  }

  lemma {:induction false} TallyIsCountIn(t: Tree, table: seq<seq<Item>>, accused: string, s: set<string>)
    requires |table| == TableSize
    requires forall k :: k in Keys(t) ==> (k in s <==> Lookup(table, k) == Some(accused))
    ensures Tally(t, table, accused) == CountIn(t, s)
  {
    match t
    case Nil =>
    case Node(l, k, r) =>
      TallyIsCountIn(l, table, accused, s);
      TallyIsCountIn(r, table, accused, s);
  }

  /** In a search tree no key is met twice, so the node-by-node count is
      the size of the common part. */
  lemma {:induction false} CountInIsCard(t: Tree, s: set<string>)
    requires IsBST(t)
    ensures CountIn(t, s) == |Keys(t) * s|
  {
    match t
    case Nil =>
      assert Keys(t) * s == {};
    case Node(l, k, r) =>
      CountInIsCard(l, s);
      CountInIsCard(r, s);
      SidesApart(t);
      CardSplit(Keys(l), k, Keys(r), s);
  }

  lemma CardSplit(left: set<string>, k: string, right: set<string>, s: set<string>)
    requires k !in left && k !in right && left !! right
    ensures |(left + {k} + right) * s| == |left * s| + (if k in s then 1 else 0) + |right * s|
  {
    var mid: set<string> := if k in s then {k} else {};
    var a, c := left * s, right * s;
    assert (left + {k} + right) * s == a + mid + c;
    CardUnion3(a, mid, c);
  }

  /** In a search tree the root key and the two subtrees share no key. */
  lemma SidesApart(t: Tree)
    requires t.Node? && IsBST(t)
    ensures t.key !in Keys(t.left) && t.key !in Keys(t.right)
    ensures Keys(t.left) !! Keys(t.right)
  {
    Trichotomy(t.key, t.key);
    forall x | x in Keys(t.left) && x in Keys(t.right) ensures false {
      LessTransitive(x, t.key, x);
      Trichotomy(x, x);
    }
  }

  lemma CardUnion3(a: set<string>, b: set<string>, c: set<string>)
    requires a !! b && b !! c && a !! c
    ensures |a + b + c| == |a| + |b| + |c|
  {
    assert |a + b| == |a| + |b|;
  }

  /** The tally never exceeds the number of collected clues. */
  lemma {:induction false} TallyAtMostSize(t: Tree, table: seq<seq<Item>>, accused: string)
    requires |table| == TableSize
    ensures Tally(t, table, accused) <= Size(t)
  {
    match t
    case Nil =>
    case Node(l, _, r) =>
      TallyAtMostSize(l, table, accused);
      TallyAtMostSize(r, table, accused);
  }

  /** The verdict: success exactly when at least Threshold clues point to the accused. */
  function Succeeds(count: nat): bool {
    count >= Threshold
  }

  /** With no clues collected the count is zero and the accusation fails. */
  lemma EmptyStoreFails(table: seq<seq<Item>>, accused: string)
    requires |table| == TableSize
    ensures Tally(Nil, table, accused) == 0
    ensures !Succeeds(Tally(Nil, table, accused))
  {
  }

  /** Three collected clues, two tied to one suspect and one to another:
      accusing the first counts two and succeeds, accusing the second
      counts one and fails. */
  lemma TwoOfThree(t: Tree, table: seq<seq<Item>>, c1: string, c2: string, c3: string, a: string, b: string)
    requires |table| == TableSize && IsBST(t)
    requires Keys(t) == {c1, c2, c3} && c1 != c2 && c2 != c3 && c1 != c3 && a != b
    requires Lookup(table, c1) == Some(a) && Lookup(table, c2) == Some(a) && Lookup(table, c3) == Some(b)
    ensures Tally(t, table, a) == 2 && Succeeds(Tally(t, table, a))
    ensures Tally(t, table, b) == 1 && !Succeeds(Tally(t, table, b))
  {
    assert Lookup(table, c3) != Some(a);
    assert Lookup(table, c1) != Some(b) && Lookup(table, c2) != Some(b);
    TallyIs(t, table, a, {c1, c2});
    TallyIs(t, table, b, {c3});
    assert |{c1, c2}| == 2;
  }

  /** The tally is the size of any set of collected clues that holds
      exactly the ones pointing to the accused. */
  lemma TallyIs(t: Tree, table: seq<seq<Item>>, accused: string, clues: set<string>)
    requires |table| == TableSize && IsBST(t) && clues <= Keys(t)
    requires forall x :: x in Keys(t) ==> (Lookup(table, x) == Some(accused) <==> x in clues)
    ensures Tally(t, table, accused) == |clues|
  {
    TallyCountsIncriminatingClues(t, table, accused);
    assert Incriminating(t, table, accused) == clues;
  }

  /** `contarPistas` over the heap nodes: left subtree, this clue, right subtree. */
  method CountClues(n: ClueNode?, table: SuspectTable, accused: string) returns (c: nat)
    requires n != null ==> n.Valid()
    requires table.buckets.Length == TableSize
    ensures c == Tally(TreeOf(n), table.buckets[..], accused)
    decreases if n != null then n.Repr else {}
  {
    if n == null {
      return 0;
    }
    var l := CountClues(n.left, table, accused);
    var suspect := table.Find(n.key);
    var here := if suspect.Some? && Compare(suspect.value, accused) == 0 then 1 else 0;
    var r := CountClues(n.right, table, accused);
    c := l + here + r;
  }

  /** What the judgment phase shows: the no-evidence notice, the ordered
      clue listing, the count against the accused and the verdict. */
  datatype Accusation = Accusation(noEvidence: bool, listing: seq<string>, count: nat, success: bool)

  /** `verificarSuspeitoFinal`, with the accused name given instead of read
      from the console. */
  method Judge(root: ClueNode?, table: SuspectTable, accused: string) returns (j: Accusation)
    requires root != null ==> root.Valid()
    requires table.buckets.Length == TableSize
    ensures j.noEvidence <==> root == null
    ensures j.listing == InOrder(TreeOf(root))
    ensures j.count == Tally(TreeOf(root), table.buckets[..], accused)
    ensures j.success <==> Succeeds(j.count)
  {
    var listing: seq<string> := [];
    if root != null {
      listing := ClueNode.List(root);
    }
    var count := CountClues(root, table, accused);
    j := Accusation(root == null, listing, count, Succeeds(count));
  }
}
