/** The clue store as the C code keeps it: heap nodes (`NoPista`,
    `PistaNode`) whose child pointers `inserirPista` rewrites in place. Each
    node carries its abstract value (`Tree`) and footprint (`Repr`) as ghost
    state; `Valid` ties them to the real fields. */
module ClueStore {
  import opened CStrings
  import opened ClueTree

  class ClueNode {
    var key: string
    var left: ClueNode?
    var right: ClueNode?
    ghost var Tree: ClueTree.Tree
    ghost var Repr: set<object>

    ghost predicate Valid()
      reads this, Repr
      decreases Repr
    {
      && this in Repr
      && (left != null ==>
            left in Repr && left.Repr <= Repr && this !in left.Repr && left.Valid())
      && (right != null ==>
            right in Repr && right.Repr <= Repr && this !in right.Repr && right.Valid())
      && (left != null && right != null ==> left.Repr !! right.Repr)
      && Tree == Node(TreeOf(left), key, TreeOf(right))
    }

    /** The node `malloc`ed for a new clue: both children NULL. */
    constructor (k: string)
      ensures Valid() && fresh(Repr)
      ensures key == k && left == null && right == null
      ensures Tree == Node(Nil, k, Nil)
    {
      key := k;
      left := null;
      right := null;
      Tree := Node(Nil, k, Nil);
      Repr := {this};
    }

    /** `inserirPista` (Mestre.c): a NULL root becomes a fresh node holding
        the truncated clue; otherwise the method descends by `strcmp`,
        rewrites the child pointer it went through, and returns the root it
        was given, whether or not the clue was new. */
    static method Insert(root: ClueNode?, k: string) returns (r: ClueNode)
      requires root != null ==> root.Valid()
      modifies if root != null then root.Repr else {}
      ensures r.Valid()
      ensures r.Tree == ClueTree.Insert(old(TreeOf(root)), k)
      ensures root != null ==> r == root && fresh(r.Repr - old(root.Repr))
      ensures root == null ==> fresh(r.Repr)
      decreases if root != null then root.Repr else {}
    {
      if root == null {
        r := new ClueNode(Truncate(k));
        return;
      }
      var c := Compare(k, root.key);
      if c < 0 {
        var l := Insert(root.left, k);
        root.AttachLeft(l);
      } else if c > 0 {
        var rt := Insert(root.right, k);
        root.AttachRight(rt);
      }
      r := root;
    }

    /** Hang a rebuilt left subtree back under this node. */
    method AttachLeft(l: ClueNode)
      requires this in Repr && this !in l.Repr && l.Valid()
      requires right != null ==>
        right in Repr && right.Repr <= Repr && this !in right.Repr && right.Valid() && l.Repr !! right.Repr
      modifies this
      ensures Valid()
      ensures left == l && right == old(right) && key == old(key)
      ensures Tree == Node(l.Tree, key, old(TreeOf(right)))
      ensures Repr == old(Repr) + l.Repr
    {
      left := l;
      Repr := Repr + l.Repr;
      Tree := Node(l.Tree, key, TreeOf(right));
    }

    /** Hang a rebuilt right subtree back under this node. */
    method AttachRight(rt: ClueNode)
      requires this in Repr && this !in rt.Repr && rt.Valid()
      requires left != null ==>
        left in Repr && left.Repr <= Repr && this !in left.Repr && left.Valid() && rt.Repr !! left.Repr
      modifies this
      ensures Valid()
      ensures right == rt && left == old(left) && key == old(key)
      ensures Tree == Node(TreeOf(left), key, rt.Tree)
      ensures Repr == old(Repr) + rt.Repr
    {
      right := rt;
      Repr := Repr + rt.Repr;
      Tree := Node(TreeOf(left), key, rt.Tree);
    }

    /** Search for a clue by `strcmp` descent, without changing the tree. */
    static method Contains(root: ClueNode?, k: string) returns (found: bool)
      requires root != null ==> root.Valid() && IsBST(root.Tree)
      ensures found <==> k in Keys(TreeOf(root))
    {
      var n := root;
      while n != null
        invariant n != null ==> n.Valid() && IsBST(n.Tree)
        invariant k in Keys(TreeOf(root)) <==> k in Keys(TreeOf(n))
        decreases if n != null then n.Repr else {}
      {
        var c := Compare(k, n.key);
        SearchStep(n.Tree, k);
        CompareFlip(k, n.key);
        if c == 0 {
          return true;
        } else if c < 0 {
          n := n.left;
        } else {
          n := n.right;
        }
      }
      return false;
    }

    /** `listarPistas` (Mestre.c) and `exibirPistas` (Aventureiro.c): the
        clues in the order the in-order walk prints them. */
    static method List(root: ClueNode?) returns (s: seq<string>)
      requires root != null ==> root.Valid()
      ensures s == InOrder(TreeOf(root))
      decreases if root != null then root.Repr else {}
    {
      if root == null {
        return [];
      }
      var ls := List(root.left);
      var rs := List(root.right);
      s := ls + [root.key] + rs;
    }
  }

  /** The abstract value of a possibly NULL root. */
  ghost function TreeOf(n: ClueNode?): ClueTree.Tree
    reads n
  {
    if n == null then Nil else n.Tree
  }
}
