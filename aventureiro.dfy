/** The adventurer chapter (Aventureiro.c): rooms that may hold a clue, a
    clue store that skips empty clues, and a case-sensitive exploration loop
    that collects each room's clue before reading a command. */
module Aventureiro {
  import opened CStrings
  import opened ClueTree
  import opened ClueStore
  import opened Mansion
  import opened Exploration

  /** `criarSala`: the name and clue are copied with `strcpy`, so both must
      fit their `char[50]` buffers; a NULL clue becomes "", and the room
      starts with no exits. */
  function CreateRoom(name: string, clue: Option<string>): (r: Room)
    requires |name| < MaxString
    requires clue.Some? ==> |clue.value| < MaxString
    ensures r.Room? && r.left.NoRoom? && r.right.NoRoom? && Fits(r)
    ensures r.name == name
    ensures clue.None? ==> r.clue == ""
    ensures clue.Some? ==> r.clue == clue.value
  {
    Room(name, if clue.Some? then clue.value else "", NoRoom, NoRoom)
  }

  /** `inserirPista` with its guard: an empty clue leaves the store as it is. */
  function AddClue(t: Tree, k: string): Tree {
    if |k| == 0 then t else Insert(t, k)
  }

  /** The guarded insert keeps the search-tree order, adds exactly a
      non-empty clue, ignores the empty one, and changes nothing for a clue
      already held. */
  lemma AddClueKeys(t: Tree, k: string)
    requires IsBST(t) && |k| < MaxString
    ensures IsBST(AddClue(t, k))
    ensures Keys(AddClue(t, k)) == Keys(t) + (if k == "" then {} else {k})
    ensures k == "" ==> AddClue(t, k) == t
    ensures k in Keys(t) ==> AddClue(t, k) == t
  {
    if k != "" {
      InsertKeys(t, k);
      InsertPreservesBST(t, k);
      if k in Keys(t) {
        InsertExisting(t, k);
      }
    }
  }

  /** A round's collection in the exploration loop is the guarded insert of
      the room's clue. */
  lemma CollectIsAddClue(store: Tree, room: Room)
    requires room.Room?
    ensures Collect(store, room) == AddClue(store, room.clue)
  {
  }

  /** `inserirPista` on the heap: the empty clue returns the root untouched. */
  method InsertClue(root: ClueNode?, k: string) returns (r: ClueNode?)
    requires root != null ==> root.Valid()
    requires |k| < MaxString
    modifies if root != null then root.Repr else {}
    ensures r != null ==> r.Valid()
    ensures TreeOf(r) == AddClue(old(TreeOf(root)), k)
    ensures k == "" ==> r == root
    ensures root != null ==> r == root && fresh(r.Repr - old(root.Repr))
    ensures root == null && r != null ==> fresh(r.Repr)
  {
    if |k| == 0 {
      return root;
    }
    r := ClueNode.Insert(root, k);
  }

  /** `explorarSalasComPistas` over a finite command sequence (the
      non-blank characters read): the room pointer must not be NULL, since
      the loop reads it before any test. The clue store is handed back
      instead of through `*pistas`. */
  method ExploreWithClues(start: Room, clues: ClueNode?, cmds: seq<char>)
    returns (ended: bool, cursor: Room, root: ClueNode?)
    requires start.Room? && Fits(start)
    requires clues != null ==> clues.Valid() && IsBST(clues.Tree)
    modifies if clues != null then clues.Repr else {}
    ensures root != null ==> root.Valid()
    ensures clues != null ==> root == clues
    ensures var s := Run(false, start, old(TreeOf(clues)), cmds);
      ended == s.ended && cursor == s.cursor && TreeOf(root) == s.store
  {
    ghost var store0 := TreeOf(clues);
    ghost var R0: set<object> := if clues != null then clues.Repr else {};
    ghost var visits: seq<Visit> := [];
    ghost var store := store0;
    cursor, root := start, clues;
    var i := 0;
    while true
      invariant cursor.Room? && Tracks(false, start, store0, cmds, i, cursor, store, visits)
      invariant TreeOf(root) == store
      invariant root != null ==> root.Valid()
      invariant clues != null ==> root == clues
      invariant root != null ==> fresh(root.Repr - R0)
      decreases |cmds| - i
    {
      ghost var v := Visit(cursor, cursor.clue != "" && cursor.clue !in Keys(store));
      CollectKeys(store, cursor);
      CollectIsAddClue(store, cursor);
      root := InsertClue(root, cursor.clue);
      if i == |cmds| || cmds[i] == 's' {
        TrackLast(false, start, store0, cmds, i, cursor, store, visits);
        return i < |cmds|, cursor, root;
      }
      TrackRound(false, start, store0, cmds, i, cursor, store, visits);
      store := Collect(store, cursor);
      cursor := Next(cursor, cmds[i]);
      visits := visits + [v];
      i := i + 1;
    }
  }

  /** The clues of the adventurer's mansion, in `strcmp` order; the "á" is the
      two UTF-8 bytes the source file holds. */
  const MansionClues: seq<string> :=
    ["Bilhete misterioso", "Faca suja", "Livro com p\U{C3}\U{A1}ginas rasgadas", "Pegada de lama"]

  /** The elements of `s` that are in `ks`, in the order of `s`. */
  function Only(s: seq<string>, ks: set<string>): (r: seq<string>)
    ensures forall x :: x in r <==> x in s && x in ks
  {
    if s == [] then []
    else if s[0] in ks then [s[0]] + Only(s[1..], ks)
    else Only(s[1..], ks)
  }

  lemma {:induction false} OnlyKeepsSorted(s: seq<string>, ks: set<string>)
    requires StrictlySorted(s)
    ensures StrictlySorted(Only(s, ks))
  {
    if s != [] {
      OnlyKeepsSorted(s[1..], ks);
      var r := Only(s[1..], ks);
      if s[0] in ks {
        forall j | 0 <= j < |r| ensures Less(s[0], r[j]) {
          assert r[j] in s[1..];
        }
        assert Only(s, ks) == [s[0]] + r;
      }
    }
  }

  lemma MansionCluesSorted()
    ensures StrictlySorted(MansionClues)
  {
    var s := MansionClues;
    assert Less(s[0], s[1]) && Less(s[1], s[2]) && Less(s[2], s[3]);
    forall i, j | 0 <= i < j < |s| ensures Less(s[i], s[j]) {
      if j == i + 1 {
      } else if j == i + 2 {
        LessTransitive(s[i], s[i + 1], s[j]);
      } else {
        LessTransitive(s[0], s[1], s[2]);
        LessTransitive(s[0], s[2], s[3]);
      }
    }
  }

  lemma MansionCluesFit(x: string)
    requires x in MansionClues
    ensures |x| < MaxString
  {
    var i :| 0 <= i < |MansionClues| && MansionClues[i] == x;
    assert |MansionClues[0]| == 18 && |MansionClues[1]| == 9;
    assert |MansionClues[2]| == 27 && |MansionClues[3]| == 14;
  }

  /** Whatever clues of the mansion are collected, in whatever order, the
      listing shows exactly those clues in alphabetical order. */
  lemma MansionListing(ks: seq<string>)
    requires forall i :: 0 <= i < |ks| ==> ks[i] in MansionClues
    ensures InOrder(InsertAll(Nil, ks)) == Only(MansionClues, set x | x in ks)
  {
    var t := InsertAll(Nil, ks);
    var held := set x | x in ks;
    var expected := Only(MansionClues, held);
    forall i | 0 <= i < |ks| ensures |ks[i]| < MaxString {
      MansionCluesFit(ks[i]);
    }
    InsertAllKeys(Nil, ks);
    InOrderSorted(t);
    MansionCluesSorted();
    OnlyKeepsSorted(MansionClues, held);
    forall x ensures x in InOrder(t) <==> x in expected {
      assert x in held ==> x in MansionClues;
    }
    SortedUnique(InOrder(t), expected);
  }

  /** Commands are matched exactly: an upper-case letter moves nowhere and
      does not end the loop. */
  lemma CaseSensitive(room: Room, store: Tree, c: char, rest: seq<char>)
    requires room.Room? && IsBST(store) && Fits(room)
    requires c == 'E' || c == 'D' || c == 'S'
    ensures Navigate(room, Command(false, c)) == Stay
    ensures var a, b := Run(false, room, store, [c] + rest), Run(false, room, store, rest);
      a.ended == b.ended && a.cursor == b.cursor && a.store == b.store
  {
    InvalidCommandIsNoOp(false, room, store, c, rest);
  }
}
