/** The final chapter (Mestre.c): rooms with static clues, the clue store
    grown while exploring, and the round-by-round report about each clue.
    The suspect index lives in SuspectIndex and the judgment in Judgment. */
module Mestre {
  import opened CStrings
  import opened ClueTree
  import opened ClueStore
  import opened Mansion
  import opened Exploration

  /** `criarSala`: name and clue are copied into `char[50]` buffers with
      `strncpy` and a forced terminator, and the room starts with no exits. */
  function CreateRoom(name: string, clue: string): (r: Room)
    ensures r.Room? && r.left.NoRoom? && r.right.NoRoom? && Fits(r)
    ensures r.name <= name && r.clue <= clue
    ensures |name| < MaxString ==> r.name == name
    ensures |clue| < MaxString ==> r.clue == clue
    ensures |name| >= MaxString ==> |r.name| == MaxString - 1
    ensures |clue| >= MaxString ==> |r.clue| == MaxString - 1
  {
    Room(Truncate(name), Truncate(clue), NoRoom, NoRoom)
  }

  /** The line a round prints about the room's clue: none (the room is
      clean), "registered", "already collected", or nothing at all. */
  datatype Report = Clean | Registered | AlreadyCollected | Silent

  /** The report as the two pointer tests decide it: `wasNull` is whether
      the store's root was NULL before the insert, `sameRoot` whether the
      insert handed back that same root. */
  function ReportFromPointers(room: Room, wasNull: bool, sameRoot: bool): Report
    requires room.Room?
  {
    if room.clue == "" then Clean
    else if !sameRoot && !wasNull then Registered
    else if sameRoot && !wasNull && Compare(room.clue, room.name) != 0 then AlreadyCollected
    else Silent
  }

  /** The report as written, in terms of the store before the round. Since
      `inserirPista` returns the root it was given whenever that root is not
      NULL, "registered" can never be printed, and every non-empty store
      draws "already collected", new clue or not. */
  function ReportAsWritten(room: Room, store: Tree): (rep: Report)
    requires room.Room?
    ensures rep != Registered
    ensures rep == AlreadyCollected <==> room.clue != "" && store != Nil && room.clue != room.name
  {
    ReportFromPointers(room, store == Nil, store != Nil)
  }

  /** The evident intent of the report: "registered" exactly when the clue
      is new to the store, "already collected" only for a clue it holds. */
  function ReportOf(room: Room, store: Tree): (rep: Report)
    requires room.Room?
    ensures rep == Registered <==> room.clue != "" && room.clue !in Keys(store)
    ensures rep == AlreadyCollected ==> room.clue in Keys(store) && room.clue != room.name
    ensures rep == Clean <==> room.clue == ""
  {
    if room.clue == "" then Clean
    else if room.clue !in Keys(store) then Registered
    else if Compare(room.clue, room.name) != 0 then AlreadyCollected
    else Silent
  }

  /** The intended report is "registered" exactly when collecting the clue
      changes the store, and it marks exactly the rounds the exploration
      counts as finding a new clue. */
  lemma RegisteredIffStoreGrows(room: Room, store: Tree)
    requires room.Room? && IsBST(store) && |room.clue| < MaxString
    ensures ReportOf(room, store) == Registered <==> Collect(store, room) != store
    ensures ReportOf(room, store) == Registered <==>
      Visit(room, room.clue != "" && room.clue !in Keys(store)).newClue
  {
    if room.clue != "" {
      InsertChangesIffNew(store, room.clue);
    }
  }

  /** The store holds "Estrela Azul" from the hall; walking into the kitchen
      finds " Fogao sujo", a clue it does not hold, and the code as written
      reports it as already collected. */
  lemma KitchenClueMisreported()
    ensures var store := Node(Nil, "Estrela Azul", Nil);
      var kitchen := CreateRoom("Cozinha", " Fogao sujo");
      && " Fogao sujo" !in Keys(store)
      && ReportAsWritten(kitchen, store) == AlreadyCollected
      && ReportOf(kitchen, store) == Registered
  {
    var kitchen := CreateRoom("Cozinha", " Fogao sujo");
    assert kitchen.clue == " Fogao sujo";
    assert kitchen.name == "Cozinha";
    assert kitchen.clue[1] != kitchen.name[1];
  }

  /** One round's collection as written: insert the clue, then tell new
      from old by comparing root pointers. */
  method CollectAsWritten(root: ClueNode?, room: Room) returns (r: ClueNode?, rep: Report)
    requires room.Room?
    requires root != null ==> root.Valid()
    modifies if root != null then root.Repr else {}
    ensures r != null ==> r.Valid()
    ensures TreeOf(r) == Collect(old(TreeOf(root)), room)
    ensures rep == ReportAsWritten(room, old(TreeOf(root)))
    ensures root != null ==> r == root && fresh(r.Repr - old(root.Repr))
    ensures root == null && r != null ==> fresh(r.Repr)
  {
    if room.clue != "" {
      var before := root;
      r := ClueNode.Insert(root, room.clue);
      rep := ReportFromPointers(room, before == null, before == r);
    } else {
      r := root;
      rep := Clean;
    }
  }

  /** One round's collection as intended: look the clue up first, then
      insert it, and report from the lookup. */
  method CollectClue(root: ClueNode?, room: Room) returns (r: ClueNode?, rep: Report)
    requires room.Room?
    requires root != null ==> root.Valid() && IsBST(root.Tree)
    modifies if root != null then root.Repr else {}
    ensures r != null ==> r.Valid()
    ensures TreeOf(r) == Collect(old(TreeOf(root)), room)
    ensures rep == ReportOf(room, old(TreeOf(root)))
    ensures root != null ==> r == root && fresh(r.Repr - old(root.Repr))
    ensures root == null && r != null ==> fresh(r.Repr)
  {
    if room.clue == "" {
      r := root;
      rep := Clean;
      return;
    }
    var known := ClueNode.Contains(root, room.clue);
    r := ClueNode.Insert(root, room.clue);
    if !known {
      rep := Registered;
    } else if Compare(room.clue, room.name) != 0 {
      rep := AlreadyCollected;
    } else {
      rep := Silent;
    }
  }

  /** Whether the store is still NULL after the rounds `vs`, played from a
      store that started as `store`: it started NULL and no round met a clue. */
  predicate StillNull(store: Tree, vs: seq<Visit>)
    decreases |vs|
  {
    if vs == [] then store == Nil
    else StillNull(store, vs[..|vs| - 1]) && !(vs[|vs| - 1].room.Room? && vs[|vs| - 1].room.clue != "")
  }

  /** The report printed in a round at `room`, given whether the store was NULL. */
  function Printed(room: Room, wasNull: bool): Report {
    if room.Room? then ReportFromPointers(room, wasNull, !wasNull) else Silent
  }

  /** The reports `explorarSalas` prints for the rounds `vs` played from a
      store that started as `store`, one per round. */
  function Reports(store: Tree, vs: seq<Visit>): (r: seq<Report>)
    ensures |r| == |vs|
    decreases |vs|
  {
    if vs == [] then []
    else Reports(store, vs[..|vs| - 1]) + [Printed(vs[|vs| - 1].room, StillNull(store, vs[..|vs| - 1]))]
  }

  /** The store is still NULL before round `i` exactly when it started NULL
      and none of the rounds before met a clue. */
  lemma {:induction false} StillNullIsNoClues(store: Tree, vs: seq<Visit>)
    ensures StillNull(store, vs) <==> store == Nil && CluesOf(vs) == {}
    decreases |vs|
  {
    if vs != [] {
      var p, v := vs[..|vs| - 1], vs[|vs| - 1];
      StillNullIsNoClues(store, p);
      assert p + [v] == vs;
      CluesOfSnoc(p, v);
    }
  }

  /** Report `i` is what the pointer tests give for round `i`, with the
      store NULL exactly when it started NULL and no earlier round met a clue. */
  lemma {:induction false} ReportsAt(store: Tree, vs: seq<Visit>)
    ensures forall i :: 0 <= i < |vs| ==>
      Reports(store, vs)[i] == Printed(vs[i].room, store == Nil && CluesOf(vs[..i]) == {})
    decreases |vs|
  {
    if vs != [] {
      var p := vs[..|vs| - 1];
      ReportsAt(store, p);
      StillNullIsNoClues(store, p);
      forall i | 0 <= i < |p| ensures p[..i] == vs[..i] && p[i] == vs[i] {
      }
      assert vs[..|vs| - 1] == p;
    }
  }

  /** As written, no round ever prints "registered". */
  lemma NeverRegistered(store: Tree, vs: seq<Visit>)
    ensures forall i :: 0 <= i < |Reports(store, vs)| ==> Reports(store, vs)[i] != Registered
  {
    ReportsAt(store, vs);
  }

  /** As written, once the store is non-empty every round that meets a
      clue not spelled like its room prints "already collected", whether the
      clue is new to the store or not. */
  lemma NonEmptyStoreSaysCollected(store: Tree, vs: seq<Visit>)
    requires store != Nil
    ensures forall i :: 0 <= i < |vs| && vs[i].room.Room? && vs[i].room.clue != "" && vs[i].room.clue != vs[i].room.name ==>
      Reports(store, vs)[i] == AlreadyCollected
  {
    ReportsAt(store, vs);
  }

  /** As written, starting from an empty store the first round that meets a
      clue prints nothing about it, although the clue is new. */
  lemma {:induction false} FirstClueSilent(vs: seq<Visit>, i: nat)
    requires i < |vs| && vs[i].room.Room? && vs[i].room.clue != ""
    requires forall j :: 0 <= j < i ==> vs[j].room.Room? && vs[j].room.clue == ""
    ensures Reports(Nil, vs)[i] == Silent
  {
    NoCluesMet(vs[..i]);
    ReportsAt(Nil, vs);
    assert Reports(Nil, vs)[i] == Printed(vs[i].room, true);
  }

  lemma NoCluesMet(ws: seq<Visit>)
    requires forall j :: 0 <= j < |ws| ==> ws[j].room.Room? && ws[j].room.clue == ""
    ensures CluesOf(ws) == {}
  {
  }

  /** One more round: its report is what the pointer tests give for the
      store it starts from, and the store is NULL after it exactly when it
      was before and the room had no clue. */
  lemma ReportRound(store0: Tree, vs: seq<Visit>, v: Visit, store: Tree)
    requires v.room.Room?
    requires store == Nil <==> StillNull(store0, vs)
    ensures Reports(store0, vs + [v]) == Reports(store0, vs) + [ReportAsWritten(v.room, store)]
    ensures Collect(store, v.room) == Nil <==> StillNull(store0, vs + [v])
  {
    assert (vs + [v])[..|vs|] == vs;
  }

  /** `explorarSalas` over a finite command sequence, one command per line
      read (the first character of its first word, lowercased). Each round
      collects the room's clue and prints its report from the root-pointer
      tests; the loop ends on 's', at a NULL room, or when the commands run
      out (`ended` false). The rounds `visits`, with their intended new-clue
      marks, are ghost: the C code never computes those marks. */
  method ExploreRooms(start: Room, clues: ClueNode?, cmds: seq<char>)
    returns (ended: bool, cursor: Room, root: ClueNode?, reports: seq<Report>, ghost visits: seq<Visit>)
    requires clues != null ==> clues.Valid() && IsBST(clues.Tree)
    requires Fits(start)
    modifies if clues != null then clues.Repr else {}
    ensures root != null ==> root.Valid()
    ensures clues != null ==> root == clues
    ensures Session(ended, cursor, TreeOf(root), visits) == Run(true, start, old(TreeOf(clues)), cmds)
    ensures reports == Reports(old(TreeOf(clues)), visits)
  {
    ghost var store0 := TreeOf(clues);
    ghost var R0: set<object> := if clues != null then clues.Repr else {};
    ghost var store := store0;
    cursor, root, visits, reports := start, clues, [], [];
    var i := 0;
    while cursor.Room?
      invariant Tracks(true, start, store0, cmds, i, cursor, store, visits)
      invariant reports == Reports(store0, visits)
      invariant store == Nil <==> StillNull(store0, visits)
      invariant TreeOf(root) == store
      invariant root != null ==> root.Valid()
      invariant clues != null ==> root == clues
      invariant root != null ==> fresh(root.Repr - R0)
      decreases |cmds| - i
    {
      ghost var v := Visit(cursor, cursor.clue != "" && cursor.clue !in Keys(store));
      var r, rep := CollectAsWritten(root, cursor);
      root := r;
      ReportRound(store0, visits, v, store);
      if i == |cmds| || Navigate(cursor, ToLower(cmds[i])) == Stop {
        TrackLast(true, start, store0, cmds, i, cursor, store, visits);
        return i < |cmds|, cursor, root, reports + [rep], visits + [v];
      }
      TrackRound(true, start, store0, cmds, i, cursor, store, visits);
      store := Collect(store, cursor);
      cursor := Next(cursor, ToLower(cmds[i]));
      visits := visits + [v];
      reports := reports + [rep];
      i := i + 1;
    }
    TrackEnd(true, start, store0, cmds, i, cursor, store, visits);
    ended := true;
  }
}
