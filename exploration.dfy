/** The clue-collecting exploration loop of Aventureiro.c
    (`explorarSalasComPistas`) and Mestre.c (`explorarSalas`) as a
    specification over a finite command sequence: each round collects the
    current room's clue, then reads one command. Mestre.c lowercases the
    command first (`fold`); Aventureiro.c does not. */
module Exploration {
  import opened CStrings
  import opened ClueTree
  import opened Mansion

  /** A round's clue collection: a non-empty clue goes into the store. */
  function Collect(store: Tree, room: Room): Tree
    requires room.Room?
  {
    if room.clue != "" then Insert(store, room.clue) else store
  }

  /** One round of the loop: the room it ran in, and whether the room's clue
      was new to the store at that moment. */
  datatype Visit = Visit(room: Room, newClue: bool)

  /** Where the loop stands after the input is used up or the player quits:
      `ended` is false when the commands ran out while the loop still waited
      for one. */
  datatype Session = Session(ended: bool, cursor: Room, store: Tree, visits: seq<Visit>)

  /** The command as the loop compares it. */
  function Command(fold: bool, c: char): char {
    if fold then ToLower(c) else c
  }

  function Then(v: Visit, s: Session): Session {
    s.(visits := [v] + s.visits)
  }

  /** A session preceded by rounds already played. */
  function After(vs: seq<Visit>, s: Session): Session {
    s.(visits := vs + s.visits)
  }

  /** The loop from room `cursor` with clue store `store` and the commands
      `cmds` still to be read. A NULL room ends it at once (Mestre.c's
      `while (atual != NULL)`). */
  function Run(fold: bool, cursor: Room, store: Tree, cmds: seq<char>): Session
    decreases |cmds|
  {
    if cursor.NoRoom? then Session(true, cursor, store, [])
    else
      var v := Visit(cursor, cursor.clue != "" && cursor.clue !in Keys(store));
      var s := Collect(store, cursor);
      if cmds == [] then Session(false, cursor, s, [v])
      else
        match Navigate(cursor, Command(fold, cmds[0]))
        case Stop => Session(true, cursor, s, [v])
        case Go(next) => Then(v, Run(fold, next, s, cmds[1..]))
        case Stay => Then(v, Run(fold, cursor, s, cmds[1..]))
  }

  lemma AfterThen(vs: seq<Visit>, v: Visit, s: Session)
    ensures After(vs + [v], s) == After(vs, Then(v, s))
  {
    assert (vs + [v]) + s.visits == vs + ([v] + s.visits);
  }

  /** The room a command leads to: the chosen exit, or the same room. */
  function Next(room: Room, c: char): Room
    requires room.Room?
  {
    match Navigate(room, c)
    case Go(next) => next
    case _ => room
  }

  /** One round of the loop, read off the definition of Run: the visit is
      recorded, the clue collected, and the loop goes on from the room the
      command leads to. */
  lemma RunRound(fold: bool, cursor: Room, store: Tree, cmds: seq<char>)
    requires cursor.Room? && cmds != [] && Navigate(cursor, Command(fold, cmds[0])) != Stop
    ensures Run(fold, cursor, store, cmds) ==
      Then(Visit(cursor, cursor.clue != "" && cursor.clue !in Keys(store)),
           Run(fold, Next(cursor, Command(fold, cmds[0])), Collect(store, cursor), cmds[1..]))
  {
  }

  /** The last round: the commands are used up, or the command is 's'. */
  lemma RunLast(fold: bool, cursor: Room, store: Tree, cmds: seq<char>)
    requires cursor.Room? && (cmds == [] || Navigate(cursor, Command(fold, cmds[0])) == Stop)
    ensures Run(fold, cursor, store, cmds) ==
      Session(cmds != [], cursor, Collect(store, cursor),
              [Visit(cursor, cursor.clue != "" && cursor.clue !in Keys(store))])
  {
  }

  /** A loop that has played rounds `vs` and is about to play a round that
      does not end it: afterwards it has played one round more and goes on
      from the next room with the clue collected and one command fewer. */
  lemma AfterRound(fold: bool, vs: seq<Visit>, cursor: Room, store: Tree, cmds: seq<char>, i: nat, c: char, goal: Session)
    requires cursor.Room? && Fits(cursor) && IsBST(store)
    requires i < |cmds| && c == Command(fold, cmds[i]) && Navigate(cursor, c) != Stop
    requires After(vs, Run(fold, cursor, store, cmds[i..])) == goal
    ensures Next(cursor, c).Room? && Fits(Next(cursor, c)) && IsBST(Collect(store, cursor))
    ensures After(vs + [Visit(cursor, cursor.clue != "" && cursor.clue !in Keys(store))],
                  Run(fold, Next(cursor, c), Collect(store, cursor), cmds[i + 1..])) == goal
  {
    assert cmds[i..][0] == cmds[i] && cmds[i..][1..] == cmds[i + 1..];
    CollectKeys(store, cursor);
    RunRound(fold, cursor, store, cmds[i..]);
    var v := Visit(cursor, cursor.clue != "" && cursor.clue !in Keys(store));
    AfterThen(vs, v, Run(fold, Next(cursor, c), Collect(store, cursor), cmds[i + 1..]));
  }

  /** The round that ends the loop, by 's' or for want of commands. */
  lemma AfterLast(fold: bool, vs: seq<Visit>, cursor: Room, store: Tree, cmds: seq<char>, i: nat)
    requires cursor.Room? && i <= |cmds|
    requires i == |cmds| || Navigate(cursor, Command(fold, cmds[i])) == Stop
    ensures After(vs, Run(fold, cursor, store, cmds[i..])) ==
      Session(i < |cmds|, cursor, Collect(store, cursor),
              vs + [Visit(cursor, cursor.clue != "" && cursor.clue !in Keys(store))])
  {
    if i < |cmds| {
      assert cmds[i..][0] == cmds[i];
    }
    RunLast(fold, cursor, store, cmds[i..]);
  }

  /** What a loop running `Run` knows before its round over `cursor` with
      `i` commands read: the rounds `visits` played so far, followed by the
      rest of the run, make up the whole run from `start`. */
  ghost predicate Tracks(fold: bool, start: Room, store0: Tree, cmds: seq<char>, i: nat,
                         cursor: Room, store: Tree, visits: seq<Visit>)
  {
    && i <= |cmds| && Fits(cursor) && IsBST(store)
    && After(visits, Run(fold, cursor, store, cmds[i..])) == Run(fold, start, store0, cmds)
  }

  /** A round that does not end the loop keeps the account, one round and
      one command further on. */
  lemma TrackRound(fold: bool, start: Room, store0: Tree, cmds: seq<char>, i: nat,
                   cursor: Room, store: Tree, visits: seq<Visit>)
    requires Tracks(fold, start, store0, cmds, i, cursor, store, visits)
    requires cursor.Room? && i < |cmds| && Navigate(cursor, Command(fold, cmds[i])) != Stop
    ensures Tracks(fold, start, store0, cmds, i + 1, Next(cursor, Command(fold, cmds[i])), Collect(store, cursor),
                   visits + [Visit(cursor, cursor.clue != "" && cursor.clue !in Keys(store))])
  {
    AfterRound(fold, visits, cursor, store, cmds, i, Command(fold, cmds[i]), Run(fold, start, store0, cmds));
  }

  /** The round that ends the loop completes the run. */
  lemma TrackLast(fold: bool, start: Room, store0: Tree, cmds: seq<char>, i: nat,
                  cursor: Room, store: Tree, visits: seq<Visit>)
    requires Tracks(fold, start, store0, cmds, i, cursor, store, visits)
    requires cursor.Room? && (i == |cmds| || Navigate(cursor, Command(fold, cmds[i])) == Stop)
    ensures Session(i < |cmds|, cursor, Collect(store, cursor),
                    visits + [Visit(cursor, cursor.clue != "" && cursor.clue !in Keys(store))]) == Run(fold, start, store0, cmds)
  {
    AfterLast(fold, visits, cursor, store, cmds, i);
  }

  /** Reaching a NULL room completes the run. */
  lemma TrackEnd(fold: bool, start: Room, store0: Tree, cmds: seq<char>, i: nat,
                 cursor: Room, store: Tree, visits: seq<Visit>)
    requires Tracks(fold, start, store0, cmds, i, cursor, store, visits) && cursor.NoRoom?
    ensures Session(true, cursor, store, visits) == Run(fold, start, store0, cmds)
  {
  }

  /** The non-empty clues of the rooms of a run of rounds. */
  function CluesOf(vs: seq<Visit>): set<string> {
    set i | 0 <= i < |vs| && vs[i].room.Room? && vs[i].room.clue != "" :: vs[i].room.clue
  }

  lemma CluesOfSnoc(vs: seq<Visit>, v: Visit)
    ensures CluesOf(vs + [v]) ==
      CluesOf(vs) + (if v.room.Room? && v.room.clue != "" then {v.room.clue} else {})
  {
    var ws := vs + [v];
    forall x | x in CluesOf(vs) ensures x in CluesOf(ws) {
      var i :| 0 <= i < |vs| && vs[i].room.Room? && vs[i].room.clue != "" && vs[i].room.clue == x;
      assert ws[i] == vs[i];
    }
    forall x | x in CluesOf(ws) ensures x in CluesOf(vs) || (v.room.Room? && x == v.room.clue != "") {
      var i :| 0 <= i < |ws| && ws[i].room.Room? && ws[i].room.clue != "" && ws[i].room.clue == x;
      if i < |vs| {
        assert vs[i] == ws[i];
      }
    }
    if v.room.Room? && v.room.clue != "" {
      assert ws[|vs|] == v;
    }
  }

  /** The rooms of the rounds start at `start` and form one downward path:
      each round is in the same room as the one before or in one of its
      exits. */
  ghost predicate WalksDown(vs: seq<Visit>, start: Room) {
    && |vs| >= 1 && vs[0].room == start
    && (forall i :: 0 <= i < |vs| ==> vs[i].room.Room?)
    && (forall i :: 0 <= i < |vs| - 1 ==>
          vs[i + 1].room == vs[i].room || IsChild(vs[i].room, vs[i + 1].room))
  }

  lemma CluesOfCons(v: Visit, vs: seq<Visit>)
    ensures CluesOf([v] + vs) ==
      (if v.room.Room? && v.room.clue != "" then {v.room.clue} else {}) + CluesOf(vs)
  {
    var ws := [v] + vs;
    forall x | x in CluesOf(vs) ensures x in CluesOf(ws) {
      var i :| 0 <= i < |vs| && vs[i].room.Room? && vs[i].room.clue != "" && vs[i].room.clue == x;
      assert ws[i + 1] == vs[i];
    }
    forall x | x in CluesOf(ws) ensures x in CluesOf(vs) || (v.room.Room? && x == v.room.clue != "") {
      var i :| 0 <= i < |ws| && ws[i].room.Room? && ws[i].room.clue != "" && ws[i].room.clue == x;
      if i > 0 {
        assert vs[i - 1] == ws[i];
      }
    }
    if v.room.Room? && v.room.clue != "" {
      assert ws[0] == v;
    }
  }

  /** A round keeps the store a search tree and adds just the room's clue. */
  lemma CollectKeys(store: Tree, room: Room)
    requires room.Room? && IsBST(store) && |room.clue| < MaxString
    ensures IsBST(Collect(store, room))
    ensures Keys(Collect(store, room)) ==
      Keys(store) + (if room.clue != "" then {room.clue} else {})
  {
    if room.clue != "" {
      InsertKeys(store, room.clue);
      InsertPreservesBST(store, room.clue);
    }
  }

  /** Collecting in the same room twice is collecting once, so a round that
      ends in an invalid command leaves the store where the round left it. */
  lemma CollectIdempotent(store: Tree, room: Room)
    requires room.Room? && IsBST(store) && |room.clue| < MaxString
    ensures Collect(Collect(store, room), room) == Collect(store, room)
  {
    if room.clue != "" {
      InsertIdempotent(store, room.clue);
    }
  }

  /** The store stays a search tree through the whole loop. */
  lemma {:induction false} RunKeepsBST(fold: bool, cursor: Room, store: Tree, cmds: seq<char>)
    requires IsBST(store) && Fits(cursor)
    ensures IsBST(Run(fold, cursor, store, cmds).store)
    decreases |cmds|
  {
    if cursor.Room? {
      CollectKeys(store, cursor);
      if cmds != [] && Navigate(cursor, Command(fold, cmds[0])) != Stop {
        var next := Next(cursor, Command(fold, cmds[0]));
        assert Fits(next);
        RunRound(fold, cursor, store, cmds);
        RunKeepsBST(fold, next, Collect(store, cursor), cmds[1..]);
      } else {
        RunLast(fold, cursor, store, cmds);
      }
    }
  }

  lemma CluesRound(store: Tree, s: Tree, v: Visit, tail: Session)
    requires v.room.Room?
    requires Keys(s) == Keys(store) + (if v.room.clue != "" then {v.room.clue} else {})
    requires Keys(tail.store) == Keys(s) + CluesOf(tail.visits)
    ensures Keys(tail.store) == Keys(store) + CluesOf([v] + tail.visits)
  {
    CluesOfCons(v, tail.visits);
  }

  /** When the loop stops, the store holds what it held before plus exactly
      the non-empty clues of the rooms visited. */
  lemma {:induction false} RunCollectsVisitedClues(fold: bool, cursor: Room, store: Tree, cmds: seq<char>)
    requires IsBST(store) && Fits(cursor)
    ensures Keys(Run(fold, cursor, store, cmds).store) ==
      Keys(store) + CluesOf(Run(fold, cursor, store, cmds).visits)
    decreases |cmds|
  {
    if cursor.Room? {
      var v := Visit(cursor, cursor.clue != "" && cursor.clue !in Keys(store));
      var s := Collect(store, cursor);
      CollectKeys(store, cursor);
      if cmds != [] && Navigate(cursor, Command(fold, cmds[0])) != Stop {
        var next := Next(cursor, Command(fold, cmds[0]));
        assert Fits(next);
        RunRound(fold, cursor, store, cmds);
        var tail := Run(fold, next, s, cmds[1..]);
        RunCollectsVisitedClues(fold, next, s, cmds[1..]);
        CluesRound(store, s, v, tail);
      } else {
        RunLast(fold, cursor, store, cmds);
        CluesOfCons(v, []);
      }
    }
  }

  /** From a room, the loop walks one downward path and stops in the room of
      its last round; from NULL it stops at once with nothing collected. */
  lemma {:induction false} RunWalksDown(fold: bool, cursor: Room, store: Tree, cmds: seq<char>)
    ensures cursor.NoRoom? ==> Run(fold, cursor, store, cmds) == Session(true, cursor, store, [])
    ensures cursor.Room? ==> WalksDown(Run(fold, cursor, store, cmds).visits, cursor)
    ensures cursor.Room? ==>
      var r := Run(fold, cursor, store, cmds);
      r.cursor == r.visits[|r.visits| - 1].room
    ensures |Run(fold, cursor, store, cmds).visits| <= |cmds| + 1
    decreases |cmds|
  {
    if cursor.Room? && cmds != [] {
      var s := Collect(store, cursor);
      match Navigate(cursor, Command(fold, cmds[0]))
      case Stop =>
      case Go(next) =>
        RunWalksDown(fold, next, s, cmds[1..]);
      case Stay =>
        RunWalksDown(fold, cursor, s, cmds[1..]);
    }
  }

  /** A round is reported new exactly when its clue is new to the store, so
      the clues reported new are exactly the clues the store gains. */
  lemma {:induction false} RunReportsNewClues(fold: bool, cursor: Room, store: Tree, cmds: seq<char>)
    requires IsBST(store) && Fits(cursor)
    ensures var r := Run(fold, cursor, store, cmds);
      NewClues(r.visits) == Keys(r.store) - Keys(store)
    decreases |cmds|
  {
    if cursor.Room? {
      var v := Visit(cursor, cursor.clue != "" && cursor.clue !in Keys(store));
      var s := Collect(store, cursor);
      var extra: set<string> := if cursor.clue != "" then {cursor.clue} else {};
      CollectKeys(store, cursor);
      if cmds != [] && Navigate(cursor, Command(fold, cmds[0])) != Stop {
        var next := Next(cursor, Command(fold, cmds[0]));
        assert Fits(next);
        RunRound(fold, cursor, store, cmds);
        var tail := Run(fold, next, s, cmds[1..]);
        RunReportsNewClues(fold, next, s, cmds[1..]);
        RunCollectsVisitedClues(fold, next, s, cmds[1..]);
        NewCluesRound(store, extra, s, v, tail);
      } else {
        RunLast(fold, cursor, store, cmds);
        NewCluesCons(v, []);
      }
    }
  }

  lemma NewCluesRound(store: Tree, extra: set<string>, s: Tree, v: Visit, tail: Session)
    requires v.room.Room? && v.newClue == (v.room.clue != "" && v.room.clue !in Keys(store))
    requires extra == if v.room.clue != "" then {v.room.clue} else {}
    requires Keys(s) == Keys(store) + extra && Keys(s) <= Keys(tail.store)
    requires NewClues(tail.visits) == Keys(tail.store) - Keys(s)
    ensures NewClues([v] + tail.visits) == Keys(tail.store) - Keys(store)
  {
    NewCluesCons(v, tail.visits);
  }

  /** No clue is reported new twice in one exploration. */
  lemma {:induction false} RunReportsEachNewClueOnce(fold: bool, cursor: Room, store: Tree, cmds: seq<char>)
    requires IsBST(store) && Fits(cursor)
    ensures NewOnce(Run(fold, cursor, store, cmds).visits)
    decreases |cmds|
  {
    if cursor.Room? {
      var v := Visit(cursor, cursor.clue != "" && cursor.clue !in Keys(store));
      var s := Collect(store, cursor);
      CollectKeys(store, cursor);
      if cmds != [] && Navigate(cursor, Command(fold, cmds[0])) != Stop {
        var next := Next(cursor, Command(fold, cmds[0]));
        assert Fits(next);
        RunRound(fold, cursor, store, cmds);
        var tail := Run(fold, next, s, cmds[1..]);
        RunReportsEachNewClueOnce(fold, next, s, cmds[1..]);
        RunReportsNewClues(fold, next, s, cmds[1..]);
        if v.newClue {
          assert v.room.clue in Keys(s);
          assert v.room.clue !in NewClues(tail.visits);
        }
        NewOnceCons(v, tail.visits);
      } else {
        RunLast(fold, cursor, store, cmds);
        NewOnceCons(v, []);
      }
    }
  }

  /** The clues of the rounds reported new. */
  function NewClues(vs: seq<Visit>): set<string> {
    set i | 0 <= i < |vs| && vs[i].newClue && vs[i].room.Room? :: vs[i].room.clue
  }

  /** No two rounds report the same clue as new. */
  ghost predicate NewOnce(vs: seq<Visit>) {
    && (forall i :: 0 <= i < |vs| && vs[i].newClue ==> vs[i].room.Room?)
    && (forall i, j :: 0 <= i < j < |vs| && vs[i].newClue && vs[j].newClue ==>
          vs[i].room.clue != vs[j].room.clue)
  }

  lemma NewCluesCons(v: Visit, vs: seq<Visit>)
    ensures NewClues([v] + vs) ==
      (if v.newClue && v.room.Room? then {v.room.clue} else {}) + NewClues(vs)
  {
    var ws := [v] + vs;
    forall x | x in NewClues(vs) ensures x in NewClues(ws) {
      var i :| 0 <= i < |vs| && vs[i].newClue && vs[i].room.Room? && vs[i].room.clue == x;
      assert ws[i + 1] == vs[i];
    }
    forall x | x in NewClues(ws) ensures x in NewClues(vs) || (v.newClue && v.room.Room? && x == v.room.clue) {
      var i :| 0 <= i < |ws| && ws[i].newClue && ws[i].room.Room? && ws[i].room.clue == x;
      if i > 0 {
        assert ws[i] == vs[i - 1];
      }
    }
    if v.newClue && v.room.Room? {
      assert ws[0] == v;
    }
  }

  lemma NewOnceCons(v: Visit, vs: seq<Visit>)
    requires NewOnce(vs)
    requires v.newClue ==> v.room.Room? && v.room.clue !in NewClues(vs)
    ensures NewOnce([v] + vs)
  {
    var ws := [v] + vs;
    forall i | 0 <= i < |ws| && ws[i].newClue
      ensures ws[i].room.Room?
    {
      if i > 0 {
        assert ws[i] == vs[i - 1];
      }
    }
    forall i, j | 0 <= i < j < |ws| && ws[i].newClue && ws[j].newClue
      ensures ws[i].room.clue != ws[j].room.clue
    {
      assert ws[j] == vs[j - 1];
      if i == 0 {
        assert vs[j - 1].room.clue in NewClues(vs);
      } else {
        assert ws[i] == vs[i - 1];
      }
    }
  }

  /** An invalid command (or a missing exit) costs a round but changes
      nothing: the loop collects the same room's clue again, which the store
      already holds, so the session ends as if the command had not been
      typed. */
  lemma InvalidCommandIsNoOp(fold: bool, cursor: Room, store: Tree, c: char, rest: seq<char>)
    requires cursor.Room? && Navigate(cursor, Command(fold, c)) == Stay
    requires IsBST(store) && Fits(cursor)
    ensures var a, b := Run(fold, cursor, store, [c] + rest), Run(fold, cursor, store, rest);
      a.ended == b.ended && a.cursor == b.cursor && a.store == b.store
  {
    var s := Collect(store, cursor);
    CollectKeys(store, cursor);
    CollectIdempotent(store, cursor);
    var cmds := [c] + rest;
    assert cmds[0] == c && cmds[1..] == rest;
    RunRound(fold, cursor, store, cmds);
    assert Next(cursor, Command(fold, c)) == cursor;
    if rest == [] || Navigate(cursor, Command(fold, rest[0])) == Stop {
      RunLast(fold, cursor, s, rest);
      RunLast(fold, cursor, store, rest);
    } else {
      RunRound(fold, cursor, s, rest);
      RunRound(fold, cursor, store, rest);
    }
  }
}
