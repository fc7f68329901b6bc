/** The novice chapter (Novato.c): rooms with only a name, and an
    exploration that descends by recursion, stops by itself at a room with
    no exits and re-prompts on any command it cannot follow. */
module Novato {
  import opened CStrings
  import opened Mansion

  /** `criarSala`: the name is copied with `strncpy` into `char[50]` and
      terminated; the room has no clue and no exits. */
  function CreateRoom(name: string): (r: Room)
    ensures r.Room? && r.clue == "" && r.left.NoRoom? && r.right.NoRoom? && Fits(r)
    ensures r.name <= name
    ensures |name| < MaxString ==> r.name == name
    ensures |name| >= MaxString ==> |r.name| == MaxString - 1
  {
    Room(Truncate(name), "", NoRoom, NoRoom)
  }

  /** How a walk ended: at a NULL room, at a room with no exits, by the
      player's 's', or with the commands used up while a prompt waited. */
  datatype End = Missing | DeadEnd | Quit | OutOfInput

  /** The rooms the walk showed, outermost call first, and how it ended. */
  datatype Walk = Walk(path: seq<Room>, end: End)

  /** `explorarSalas` from `room` with the commands still to be read. */
  function Explore(room: Room, cmds: seq<char>): Walk
    decreases |cmds|, 1
  {
    if room.NoRoom? then Walk([], Missing)
    else if IsLeaf(room) then Walk([room], DeadEnd)
    else Prompt(room, cmds)
  }

  /** The `while (1)` prompt at a room with at least one exit: a move
      explores the child and then ends this call too; anything else asks
      again. */
  function Prompt(room: Room, cmds: seq<char>): Walk
    requires room.Room? && !IsLeaf(room)
    decreases |cmds|, 0
  {
    if cmds == [] then Walk([room], OutOfInput)
    else
      match Navigate(room, cmds[0])
      case Stop => Walk([room], Quit)
      case Go(next) =>
        var w := Explore(next, cmds[1..]);
        Walk([room] + w.path, w.end)
      case Stay => Prompt(room, cmds[1..])
  }

  /** The rooms of a walk form one downward path: it starts in the room the
      walk began in and each room is an exit of the one before. */
  ghost predicate Descends(path: seq<Room>, start: Room) {
    && |path| >= 1 && path[0] == start
    && (forall i :: 0 <= i < |path| - 1 ==> IsChild(path[i], path[i + 1]))
  }

  /** From NULL the walk shows nothing. From a room it is one downward path
      from that room, it is at most one room longer than the commands read,
      and it ended by itself exactly when its last room has no exits. */
  lemma {:induction false} ExploreDescends(room: Room, cmds: seq<char>)
    ensures room.NoRoom? <==> Explore(room, cmds) == Walk([], Missing)
    ensures room.Room? ==> Descends(Explore(room, cmds).path, room)
    ensures room.Room? ==>
      var w := Explore(room, cmds);
      w.end == DeadEnd <==> IsLeaf(w.path[|w.path| - 1])
    ensures |Explore(room, cmds).path| <= |cmds| + 1
    decreases |cmds|, 1
  {
    if room.Room? && !IsLeaf(room) {
      PromptDescends(room, cmds);
    }
  }

  lemma {:induction false} PromptDescends(room: Room, cmds: seq<char>)
    requires room.Room? && !IsLeaf(room)
    ensures Descends(Prompt(room, cmds).path, room)
    ensures var w := Prompt(room, cmds);
      w.end == DeadEnd <==> IsLeaf(w.path[|w.path| - 1])
    ensures |Prompt(room, cmds).path| <= |cmds| + 1
    decreases |cmds|, 0
  {
    if cmds != [] {
      match Navigate(room, cmds[0])
      case Stop =>
      case Go(next) =>
        ExploreDescends(next, cmds[1..]);
        var w := Explore(next, cmds[1..]);
        var p := [room] + w.path;
        assert p[1..] == w.path;
        forall i | 0 <= i < |p| - 1 ensures IsChild(p[i], p[i + 1]) {
          if i > 0 {
            assert p[i] == w.path[i - 1];
          }
        }
      case Stay =>
        PromptDescends(room, cmds[1..]);
    }
  }

  /** Commands are matched exactly: 'E', 'D' and 'S' re-prompt at the same
      room, as does a direction with no exit. */
  lemma Reprompts(room: Room, c: char, rest: seq<char>)
    requires room.Room? && !IsLeaf(room)
    requires c == 'E' || c == 'D' || c == 'S' || (c == 'e' && room.left.NoRoom?) || (c == 'd' && room.right.NoRoom?)
    ensures Prompt(room, [c] + rest) == Prompt(room, rest)
  {
    assert ([c] + rest)[1..] == rest;
  }

  /** `explorarSalas` as the C code runs it: a recursive call per move and
      a loop that re-reads commands at the same room. */
  method ExploreRooms(room: Room, cmds: seq<char>) returns (w: Walk)
    ensures w == Explore(room, cmds)
    decreases |cmds|
  {
    if room.NoRoom? {
      return Walk([], Missing);
    }
    if room.left.NoRoom? && room.right.NoRoom? {
      return Walk([room], DeadEnd);
    }
    var i := 0;
    while true
      invariant 0 <= i <= |cmds|
      invariant Prompt(room, cmds[i..]) == Prompt(room, cmds)
      decreases |cmds| - i
    {
      if i == |cmds| {
        return Walk([room], OutOfInput);
      }
      var c := cmds[i];
      assert cmds[i..][1..] == cmds[i + 1..];
      if c == 'e' && room.left.Room? {
        var sub := ExploreRooms(room.left, cmds[i + 1..]);
        return Walk([room] + sub.path, sub.end);
      } else if c == 'd' && room.right.Room? {
        var sub := ExploreRooms(room.right, cmds[i + 1..]);
        return Walk([room] + sub.path, sub.end);
      } else if c == 's' {
        return Walk([room], Quit);
      }
      i := i + 1;
    }
  }
}
