/** The mansion: a binary tree of rooms wired once by `main` and never
    changed during play, so rooms are values here. `NoRoom` is the NULL
    child pointer. */
module Mansion {
  import opened CStrings

  /** A room (`NoSala`, `Sala`): its name, its clue ("" when it has none)
      and its left and right exits. */
  datatype Room = NoRoom | Room(name: string, clue: string, left: Room, right: Room)

  /** A room with no exits. */
  predicate IsLeaf(r: Room) {
    r.Room? && r.left.NoRoom? && r.right.NoRoom?
  }

  /** Every name and clue fits a `char[50]` buffer, as `criarSala` makes sure
      (by truncating, or, in Aventureiro.c, by the caller's literals). */
  ghost predicate Fits(r: Room) {
    r.NoRoom? || (|r.name| < MaxString && |r.clue| < MaxString && Fits(r.left) && Fits(r.right))
  }

  /** `next` is the left or the right exit of `r`. */
  predicate IsChild(r: Room, next: Room) {
    r.Room? && next.Room? && (next == r.left || next == r.right)
  }

  /** What one command does at a room. */
  datatype Move = Stop | Go(next: Room) | Stay

  /** The navigation rule shared by the three exploration loops (Novato.c,
      Aventureiro.c, and Mestre.c after `tolower`): 's' ends, 'e' and 'd'
      take the left or right exit when it exists, and every other
      character, or a missing exit, leaves the player where they are. */
  function Navigate(room: Room, c: char): (m: Move)
    requires room.Room?
    ensures m == Stop <==> c == 's'
    ensures m.Go? <==> (c == 'e' && room.left.Room?) || (c == 'd' && room.right.Room?)
    ensures m.Go? ==> IsChild(room, m.next)
    ensures m.Go? && c == 'e' ==> m.next == room.left
    ensures m.Go? && c == 'd' ==> m.next == room.right
  {
    if c == 's' then Stop
    else if c == 'e' && room.left.Room? then Go(room.left)
    else if c == 'd' && room.right.Room? then Go(room.right)
    else Stay
  }
}
