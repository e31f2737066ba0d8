/**
 The vocabulary shared by every part of the dweller-placement search: rooms, dwellers,
 the assignment of dwellers to rooms, and the moves the search makes.
 */
module Fallout {

  /** The letters of the seven rooms, in the fixed order in which the room table is iterated. */
  const RoomLetters: string := "SPECIAL"

  /** Every room holds at most this many dwellers. */
  const RoomCapacity: int := 4

  /** A room, as its position in RoomLetters: 0 is 'S', 6 is 'L'. */
  type Room = r: int | 0 <= r < 7

  /**
   The room a letter names, as the letter-to-position table gives it; None for a letter
   that names no room (a lookup of such a letter in the room table has no entry).
   */
  function RoomOf(c: char): (r: Option<Room>)
    ensures r.Some? <==> c in RoomLetters
    ensures r.Some? ==> RoomLetters[r.value] == c
  {
    if c == 'S' then Some(0)
    else if c == 'P' then Some(1)
    else if c == 'E' then Some(2)
    else if c == 'C' then Some(3)
    else if c == 'I' then Some(4)
    else if c == 'A' then Some(5)
    else if c == 'L' then Some(6)
    else None
  }

  /** Every room has its own letter, and the letter names that room back. */
  lemma RoomLettersDistinct(r: Room)
    ensures RoomOf(RoomLetters[r]) == Some(r)
  {
  }

  datatype Option<T> = None | Some(value: T)

  /**
   A dweller: a display name and one stat per room, stats[r] being its stat for room r.
   Two dwellers with the same name and stats are still different dwellers: a dweller's
   identity is its position in the state (see State).
   */
  datatype Dweller = Dweller(name: string, stats: seq<int>)

  /** A dweller that has a stat for every room. */
  predicate Complete(dw: Dweller)
  {
    |dw.stats| == 7
  }

  /** A dweller that can take part in the search: one with a stat for every room. */
  type FullDweller = dw: Dweller | Complete(dw) witness Dweller("", [1, 1, 1, 1, 1, 1, 1])

  /** One key of an assignment together with the room it is assigned to. */
  datatype Entry = Entry(dweller: FullDweller, room: Room)

  /**
   An assignment of dwellers to rooms, in the order in which the dwellers were added.
   The dweller with identity d is the one at position d; a derived state keeps the
   same dwellers at the same positions and only changes rooms.
   */
  type State = seq<Entry>

  /** The stat of dweller d for room r. */
  function Stat(state: State, d: nat, r: Room): (v: int)
    requires d < |state|
  {
    state[d].dweller.stats[r]
  }

  /** Both states hold the same dwellers at the same positions. */
  predicate SameDwellers(s: State, t: State)
  {
    |s| == |t| && forall d :: 0 <= d < |s| ==> s[d].dweller == t[d].dweller
  }

  /**
   A single-step reassignment as the move enumerator offers it: dweller goes to room
   dest, and diff is its stat in its current room minus its stat in dest.
   */
  datatype Candidate = Candidate(dweller: nat, dest: Room, diff: int)

  /** A move as a chain records it: who moved, from which room, to which room, and its diff. */
  datatype Move = Move(dweller: nat, source: Room, dest: Room, diff: int)

  /** A search node: the moves made so far, the state they lead to, and the accumulated score. */
  datatype Node = Node(moves: seq<Move>, state: State, score: int)
}
