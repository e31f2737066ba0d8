/** Capacity accounting: how many places each room has left under an assignment. */
module Capacity {
  import opened Fallout

  /** The number of dwellers that `state` assigns to room r. */
  function Occupancy(state: State, r: Room): (n: nat)
    ensures n <= |state|
  {
    if state == [] then 0
    else Occupancy(state[..|state| - 1], r) + (if state[|state| - 1].room == r then 1 else 0)
  }

  /** The places room r has left: its capacity less the dwellers assigned to it. */
  function Free(state: State, r: Room): (f: int)
    ensures f <= RoomCapacity
  {
    RoomCapacity - Occupancy(state, r)
  }

  /**
   Starts from the capacity of every room and takes one place away for each dweller,
   from the room it is assigned to.
   */
  method Spaces(state: State) returns (spaces: seq<int>)
    ensures |spaces| == 7
    ensures forall r: Room :: spaces[r] + Occupancy(state, r) == RoomCapacity
  {
    spaces := seq(7, _ => RoomCapacity);
    for i := 0 to |state|
      invariant |spaces| == 7
      invariant forall r: Room :: spaces[r] + Occupancy(state[..i], r) == RoomCapacity
    {
      assert state[..i + 1][..i] == state[..i];
      var room := state[i].room;
      spaces := spaces[room := spaces[room] - 1];
    }
    assert state[..|state|] == state;
  }

  /** Assigning a dweller to a different room frees a place in its old room and takes one in the new room. */
  lemma {:induction false} OccupancyAfterReassign(state: State, d: nat, dest: Room, r: Room)
    requires d < |state|
    ensures var after := state[d := Entry(state[d].dweller, dest)];
      Occupancy(after, r) ==
        Occupancy(state, r) - (if state[d].room == r then 1 else 0) + (if dest == r then 1 else 0)
  {
    var after := state[d := Entry(state[d].dweller, dest)];
    var n := |state| - 1;
    if d < n {
      assert after[..n] == state[..n][d := Entry(state[d].dweller, dest)];
      OccupancyAfterReassign(state[..n], d, dest, r);
    } else {
      assert after[..n] == state[..n];
    }
  }
}
