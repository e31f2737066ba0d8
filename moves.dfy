/** Move enumeration: every single-step reassignment open under the current assignment. */
module Moves {
  import opened Fallout
  import opened Capacity

  /** The stat dweller d has in its current room minus the stat it would have in room dest. */
  function Diff(state: State, d: nat, dest: Room): (diff: int)
    requires d < |state|
    ensures dest == state[d].room ==> diff == 0
  {
    Stat(state, d, state[d].room) - Stat(state, d, dest)
  }

  /** The moves into room r offered to the first n dwellers, in dweller order. */
  function MovesInto(state: State, r: Room, n: nat): (ms: seq<Candidate>)
    requires n <= |state|
  {
    if n == 0 then []
    else
      MovesInto(state, r, n - 1) +
      (if state[n - 1].room == r then [] else [Candidate(n - 1, r, Diff(state, n - 1, r))])
  }

  /**
   The moves into the first k rooms: rooms in the outer order, dwellers in the inner
   order, and nothing into a room that has no place left.
   */
  function MovesUpTo(state: State, k: nat): (ms: seq<Candidate>)
    requires k <= 7
  {
    if k == 0 then []
    else MovesUpTo(state, k - 1) + (if Free(state, k - 1) == 0 then [] else MovesInto(state, k - 1, |state|))
  }

  /** The list of moves the enumerator returns for `state`. */
  function AvailableMovesOf(state: State): (ms: seq<Candidate>)
    ensures forall i :: 0 <= i < |ms| ==> ms[i].dweller < |state|
  {
    MovesUpToBounded(state, 7);
    MovesUpTo(state, 7)
  }

  /**
   The condition under which the enumerator offers candidate c: the dweller exists, the
   destination is not its room, the destination's count of places left is not 0, and the
   diff is the dweller's stat in its room minus its stat in the destination.
   */
  predicate Offered(state: State, c: Candidate)
  {
    c.dweller < |state| && state[c.dweller].room != c.dest && Free(state, c.dest) != 0 &&
    c.diff == Diff(state, c.dweller, c.dest)
  }

  /** Lexicographic order on (destination room, dweller): the enumeration order. */
  predicate Before(a: Candidate, b: Candidate)
  {
    a.dest < b.dest || (a.dest == b.dest && a.dweller < b.dweller)
  }

  /**
   Loops over the rooms in order; skips a room with no place left; for the others loops
   over the dwellers in order, skipping those already in that room.
   */
  method AvailableMoves(state: State) returns (moves: seq<Candidate>)
    ensures moves == AvailableMovesOf(state)
  {
    var spaces := Spaces(state);
    moves := [];
    for r := 0 to 7
      invariant moves == MovesUpTo(state, r)
    {
      ghost var before := moves;
      if spaces[r] == 0 {
        assert Free(state, r) == 0;
        continue;
      }
      for d := 0 to |state|
        invariant moves == before + MovesInto(state, r, d)
      {
        if state[d].room == r {
          continue;
        }
        ghost var c := Candidate(d, r, Diff(state, d, r));
        assert (before + MovesInto(state, r, d)) + [c] == before + (MovesInto(state, r, d) + [c]);
        moves := moves + [Candidate(d, r, Stat(state, d, state[d].room) - Stat(state, d, r))];
      }
      assert Free(state, r) != 0;
    }
  }

  lemma {:induction false} MovesIntoMember(state: State, r: Room, n: nat, c: Candidate)
    requires n <= |state|
    ensures c in MovesInto(state, r, n) <==>
      c.dweller < n && c.dest == r && state[c.dweller].room != r && c.diff == Diff(state, c.dweller, r)
  {
    if n > 0 {
      MovesIntoMember(state, r, n - 1, c);
    }
  }

  /** The moves into room k - 1 that the k-th room adds are exactly the offered ones into it. */
  lemma MovesUpToStep(state: State, k: nat, c: Candidate)
    requires 0 < k <= 7
    ensures c in MovesUpTo(state, k) <==> c in MovesUpTo(state, k - 1) || (c.dest == k - 1 && Offered(state, c))
  {
    var prev := MovesUpTo(state, k - 1);
    if Free(state, k - 1) == 0 {
      assert MovesUpTo(state, k) == prev;
    } else {
      var into := MovesInto(state, k - 1, |state|);
      assert MovesUpTo(state, k) == prev + into;
      MovesIntoMember(state, k - 1, |state|, c);
    }
  }

  lemma {:induction false} MovesUpToMember(state: State, k: nat, c: Candidate)
    requires k <= 7
    ensures c in MovesUpTo(state, k) <==> c.dest < k && Offered(state, c)
  {
    if k > 0 {
      MovesUpToMember(state, k - 1, c);
      MovesUpToStep(state, k, c);
    }
  }

  /** Every move into the first k rooms is offered to a dweller of the state. */
  lemma MovesUpToBounded(state: State, k: nat)
    requires k <= 7
    ensures forall i :: 0 <= i < |MovesUpTo(state, k)| ==> MovesUpTo(state, k)[i].dweller < |state|
  {
    forall i | 0 <= i < |MovesUpTo(state, k)|
      ensures MovesUpTo(state, k)[i].dweller < |state|
    {
      MovesUpToMember(state, k, MovesUpTo(state, k)[i]);
    }
  }

  /** A candidate is in the list exactly when the enumerator's condition holds of it. */
  lemma AvailableMovesExactly(state: State)
    ensures forall c :: c in AvailableMovesOf(state) <==> Offered(state, c)
  {
    forall c {
      MovesUpToMember(state, 7, c);
    }
  }

  /** Every listed move passes the enumerator's condition (index form of AvailableMovesExactly). */
  lemma AvailableMovesSound(state: State)
    ensures forall i :: 0 <= i < |AvailableMovesOf(state)| ==> Offered(state, AvailableMovesOf(state)[i])
  {
    AvailableMovesExactly(state);
    var ms := AvailableMovesOf(state);
    forall i | 0 <= i < |ms|
      ensures Offered(state, ms[i])
    {
      assert ms[i] in ms;
    }
  }

  lemma {:induction false} MovesIntoOrdered(state: State, r: Room, n: nat)
    requires n <= |state|
    ensures forall i, j :: 0 <= i < j < |MovesInto(state, r, n)| ==>
      MovesInto(state, r, n)[i].dweller < MovesInto(state, r, n)[j].dweller
  {
    if n > 0 {
      MovesIntoOrdered(state, r, n - 1);
      var prev := MovesInto(state, r, n - 1);
      var ms := MovesInto(state, r, n);
      forall i | 0 <= i < |prev|
        ensures prev[i].dweller < n - 1
      {
        MovesIntoMember(state, r, n - 1, prev[i]);
      }
      if state[n - 1].room == r {
        assert ms == prev;
      } else {
        assert ms == prev + [Candidate(n - 1, r, Diff(state, n - 1, r))];
        forall i, j | 0 <= i < j < |ms|
          ensures ms[i].dweller < ms[j].dweller
        {
          assert ms[i] == prev[i];
          if j < |prev| {
            assert ms[j] == prev[j];
            assert prev[i].dweller < prev[j].dweller;
          } else {
            assert ms[j].dweller == n - 1;
            assert prev[i].dweller < n - 1;
          }
        }
      }
    }
  }

  lemma {:induction false} MovesUpToOrdered(state: State, k: nat)
    requires k <= 7
    ensures forall i, j :: 0 <= i < j < |MovesUpTo(state, k)| ==>
      Before(MovesUpTo(state, k)[i], MovesUpTo(state, k)[j])
  {
    if k > 0 {
      MovesUpToOrdered(state, k - 1);
      var prev := MovesUpTo(state, k - 1);
      var into := MovesInto(state, k - 1, |state|);
      var ms := MovesUpTo(state, k);
      if Free(state, k - 1) != 0 {
        assert ms == prev + into;
        MovesIntoOrdered(state, k - 1, |state|);
        forall i | 0 <= i < |prev|
          ensures prev[i].dest < k - 1
        {
          MovesUpToMember(state, k - 1, prev[i]);
        }
        forall i | 0 <= i < |into|
          ensures into[i].dest == k - 1
        {
          MovesIntoMember(state, k - 1, |state|, into[i]);
        }
        forall i, j | 0 <= i < j < |ms|
          ensures Before(ms[i], ms[j])
        {
          if j < |prev| {
            assert ms[i] == prev[i] && ms[j] == prev[j];
          } else if i < |prev| {
            assert ms[i] == prev[i] && ms[j] == into[j - |prev|];
          } else {
            var i', j' := i - |prev|, j - |prev|;
            assert ms[i] == into[i'] && ms[j] == into[j'];
            assert into[i'].dweller < into[j'].dweller;
          }
        }
      }
    }
  }

  /**
   The list is strictly ordered by destination room, then by dweller; so every offered
   (dweller, destination) pair appears exactly once.
   */
  lemma AvailableMovesOrdered(state: State)
    ensures forall i, j :: 0 <= i < j < |AvailableMovesOf(state)| ==>
      Before(AvailableMovesOf(state)[i], AvailableMovesOf(state)[j]) &&
      AvailableMovesOf(state)[i] != AvailableMovesOf(state)[j]
  {
    MovesUpToOrdered(state, 7);
    var ms := AvailableMovesOf(state);
    assert ms == MovesUpTo(state, 7);
    forall i, j | 0 <= i < j < |ms|
      ensures ms[i] != ms[j]
    {
      assert Before(ms[i], ms[j]);
    }
  }
}
