/** Selection: the node of the chain search that the placement advice is taken from. */
module Selector {
  import opened Fallout
  import opened Capacity
  import opened Moves
  import opened Search

  /** Some dweller of `state` sits in a room in which its stat is already 10. */
  predicate Maxed(state: State)
  {
    exists d :: 0 <= d < |state| && Stat(state, d, state[d].room) == 10
  }

  /**
   Node k is the one the selector ends with: it is not maxed, its score is above -1,
   no node that is not maxed scores more, and every earlier node that is not maxed
   scores strictly less (so a tie keeps the earlier node).
   */
  ghost predicate FirstBest(options: seq<Node>, k: nat)
  {
    k < |options| && !Maxed(options[k].state) && options[k].score > -1 &&
    (forall j :: 0 <= j < |options| && !Maxed(options[j].state) ==> options[j].score <= options[k].score) &&
    (forall j :: 0 <= j < k && !Maxed(options[j].state) ==> options[j].score < options[k].score)
  }

  /** No node that is not maxed has a score above -1. */
  ghost predicate NoneQualifies(options: seq<Node>)
  {
    forall j :: 0 <= j < |options| && !Maxed(options[j].state) ==> options[j].score <= -1
  }

  /**
   The selector's answer for `options`: the moves and score of the first best node, or
   no moves and -1 when no node qualifies.
   */
  ghost predicate Selected(options: seq<Node>, bestMoves: Option<seq<Move>>, bestScore: int)
  {
    (NoneQualifies(options) && bestMoves == None && bestScore == -1) ||
    (exists k: nat :: FirstBest(options, k) && bestMoves == Some(options[k].moves) && bestScore == options[k].score)
  }

  /**
   Runs the chain search from the unchanged state with no moves and score 0, then scans
   its nodes in order: a node whose score does not beat the best so far is skipped, a
   node that leaves some dweller at stat 10 in its room is skipped, and any other node
   becomes the best so far.
   */
  method BestChain(depth: nat, state: State) returns (bestMoves: Option<seq<Move>>, bestScore: int)
    requires depth >= 1
    ensures Selected(Chains(depth, Node([], state, 0)), bestMoves, bestScore)
  {
    var options := ChainMoves(depth, [], state, 0);
    bestScore := -1;
    bestMoves := None;
    ghost var best: int := -1;
    for i := 0 to |options|
      invariant -1 <= best < i
      invariant best == -1 ==> bestMoves == None && bestScore == -1
      invariant best == -1 ==> forall j :: 0 <= j < i && !Maxed(options[j].state) ==> options[j].score <= -1
      invariant best >= 0 ==> bestMoves == Some(options[best].moves) && bestScore == options[best].score
      invariant best >= 0 ==> !Maxed(options[best].state) && bestScore > -1
      invariant best >= 0 ==> forall j :: 0 <= j < i && !Maxed(options[j].state) ==> options[j].score <= bestScore
      invariant best >= 0 ==> forall j :: 0 <= j < best && !Maxed(options[j].state) ==> options[j].score < bestScore
    {
      var node := options[i];
      if node.score <= bestScore {
        continue;
      }
      var keep := true;
      for d := 0 to |node.state|
        invariant keep
        invariant forall e :: 0 <= e < d ==> Stat(node.state, e, node.state[e].room) != 10
      {
        if node.state[d].dweller.stats[node.state[d].room] == 10 {
          keep := false;
          break;
        }
      }
      if !keep {
        continue;
      }
      bestScore := node.score;
      bestMoves := Some(node.moves);
      best := i;
    }
    if best >= 0 {
      assert FirstBest(options, best);
    }
  }

  /** The selector's answer is determined by the nodes: two answers for the same nodes are equal. */
  lemma SelectionUnique(options: seq<Node>, m1: Option<seq<Move>>, s1: int, m2: Option<seq<Move>>, s2: int)
    requires Selected(options, m1, s1) && Selected(options, m2, s2)
    ensures m1 == m2 && s1 == s2
  {
  }

  /** The selected score is never below -1 and is -1 exactly when no moves are returned. */
  lemma SelectedScoreRange(options: seq<Node>, bestMoves: Option<seq<Move>>, bestScore: int)
    requires Selected(options, bestMoves, bestScore)
    ensures bestScore >= -1 && (bestMoves == None <==> bestScore == -1)
  {
  }

  /** Selecting from more nodes never gives a lower score. */
  lemma SelectedMonotone(o1: seq<Node>, m1: Option<seq<Move>>, s1: int, o2: seq<Node>, m2: Option<seq<Move>>, s2: int)
    requires Selected(o1, m1, s1) && Selected(o2, m2, s2)
    requires forall x :: x in o1 ==> x in o2
    ensures s1 <= s2
  {
    SelectedScoreRange(o2, m2, s2);
    if m1.Some? {
      var k1: nat :| FirstBest(o1, k1) && m1 == Some(o1[k1].moves) && s1 == o1[k1].score;
      assert o1[k1] in o2;
      var j :| 0 <= j < |o2| && o2[j] == o1[k1];
      assert !Maxed(o2[j].state) && o2[j].score == s1;
    }
  }

  /** Searching one level deeper never selects a lower score. */
  lemma DeeperNeverWorse(depth: nat, state: State, m1: Option<seq<Move>>, s1: int, m2: Option<seq<Move>>, s2: int)
    requires depth >= 1
    requires Selected(Chains(depth, Node([], state, 0)), m1, s1)
    requires Selected(Chains(depth + 1, Node([], state, 0)), m2, s2)
    ensures s1 <= s2
  {
    ChainsGrow(depth, Node([], state, 0));
    SelectedMonotone(Chains(depth, Node([], state, 0)), m1, s1, Chains(depth + 1, Node([], state, 0)), m2, s2);
  }

  /** `dw` has the same stat, other than 10, for every room. */
  predicate EvenStats(dw: FullDweller)
  {
    dw.stats[0] != 10 && forall r: Room :: dw.stats[r] == dw.stats[0]
  }

  /** Wherever a lone dweller with even stats is assigned, the total is that stat and nobody is maxed. */
  lemma EvenStatsTotal(state: State, dw: FullDweller)
    requires EvenStats(dw) && |state| == 1 && state[0].dweller == dw
    ensures TotalStat(state) == dw.stats[0] && !Maxed(state)
  {
  }

  /**
   A lone dweller whose stats are the same for every room, and not 10, gains nothing
   from moving: at any depth and from any room the selector keeps the unchanged first
   node, with no moves and score 0.
   */
  lemma EvenStatsKeepStart(depth: nat, dw: FullDweller, room: Room, bestMoves: Option<seq<Move>>, bestScore: int)
    requires depth >= 1 && EvenStats(dw)
    requires Selected(Chains(depth, Node([], [Entry(dw, room)], 0)), bestMoves, bestScore)
    ensures bestMoves == Some([]) && bestScore == 0
  {
    var root := Node([], [Entry(dw, room)], 0);
    var options := Chains(depth, root);
    ChainsStartWithInput(depth, root);
    forall j | 0 <= j < |options|
      ensures options[j].score == 0
    {
      var x := options[j];
      ChainNodeShape(depth, root, x);
      ScoreIsTotalDrop(root, x.moves[|root.moves|..]);
      EvenStatsTotal(x.state, dw);
      EvenStatsTotal(root.state, dw);
    }
    EvenStatsTotal(root.state, dw);
    assert FirstBest(options, 0);
    SelectionUnique(options, bestMoves, bestScore, Some([]), 0);
  }

  /** Wherever a lone dweller with stat 10 for every room is assigned, it is maxed. */
  lemma AllTensStayMaxed(state: State, dw: FullDweller)
    requires forall r: Room :: dw.stats[r] == 10
    requires |state| == 1 && state[0].dweller == dw
    ensures Maxed(state)
  {
  }

  /**
   A lone dweller with stat 10 for every room leaves every node maxed, the unchanged
   first node included: at any depth the selector returns no moves and -1.
   */
  lemma AllTensSelectNothing(depth: nat, dw: FullDweller, room: Room, bestMoves: Option<seq<Move>>, bestScore: int)
    requires depth >= 1 && forall r: Room :: dw.stats[r] == 10
    requires Selected(Chains(depth, Node([], [Entry(dw, room)], 0)), bestMoves, bestScore)
    ensures bestMoves == None && bestScore == -1
  {
    var root := Node([], [Entry(dw, room)], 0);
    var options := Chains(depth, root);
    forall j | 0 <= j < |options|
      ensures Maxed(options[j].state)
    {
      ChainNodeShape(depth, root, options[j]);
      AllTensStayMaxed(options[j].state, dw);
    }
    assert NoneQualifies(options);
    SelectionUnique(options, bestMoves, bestScore, None, -1);
  }

  /** Every room has a place left for that dweller, and each room but S is offered with diff 9. */
  lemma TrainedRoom(dw: FullDweller, r: Room)
    requires dw.stats == [10, 1, 1, 1, 1, 1, 1]
    ensures Free([Entry(dw, 0)], r) != 0
    ensures MovesInto([Entry(dw, 0)], r, 1) == if r == 0 then [] else [Candidate(0, r, 9)]
  {
  }

  /** The moves offered to a lone dweller in room S with stats 10, 1, ..., 1: one to every other room, each with diff 9. */
  lemma TrainedMoves(dw: FullDweller)
    requires dw.stats == [10, 1, 1, 1, 1, 1, 1]
    ensures AvailableMovesOf([Entry(dw, 0)]) == [Candidate(0, 1, 9), Candidate(0, 2, 9), Candidate(0, 3, 9),
                                                Candidate(0, 4, 9), Candidate(0, 5, 9), Candidate(0, 6, 9)]
  {
    var st := [Entry(dw, 0)];
    TrainedRoom(dw, 0);
    TrainedRoom(dw, 1);
    TrainedRoom(dw, 2);
    TrainedRoom(dw, 3);
    TrainedRoom(dw, 4);
    TrainedRoom(dw, 5);
    TrainedRoom(dw, 6);
    assert MovesUpTo(st, 1) == [];
    assert MovesUpTo(st, 2) == [Candidate(0, 1, 9)];
    assert MovesUpTo(st, 3) == [Candidate(0, 1, 9), Candidate(0, 2, 9)];
    assert MovesUpTo(st, 4) == [Candidate(0, 1, 9), Candidate(0, 2, 9), Candidate(0, 3, 9)];
    assert MovesUpTo(st, 5) == [Candidate(0, 1, 9), Candidate(0, 2, 9), Candidate(0, 3, 9), Candidate(0, 4, 9)];
    assert MovesUpTo(st, 6) == [Candidate(0, 1, 9), Candidate(0, 2, 9), Candidate(0, 3, 9), Candidate(0, 4, 9),
                                Candidate(0, 5, 9)];
  }

  /** At depth 1 the search from that dweller returns the unchanged node, then one node per move with score 9. */
  lemma TrainedOptions(dw: FullDweller)
    requires dw.stats == [10, 1, 1, 1, 1, 1, 1]
    ensures |Chains(1, Node([], [Entry(dw, 0)], 0))| == 7
    ensures Chains(1, Node([], [Entry(dw, 0)], 0))[0] == Node([], [Entry(dw, 0)], 0)
    ensures forall j :: 1 <= j < 7 ==>
      Chains(1, Node([], [Entry(dw, 0)], 0))[j] == Node([Move(0, 0, j, 9)], [Entry(dw, j)], 9)
  {
    var root := Node([], [Entry(dw, 0)], 0);
    var cs := AvailableMovesOf(root.state);
    TrainedMoves(dw);
    var options := Chains(1, root);
    assert options == [root] + Children(root, cs);
    ChildrenIndex(root, cs);
    forall j | 1 <= j < 7
      ensures options[j] == Node([Move(0, 0, j, 9)], [Entry(dw, j)], 9)
    {
      var m := Record(root.state, cs[j - 1]);
      assert m == Move(0, 0, j, 9);
      assert options[j] == Follow(root, m);
      assert Apply(root.state, m) == [Entry(dw, j)];
      assert root.moves + [m] == [m];
    }
  }

  /**
   A dweller at stat 10 in its room disqualifies the unchanged node; at depth 1 every move
   away scores 9, and the tie keeps the first of them, the move to room P.
   */
  lemma TrainedMovesToFirstRoom(dw: FullDweller, bestMoves: Option<seq<Move>>, bestScore: int)
    requires dw.stats == [10, 1, 1, 1, 1, 1, 1]
    requires Selected(Chains(1, Node([], [Entry(dw, 0)], 0)), bestMoves, bestScore)
    ensures bestMoves == Some([Move(0, 0, 1, 9)]) && bestScore == 9
  {
    var options := Chains(1, Node([], [Entry(dw, 0)], 0));
    TrainedOptions(dw);
    assert Stat([Entry(dw, 0)], 0, 0) == 10;
    assert Stat(options[1].state, 0, 1) == 1;
    assert FirstBest(options, 1);
    SelectionUnique(options, bestMoves, bestScore, Some([Move(0, 0, 1, 9)]), 9);
  }
}
