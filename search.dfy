/**
 Chain search: every way of making 0 up to `depth` moves from a node, one node per way,
 with nothing deduplicated.
 */
module Search {
  import opened Fallout
  import opened Capacity
  import opened Moves

  /** The state after dweller m.dweller has been reassigned to room m.dest. */
  function Apply(state: State, m: Move): (r: State)
    requires m.dweller < |state|
  {
    state[m.dweller := Entry(state[m.dweller].dweller, m.dest)]
  }

  /** The node reached from `node` by also making move m. */
  function Follow(node: Node, m: Move): (next: Node)
    requires m.dweller < |node.state|
  {
    Node(node.moves + [m], Apply(node.state, m), node.score + m.diff)
  }

  /** How a chain records candidate c taken in `state`: its source is the dweller's room at that point. */
  function Record(state: State, c: Candidate): (m: Move)
    requires c.dweller < |state|
  {
    Move(c.dweller, state[c.dweller].room, c.dest, c.diff)
  }

  /**
   A sequence of moves the search can make from `state`: each move is one the enumerator
   offers in the state it is made in (see Moves.AvailableMovesExactly), recorded with that
   state's room of the dweller as its source.
   */
  ghost predicate Legal(state: State, ms: seq<Move>)
    decreases |ms|
  {
    ms == [] ||
    (ms[0].dweller < |state| &&
     ms[0] == Record(state, Candidate(ms[0].dweller, ms[0].dest, ms[0].diff)) &&
     Offered(state, Candidate(ms[0].dweller, ms[0].dest, ms[0].diff)) &&
     Legal(Apply(state, ms[0]), ms[1..]))
  }

  /** The node reached from `node` by making the moves ms in order. */
  ghost function Outcome(node: Node, ms: seq<Move>): (x: Node)
    requires Legal(node.state, ms)
    decreases |ms|
  {
    if ms == [] then node else Outcome(Follow(node, ms[0]), ms[1..])
  }

  /** The sum of the diffs of ms. */
  function SumDiffs(ms: seq<Move>): (sum: int)
  {
    if ms == [] then 0 else ms[0].diff + SumDiffs(ms[1..])
  }

  /** The sum over all dwellers of the stat each has in the room it is assigned to. */
  function TotalStat(state: State): (total: int)
  {
    if state == [] then 0
    else TotalStat(state[..|state| - 1]) + Stat(state, |state| - 1, state[|state| - 1].room)
  }

  /** Making move m changes the total by the mover's stat in m.dest less its stat in its old room. */
  lemma {:induction false} TotalStatAfterApply(state: State, m: Move)
    requires m.dweller < |state|
    ensures TotalStat(Apply(state, m)) ==
      TotalStat(state) - Stat(state, m.dweller, state[m.dweller].room) + Stat(state, m.dweller, m.dest)
  {
    var n := |state| - 1;
    var after := Apply(state, m);
    if m.dweller < n {
      assert after[..n] == Apply(state[..n], m);
      TotalStatAfterApply(state[..n], m);
    } else {
      assert after[..n] == state[..n];
    }
  }

  /** The score a chain of moves adds is the drop it causes in the total of the dwellers' stats in their rooms. */
  lemma {:induction false} ScoreIsTotalDrop(node: Node, ms: seq<Move>)
    requires Legal(node.state, ms)
    ensures SumDiffs(ms) == TotalStat(node.state) - TotalStat(Outcome(node, ms).state)
    decreases |ms|
  {
    if ms != [] {
      TotalStatAfterApply(node.state, ms[0]);
      ScoreIsTotalDrop(Follow(node, ms[0]), ms[1..]);
    }
  }

  /** One node per candidate of cs, in order: `node` followed by that candidate, recorded in node's state. */
  function Children(node: Node, cs: seq<Candidate>): (r: seq<Node>)
    requires forall i :: 0 <= i < |cs| ==> cs[i].dweller < |node.state|
    ensures |r| == |cs|
  {
    if cs == [] then []
    else Children(node, cs[..|cs| - 1]) + [Follow(node, Record(node.state, cs[|cs| - 1]))]
  }

  /** Taking one more candidate appends one more child. */
  lemma ChildrenSnoc(node: Node, cs: seq<Candidate>, i: nat)
    requires forall i :: 0 <= i < |cs| ==> cs[i].dweller < |node.state|
    requires i < |cs|
    ensures Children(node, cs[..i + 1]) == Children(node, cs[..i]) + [Follow(node, Record(node.state, cs[i]))]
  {
    assert cs[..i + 1][..i] == cs[..i];
  }

  /** The child at position i is `node` followed by candidate i. */
  lemma {:induction false} ChildrenIndex(node: Node, cs: seq<Candidate>)
    requires forall i :: 0 <= i < |cs| ==> cs[i].dweller < |node.state|
    ensures forall i :: 0 <= i < |cs| ==> Children(node, cs)[i] == Follow(node, Record(node.state, cs[i]))
  {
    if cs != [] {
      var n := |cs| - 1;
      ChildrenIndex(node, cs[..n]);
      assert forall i :: 0 <= i < n ==> cs[..n][i] == cs[i];
    }
  }

  /** One level of expansion: the node itself, then one node per available move, in the enumerator's order. */
  ghost function Expand(node: Node): (r: seq<Node>)
    ensures |r| == 1 + |AvailableMovesOf(node.state)| && r[0] == node
  {
    [node] + Children(node, AvailableMovesOf(node.state))
  }

  /**
   The nodes a search that expands every node with `step` returns for `depth` levels
   below `node`: at the last level the expansion of `node` itself, otherwise the
   searches one level less below each node of that expansion, concatenated in order.
   */
  ghost function Tree(step: Node -> seq<Node>, depth: nat, node: Node): (r: seq<Node>)
    requires depth >= 1
    decreases depth, 0
  {
    if depth == 1 then step(node) else Forest(step, depth - 1, step(node))
  }

  /** The searches below every node of `nodes`, in order, concatenated. */
  ghost function Forest(step: Node -> seq<Node>, depth: nat, nodes: seq<Node>): (r: seq<Node>)
    requires depth >= 1
    decreases depth, |nodes| + 1
  {
    if nodes == [] then []
    else Forest(step, depth, nodes[..|nodes| - 1]) + Tree(step, depth, nodes[|nodes| - 1])
  }

  /** The nodes the chain search returns for `depth` levels below `node`. */
  ghost function Chains(depth: nat, node: Node): (r: seq<Node>)
    requires depth >= 1
  {
    Tree(Expand, depth, node)
  }

  /**
   The first half of one search level: the node itself followed by one new node per
   available move, built from a copy of the move list with the move appended (its source
   being the dweller's current room), a copy of the state with the dweller reassigned,
   and the score plus the move's diff.
   */
  method NewChains(moves: seq<Move>, state: State, score: int) returns (newChains: seq<Node>)
    ensures newChains == Expand(Node(moves, state, score))
  {
    ghost var node := Node(moves, state, score);
    var options := AvailableMoves(state);
    newChains := [Node(moves, state, score)];
    for i := 0 to |options|
      invariant newChains == [node] + Children(node, options[..i])
    {
      ChildrenSnoc(node, options, i);
      var dweller, dest, diff := options[i].dweller, options[i].dest, options[i].diff;
      var newSeq := moves + [Move(dweller, state[dweller].room, dest, diff)];
      var newState := state[dweller := Entry(state[dweller].dweller, dest)];
      var newScore := score + diff;
      newChains := newChains + [Node(newSeq, newState, newScore)];
    }
    assert options[..|options|] == options;
  }

  /**
   One search level: builds the expansion with NewChains; at the last level returns it,
   otherwise searches one level less below each of its nodes and concatenates the results.
   */
  method ChainMoves(depth: nat, moves: seq<Move>, state: State, score: int) returns (nodes: seq<Node>)
    requires depth >= 1
    ensures nodes == Chains(depth, Node(moves, state, score))
    decreases depth
  {
    var newChains := NewChains(moves, state, score);
    if depth == 1 {
      return newChains;
    }
    nodes := [];
    for i := 0 to |newChains|
      invariant nodes == Forest(Expand, depth - 1, newChains[..i])
    {
      var next := newChains[i];
      var sub := ChainMoves(depth - 1, next.moves, next.state, next.score);
      ForestSnoc(Expand, depth - 1, newChains, i);
      nodes := nodes + sub;
    }
    assert newChains[..|newChains|] == newChains;
  }

  /** Extending the list of nodes by one appends that node's search results. */
  lemma ForestSnoc(step: Node -> seq<Node>, depth: nat, nodes: seq<Node>, i: nat)
    requires depth >= 1 && i < |nodes|
    ensures Forest(step, depth, nodes[..i + 1]) == Forest(step, depth, nodes[..i]) + Tree(step, depth, nodes[i])
  {
    assert nodes[..i + 1][..i] == nodes[..i];
  }

  /** Making ms from `node` extends its moves by ms, adds the diffs of ms to its score, and keeps its dwellers. */
  lemma {:induction false} OutcomeShape(node: Node, ms: seq<Move>)
    requires Legal(node.state, ms)
    ensures Outcome(node, ms).moves == node.moves + ms
    ensures Outcome(node, ms).score == node.score + SumDiffs(ms)
    ensures SameDwellers(Outcome(node, ms).state, node.state)
    decreases |ms|
  {
    if ms != [] {
      var next := Follow(node, ms[0]);
      OutcomeShape(next, ms[1..]);
      assert node.moves + ms == next.moves + ms[1..];
    }
  }

  /** Making ms1 and then ms2 is making ms1 + ms2. */
  lemma {:induction false} OutcomeConcat(node: Node, ms1: seq<Move>, ms2: seq<Move>)
    requires Legal(node.state, ms1) && Legal(Outcome(node, ms1).state, ms2)
    ensures Legal(node.state, ms1 + ms2) && Outcome(node, ms1 + ms2) == Outcome(Outcome(node, ms1), ms2)
    decreases |ms1|
  {
    if ms1 == [] {
      assert ms1 + ms2 == ms2;
    } else {
      OutcomeConcat(Follow(node, ms1[0]), ms1[1..], ms2);
      assert (ms1 + ms2)[0] == ms1[0] && (ms1 + ms2)[1..] == ms1[1..] + ms2;
    }
  }

  /** The nodes of one expansion are the node itself and the nodes one legal move away. */
  lemma ExpandMember(node: Node, y: Node) returns (ms: seq<Move>)
    requires y in Expand(node)
    ensures |ms| <= 1 && Legal(node.state, ms) && y == Outcome(node, ms)
  {
    var cs := AvailableMovesOf(node.state);
    if y == node {
      ms := [];
    } else {
      var ch := Children(node, cs);
      ChildrenIndex(node, cs);
      assert y in ch;
      var i :| 0 <= i < |ch| && ch[i] == y;
      AvailableMovesSound(node.state);
      var m := Record(node.state, cs[i]);
      ms := [m];
      assert Candidate(m.dweller, m.dest, m.diff) == cs[i];
      assert ms[1..] == [];
      assert Legal(Apply(node.state, m), ms[1..]);
      assert Outcome(node, ms) == Outcome(Follow(node, m), []);
    }
  }

  /** A node is in the searches below a list of nodes exactly when it is in the search below one of them. */
  lemma {:induction false} ForestMember(step: Node -> seq<Node>, depth: nat, nodes: seq<Node>, x: Node)
    requires depth >= 1
    ensures x in Forest(step, depth, nodes) <==> exists k :: 0 <= k < |nodes| && x in Tree(step, depth, nodes[k])
    decreases |nodes|
  {
    if nodes != [] {
      var n := |nodes| - 1;
      var pre := nodes[..n];
      ForestMember(step, depth, pre, x);
      assert forall k :: 0 <= k < n ==> pre[k] == nodes[k];
      if x in Forest(step, depth, nodes) {
        if x !in Tree(step, depth, nodes[n]) {
          var k :| 0 <= k < n && x in Tree(step, depth, pre[k]);
          assert x in Tree(step, depth, nodes[k]);
        }
      }
      if exists k :: 0 <= k < |nodes| && x in Tree(step, depth, nodes[k]) {
        var k :| 0 <= k < |nodes| && x in Tree(step, depth, nodes[k]);
        if k < n {
          assert x in Tree(step, depth, pre[k]);
        }
      }
    }
  }

  /** Every expansion `step` makes starts with the node it expands. */
  ghost predicate KeepsFirst(step: Node -> seq<Node>)
  {
    forall n :: |step(n)| >= 1 && step(n)[0] == n
  }

  /** With such an expansion, a search returns at least one node, the one it started from. */
  lemma {:induction false} TreeStartsWith(step: Node -> seq<Node>, depth: nat, node: Node)
    requires depth >= 1 && KeepsFirst(step)
    ensures |Tree(step, depth, node)| >= 1 && Tree(step, depth, node)[0] == node
    decreases depth, 0
  {
    if depth > 1 {
      ForestStartsWith(step, depth - 1, step(node));
    }
  }

  lemma {:induction false} ForestStartsWith(step: Node -> seq<Node>, depth: nat, nodes: seq<Node>)
    requires depth >= 1 && nodes != [] && KeepsFirst(step)
    ensures |Forest(step, depth, nodes)| >= 1 && Forest(step, depth, nodes)[0] == nodes[0]
    decreases depth, |nodes|
  {
    var n := |nodes| - 1;
    if n == 0 {
      TreeStartsWith(step, depth, nodes[0]);
      assert nodes[..0] == [];
    } else {
      ForestStartsWith(step, depth, nodes[..n]);
    }
  }

  /** The chain search returns at least one node, and its first node is the input node unchanged. */
  lemma ChainsStartWithInput(depth: nat, node: Node)
    requires depth >= 1
    ensures |Chains(depth, node)| >= 1 && Chains(depth, node)[0] == node
  {
    assert KeepsFirst(Expand);
    TreeStartsWith(Expand, depth, node);
  }

  /** A node found below `node` at depth > 1 is found one level less below one of node's children. */
  lemma ChainsDescend(depth: nat, node: Node, x: Node) returns (y: Node)
    requires depth > 1 && x in Chains(depth, node)
    ensures y in Expand(node) && x in Chains(depth - 1, y)
  {
    var e := Expand(node);
    ForestMember(Expand, depth - 1, e, x);
    var k :| 0 <= k < |e| && x in Tree(Expand, depth - 1, e[k]);
    y := e[k];
  }

  /** Soundness: every returned node is reached from the input by at most `depth` legal moves. */
  lemma {:induction false} ChainsSound(depth: nat, node: Node, x: Node) returns (ms: seq<Move>)
    requires depth >= 1 && x in Chains(depth, node)
    ensures |ms| <= depth && Legal(node.state, ms) && x == Outcome(node, ms)
    decreases depth
  {
    if depth == 1 {
      ms := ExpandMember(node, x);
    } else {
      var y := ChainsDescend(depth, node, x);
      var first := ExpandMember(node, y);
      var rest := ChainsSound(depth - 1, y, x);
      OutcomeConcat(node, first, rest);
      ms := first + rest;
    }
  }

  /** A move the enumerator offers, recorded with its source, leads to one of the expanded nodes. */
  lemma ExpandContainsMove(node: Node, m: Move) returns (k: nat)
    requires m.dweller < |node.state| && m == Record(node.state, Candidate(m.dweller, m.dest, m.diff))
    requires Offered(node.state, Candidate(m.dweller, m.dest, m.diff))
    ensures k < |Expand(node)| && Expand(node)[k] == Follow(node, m)
  {
    var cs := AvailableMovesOf(node.state);
    AvailableMovesExactly(node.state);
    var i :| 0 <= i < |cs| && cs[i] == Candidate(m.dweller, m.dest, m.diff);
    ChildrenIndex(node, cs);
    k := i + 1;
    assert Expand(node)[k] == Children(node, cs)[i];
  }

  /** A node found one level less below a child of `node` is found below `node`. */
  lemma ChainsAscend(depth: nat, node: Node, k: nat, x: Node)
    requires depth > 1 && k < |Expand(node)| && x in Chains(depth - 1, Expand(node)[k])
    ensures x in Chains(depth, node)
  {
    ForestMember(Expand, depth - 1, Expand(node), x);
  }

  /** The first move of a legal chain leads to one of the expanded nodes, from which the rest of the chain is legal. */
  lemma FirstMoveChild(node: Node, ms: seq<Move>) returns (k: nat)
    requires ms != [] && Legal(node.state, ms)
    ensures k < |Expand(node)| && Expand(node)[k] == Follow(node, ms[0])
    ensures Legal(Expand(node)[k].state, ms[1..]) && Outcome(node, ms) == Outcome(Expand(node)[k], ms[1..])
  {
    k := ExpandContainsMove(node, ms[0]);
  }

  /** Completeness: every way of making at most `depth` legal moves from the input is among the returned nodes. */
  lemma {:induction false} ChainsComplete(depth: nat, node: Node, ms: seq<Move>)
    requires depth >= 1 && |ms| <= depth && Legal(node.state, ms)
    ensures Outcome(node, ms) in Chains(depth, node)
    decreases depth
  {
    if ms == [] {
      ChainsStartWithInput(depth, node);
    } else {
      var k := FirstMoveChild(node, ms);
      if depth == 1 {
        assert ms[1..] == [];
      } else {
        ChainsComplete(depth - 1, Expand(node)[k], ms[1..]);
        ChainsAscend(depth, node, k, Outcome(node, ms));
      }
    }
  }

  /** `x` is reached from `node` by at most `depth` legal moves. */
  ghost predicate Reaches(node: Node, depth: nat, x: Node)
  {
    exists ms :: |ms| <= depth && Legal(node.state, ms) && x == Outcome(node, ms)
  }

  /** The returned nodes are exactly the nodes reached by at most `depth` legal moves. */
  lemma ChainsExactly(depth: nat, node: Node)
    requires depth >= 1
    ensures forall x :: x in Chains(depth, node) <==> Reaches(node, depth, x)
  {
    forall x
      ensures x in Chains(depth, node) <==> Reaches(node, depth, x)
    {
      if x in Chains(depth, node) {
        var ms := ChainsSound(depth, node, x);
      }
      if Reaches(node, depth, x) {
        var ms :| |ms| <= depth && Legal(node.state, ms) && x == Outcome(node, ms);
        ChainsComplete(depth, node, ms);
      }
    }
  }

  /**
   What every returned node is: the input's moves extended by between 0 and `depth`
   legal moves (each recording the dweller's room at that step as its source), the input
   score plus the diffs of those moves, and a state with the same dwellers.
   */
  lemma ChainNodeShape(depth: nat, node: Node, x: Node)
    requires depth >= 1 && x in Chains(depth, node)
    ensures |node.moves| <= |x.moves| <= |node.moves| + depth
    ensures x.moves[..|node.moves|] == node.moves
    ensures Legal(node.state, x.moves[|node.moves|..])
    ensures x == Outcome(node, x.moves[|node.moves|..])
    ensures x.score == node.score + SumDiffs(x.moves[|node.moves|..])
    ensures SameDwellers(x.state, node.state)
  {
    var ms := ChainsSound(depth, node, x);
    OutcomeShape(node, ms);
    assert x.moves[|node.moves|..] == ms;
  }

  /** At depth 1 the search returns the input node and one node per available move. */
  lemma ChainsDepthOneCount(node: Node)
    ensures |Chains(1, node)| == 1 + |AvailableMovesOf(node.state)|
  {
  }

  /** One level of expansion changes only the moved dweller's room, to the move's destination. */
  lemma ExpandChangesOnlyMover(node: Node, i: nat)
    requires i < |AvailableMovesOf(node.state)|
    ensures var c := AvailableMovesOf(node.state)[i];
      c.dweller < |node.state| &&
      Expand(node)[i + 1].state == node.state[c.dweller := Entry(node.state[c.dweller].dweller, c.dest)] &&
      Expand(node)[i + 1].moves == node.moves + [Move(c.dweller, node.state[c.dweller].room, c.dest, c.diff)] &&
      Expand(node)[i + 1].score == node.score + c.diff
  {
    ChildrenIndex(node, AvailableMovesOf(node.state));
    assert Expand(node)[i + 1] == Children(node, AvailableMovesOf(node.state))[i];
  }

  /** Searching one level deeper still finds every node found before. */
  lemma ChainsGrow(depth: nat, node: Node)
    requires depth >= 1
    ensures forall x :: x in Chains(depth, node) ==> x in Chains(depth + 1, node)
  {
    forall x | x in Chains(depth, node)
      ensures x in Chains(depth + 1, node)
    {
      var ms := ChainsSound(depth, node, x);
      ChainsComplete(depth + 1, node, ms);
    }
  }

  /**
   From a state within capacity, every legal chain of moves leads to a state within
   capacity: no move is offered into a room whose places are used up.
   */
  lemma {:induction false} LegalKeepsCapacity(node: Node, ms: seq<Move>)
    requires Legal(node.state, ms)
    requires forall r: Room :: Free(node.state, r) >= 0
    ensures forall r: Room :: Free(Outcome(node, ms).state, r) >= 0
    decreases |ms|
  {
    if ms != [] {
      var m := ms[0];
      var next := Follow(node, m);
      assert node.state[m.dweller].room != m.dest && Free(node.state, m.dest) != 0;
      assert next.state == node.state[m.dweller := Entry(node.state[m.dweller].dweller, m.dest)];
      forall r: Room
        ensures Free(next.state, r) >= 0
      {
        OccupancyAfterReassign(node.state, m.dweller, m.dest, r);
        assert Free(node.state, r) >= 0;
      }
      LegalKeepsCapacity(next, ms[1..]);
    }
  }
}
