# fallout.py — a verified model of the dweller-placement search

`fallout.py` advises where to put the dwellers of a Fallout Shelter vault. There are
seven rooms, one per letter of `SPECIAL`, and each holds at most 4 dwellers. Every
dweller has a stat from 1 to 10 for each room. The program enumerates every sequence
of at most `depth` single reassignments. Each move scores the mover's stat in its old
room minus its stat in the new one. The program then picks the best-scoring resulting
assignment in which no dweller sits in a room where its stat is already 10. A high
score therefore means dwellers were moved to rooms they are weak in, where they still
have something to train.

The Dafny project models this core:

- `fallout.dfy` (module `Fallout`): rooms, capacity, dwellers, assignments, moves and
  search nodes. Python dict keys compare by object identity, so a dweller's identity
  is its position in the assignment. The assignment is a sequence of (dweller, room)
  entries in insertion order, which is also the dict's iteration order.
- `capacity.dfy` (module `Capacity`): `spaces`, as a method with a loop.
- `moves.dfy` (module `Moves`): `available_moves`, as a method with nested loops. It is
  proved equal to a specification function, and the function's membership and order
  are characterised.
- `search.dfy` (module `Search`): `chain_moves`. It is a recursive method, proved equal
  to a ghost recursive characterisation `Chains`. The lemmas show which nodes that
  characterisation contains.
- `selector.dfy` (module `Selector`): `best_chain`, as a method with the source's
  `continue`/`break` loops. It is proved to return the answer described by `Selected`.
  The lemmas cover uniqueness, monotonicity in `depth`, and three concrete vaults.
- `records.dfy` (module `Records`): `read_dweller`, as a method with a loop. The record
  layout `Line` (name, one separator, seven digits) is used to state the round-trip
  lemma `ReadRecord`.

Python values are modelled as Dafny values: `seq` for lists, a sequence of entries for
the state dict, and `Option` for `None`. The source copies the list and the dict
before every change (`seq.copy()`, `state.copy()`). So no caller's data is ever
changed, and value semantics models this exactly.

Three facts about `fallout.py` that the model makes explicit:

- There is a single selection policy. It applies no penalty and no tie-break by
  chain length: a tie keeps the earlier node.
- A zero-score move never replaces the unchanged first node. That node scores 0,
  and a later node needs a strictly higher score to replace it. So a dweller with
  even stats keeps its room (`Selector.EvenStatsKeepStart`).
- diff is the stat in the old room minus the stat in the new one, and the search
  maximises the sum of diffs. That sum is exactly the drop in the vault's total
  assigned stat (`Search.ScoreIsTotalDrop`).

## Model

| member | source | states |
|---|---|---|
| Fallout.RoomOf | fallout.py:6 | A letter names a room iff it is one of `SPECIAL`, and then it is the letter at that room's position. |
| Fallout.RoomLettersDistinct | fallout.py:6 | Every room's letter names that room back, so the seven letters are distinct. |
| Capacity.Free | fallout.py:42-44 | The places room r has left, `spaces(state)[r]`: the capacity 4 less the dwellers assigned to r, never above 4. |
| Capacity.Occupancy | fallout.py:42-44 | A room never holds more dwellers than the assignment has. |
| Capacity.Spaces | fallout.py:41-45 | One count per room, in room order. Each count plus the room's occupancy is exactly the capacity 4. |
| Capacity.OccupancyAfterReassign | fallout.py:71-72 | Reassigning a dweller to another room lowers its old room's occupancy by one, raises the new room's by one, and leaves every other room unchanged. |
| Moves.Diff | fallout.py:58 | A move's diff: the dweller's stat in its current room minus its stat in the destination; 0 for its own room. |
| Moves.Offered | fallout.py:52-58 | The enumerator's condition on a candidate: an existing dweller, a destination other than its room, a destination count other than 0, and the diff above. |
| Moves.MovesInto | fallout.py:54-58 | The inner dweller loop for room r over the first n dwellers: one candidate per dweller not already in r, in dweller order, with its diff. |
| Moves.MovesUpTo | fallout.py:50-58 | The outer room loop over the first k rooms: for each room in `SPECIAL` order, nothing when its count is 0, otherwise that room's inner-loop moves. |
| Moves.AvailableMovesOf | fallout.py:53-57 | Every offered move names a dweller of the assignment. |
| Moves.AvailableMoves | fallout.py:48-59 | The nested room/dweller loops build exactly the move list that AvailableMovesOf characterises. |
| Moves.MovesIntoMember | fallout.py:53-58 | A candidate is among the moves into room r offered to the first n dwellers iff its dweller is one of them, is not already in r, and has the right diff. |
| Moves.MovesUpToStep | fallout.py:50-53 | Handling one more room adds exactly the offered moves into that room, and nothing when the room has no place left. |
| Moves.MovesUpToMember | fallout.py:50-58 | A candidate is among the moves into the first k rooms iff its room is one of them and the enumerator offers it. |
| Moves.MovesUpToBounded | fallout.py:53-57 | Every move into the first k rooms names a dweller of the assignment. |
| Moves.AvailableMovesExactly | fallout.py:50-58 | A candidate is listed iff its destination differs from the dweller's room, its destination has a count of places left other than 0, and its diff is the stat in the current room minus the stat in the destination. |
| Moves.AvailableMovesSound | fallout.py:51-58 | Every listed move passes the enumerator's condition: another room, a free place, the right diff. |
| Moves.MovesIntoOrdered | fallout.py:53-58 | The moves into one room are in strictly increasing dweller order. |
| Moves.MovesUpToOrdered | fallout.py:50-58 | Moves into the first k rooms are ordered by room, then by dweller. |
| Moves.AvailableMovesOrdered | fallout.py:50-58 | The list is strictly ordered by destination room (outer loop), then dweller (inner loop). So each offered pair appears exactly once. |
| Search.Apply | fallout.py:71-72 | The copied state with one dweller reassigned to the move's destination, every other entry unchanged. |
| Search.Follow | fallout.py:68-76 | The new node for one move: the move appended to the sequence, the state after Apply, and the score plus the move's diff. |
| Search.Record | fallout.py:69 | The move tuple the chain records: dweller, its room in the current state as source, destination, and diff. |
| Search.Legal | fallout.py:50-58 | A chain the search can make: each move is one the enumerator offers in the state it is made in, recorded with that state's room as source. |
| Search.TotalStatAfterApply | fallout.py:71-72 | Reassigning a dweller changes the vault's total assigned stat by its new stat minus its old one. |
| Search.ScoreIsTotalDrop | fallout.py:57-58 | The diffs of a legal chain add up to the drop in the total assigned stat between its start and its end. |
| Search.Children | fallout.py:67-76 | One new node per available move. |
| Search.ChildrenSnoc | fallout.py:67-76 | Handling one more move appends exactly one node: that move followed from the input node. |
| Search.ChildrenIndex | fallout.py:67-76 | The i-th new node is the input node followed by the i-th available move, recorded with the dweller's current room as source. |
| Search.Expand | fallout.py:66-76 | One level of expansion: the node itself first, then one node per available move, so 1 + the number of available moves nodes. |
| Search.Tree | fallout.py:78-84 | The depth recursion: at the last level the expansion itself, otherwise the searches one level less below each expanded node. |
| Search.Forest | fallout.py:81-83 | The `extend` loop: the searches below each node of a list, concatenated in list order. |
| Search.Chains | fallout.py:62-84 | What `chain_moves` returns: the expansion at depth 1, otherwise the searches one level less below each expanded node, concatenated in order. |
| Search.NewChains | fallout.py:66-76 | The first half of one level returns the unchanged node followed by one node per available move. Each new node has the move appended to a copy of the sequence, the dweller reassigned in a copy of the state, and the diff added to the score. |
| Search.ChainMoves | fallout.py:62-84 | For depth >= 1 the recursive search returns exactly Chains(depth, node): the expansion at depth 1, otherwise the searches one level less below each expanded node, concatenated in order. |
| Search.ForestSnoc | fallout.py:81-83 | Extending the loop over the expanded nodes by one node appends that node's search. |
| Search.OutcomeShape | fallout.py:68-74 | Making a legal chain extends the move sequence by it, adds its diffs to the score, and keeps the same dwellers. |
| Search.OutcomeConcat | fallout.py:81-83 | Making one legal chain and then another is making their concatenation. |
| Search.ExpandMember | fallout.py:66-76 | Every node of one expansion is the input or one legal move away from it. |
| Search.ForestMember | fallout.py:80-83 | A node is in the concatenated searches iff it is in the search below one of the nodes. |
| Search.TreeStartsWith | fallout.py:66-84 | A search whose every expansion keeps its node first returns that node first. |
| Search.ForestStartsWith | fallout.py:80-83 | The first of the concatenated searches starts with the first node. |
| Search.ChainsStartWithInput | fallout.py:66-84 | For every depth >= 1 the first returned node is the input (sequence, state, score), unchanged. |
| Search.ChainsDescend | fallout.py:80-83 | A node found at depth > 1 is found one level less below some expanded node. |
| Search.ChainsSound | fallout.py:62-84 | Every returned node is reached from the input by at most depth legal moves. |
| Search.ExpandContainsMove | fallout.py:67-76 | Every move the enumerator offers leads to one of the expanded nodes. |
| Search.ChainsAscend | fallout.py:80-83 | A node found below an expanded node, one level less deep, is found below the input. |
| Search.FirstMoveChild | fallout.py:67-76 | The first move of a legal chain leads to an expanded node, and the rest of the chain is legal from there. |
| Search.ChainsComplete | fallout.py:62-84 | Every sequence of at most depth legal moves is among the returned nodes. No sequence is dropped, even when two orders reach the same state. |
| Search.ChainsExactly | fallout.py:62-84 | A node is returned iff it is reached by at most depth legal moves. |
| Search.ChainNodeShape | fallout.py:68-74 | Every returned node's sequence is the input sequence extended by 0 to depth legal moves. Each appended move records the dweller's room at that step as its source. The score is the input score plus the appended diffs, and the state holds the same dwellers. |
| Search.ChainsDepthOneCount | fallout.py:66-79 | At depth 1 the search returns 1 + the number of available moves nodes. |
| Search.ExpandChangesOnlyMover | fallout.py:67-76 | The node for a move changes only the mover's room, to the destination. It appends the move with the dweller's current room as its source and adds the move's diff. |
| Search.ChainsGrow | fallout.py:78-84 | Every node found at some depth is also found one level deeper. |
| Search.LegalKeepsCapacity | fallout.py:51-52 | From an assignment within capacity, no legal chain overfills a room. |
| Selector.Maxed | fallout.py:97-101 | The `keep` scan's rejection: some dweller sits in a room where its stat is 10. |
| Selector.FirstBest | fallout.py:90-106 | Node k is where the scan ends: not maxed, score above -1, no node that is not maxed scores more, and every earlier such node scores strictly less. |
| Selector.Selected | fallout.py:90-108 | The scan's answer: the moves and score of the first best node, or (None, -1) when no node that is not maxed scores above -1. |
| Selector.BestChain | fallout.py:87-108 | The scan returns the moves and score of the first node that is not maxed and whose score is maximal among those nodes, provided that score is above -1. Otherwise it returns (None, -1). |
| Selector.SelectionUnique | fallout.py:90-106 | The answer is determined by the nodes: ties keep the earlier node, so there is one answer. |
| Selector.SelectedScoreRange | fallout.py:90-108 | The selected score is at least -1, and it is -1 exactly when no moves are returned. |
| Selector.SelectedMonotone | fallout.py:87-108 | Selecting from a superset of the nodes never gives a lower score. |
| Selector.DeeperNeverWorse | fallout.py:87-108 | Searching one level deeper never selects a lower score. |
| Selector.EvenStatsTotal | fallout.py:97-100 | A lone dweller with the same stat, not 10, for every room has that stat as the total and is never maxed. |
| Selector.EvenStatsKeepStart | fallout.py:87-108 | Such a dweller is never moved: at any depth and from any room the answer is (no moves, 0). |
| Selector.AllTensStayMaxed | fallout.py:97-100 | A lone dweller with 10 for every room is maxed wherever it sits. |
| Selector.AllTensSelectNothing | fallout.py:87-108 | Such a dweller disqualifies every node, the unchanged one included: the answer is (None, -1). |
| Selector.TrainedRoom | fallout.py:51-56 | For a lone dweller in S with stats 10,1,1,1,1,1,1, every room has a place left, and each room but S is offered with diff 9. |
| Selector.TrainedMoves | fallout.py:48-59 | A lone dweller in S with stats 10,1,1,1,1,1,1 is offered a move to each other room in order, each with diff 9. |
| Selector.TrainedOptions | fallout.py:62-79 | At depth 1 that dweller's search returns the unchanged node, then one node per room P to L with score 9. |
| Selector.TrainedMovesToFirstRoom | fallout.py:87-108 | The unchanged node is disqualified, all moves tie at 9, and the first one wins: move to P, score 9. |
| Records.FromEnd | fallout.py:19-21 | A negative slice bound clamps to a position inside the string. |
| Records.StatValue | fallout.py:22-25 | A digit stands for a stat from 1 to 10, and it is 10 exactly for '0'. |
| Records.StatDigit | fallout.py:22-25 | Every stat from 1 to 10 has a digit. |
| Records.DigitRoundTrip | fallout.py:22-25 | Digits and stats correspond one to one: each direction inverts the other. |
| Records.StatsOf | fallout.py:20-25 | The stat characters give stats iff every one is a digit, one stat per character in order, each its digit's value. |
| Records.DwellerOf | fallout.py:18-27 | The dweller a record gives: the name is all but the last 8 characters, and the stats are the last 7 characters read as digits. It is None when one of them is not a digit. |
| Records.ReadDweller | fallout.py:18-27 | The loop gives exactly the record's dweller. The name is all but the last 8 characters. The stats are the last 7 digits in room order S,P,E,C,I,A,L. A non-digit gives no dweller. |
| Records.StatsNone | fallout.py:25 | One non-digit among the stat characters leaves the whole record unreadable. |
| Records.Line | fallout.py:18-27 | The record layout `read_dweller` expects: a name, one separator and one digit per stat. It is used to state the round trip. |
| Records.ReadRecord | fallout.py:18-27 | Reading the record of a dweller with seven stats from 1 to 10 gives that dweller back, whatever the separator. So the character 8th from the end is ignored. |
| Records.ReadComplete | fallout.py:18-27 | A record gives a dweller with a stat for every room iff it has at least 7 characters and the last 7 are digits. |

## Left out

- `state_from_file` (fallout.py:30-38) opens a file and iterates its lines. That is I/O. The per-line split (room letter last, the rest a record) is not modelled either.
- `Dweller.__repr__` (fallout.py:13-15) is display only.
- `ROOM_IDX` (fallout.py:6) is never used by the source. `Fallout.RoomOf` models the letter-to-room table it builds.
- Fallout.Room admits only the seven rooms. The source does not check room letters: an assignment with a letter outside `SPECIAL` raises `KeyError` at `spaces[state[dweller]] -= 1` (fallout.py:44) and at the stat lookup (fallout.py:99). Such assignments are not modelled; `Fallout.RoomOf` gives None for such a letter.
- Search.Chains, Search.ChainMoves and Selector.BestChain require `depth >= 1`. `chain_moves` stops only when `depth == 1` (fallout.py:78), so `best_chain(0, ...)` recurses until Python raises `RecursionError`. That run is not modelled.
- Records.ReadDweller: a stat character that is not an ASCII digit gives `None`, where Python's `int()` raises. Characters outside ASCII that `int()` accepts as digits are not modelled.
- Records.DwellerOf gives a record shorter than 7 characters a dweller with fewer than 7 stats, as in the source.
- Fallout.FullDweller: the search takes only dwellers with a stat for every room. In the source, looking up a missing stat raises `KeyError` (fallout.py:58, fallout.py:99). Runs that never look one up are not modelled, for example depth 1 with every room the dweller lacks a stat for already full.
- Search.LegalKeepsCapacity assumes a start within capacity. The source does not enforce capacity beyond its `== 0` test, so an over-full start can make the count of places left negative.
- Search.ChainMoves: the source's single `chain_moves` function is split into `NewChains` (the first loop) and `ChainMoves` (the recursion). The behaviour is the same.
- Object identity of dwellers is modelled by position. Two entries with equal names and stats stay distinct, as in the source.
- The exponential running time of the search is not modelled.
- `fallout.py` has no command-line entry point, no printing, no state-file writer and no penalised selection policy, so none is modelled.
