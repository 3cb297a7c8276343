# NoGo rules, Monte Carlo tree search and GTP vertex codec in Dafny

This project models the core of a small NoGo-playing program that speaks the Go Text
Protocol (GTP). NoGo is played on a Go board, but a move that captures is illegal, and so
is a suicide. The side to move that has no legal move loses.

The model covers four parts of the program:

- **The rules board** (`nogo4/board.py`).
  - A flat array of cells (EMPTY, BLACK, WHITE, BORDER) holds the `size x size` playable
    area inside a one-cell BORDER ring. Rows have stride `size + 1`.
  - A neighbour table is built once.
  - Also modelled:
    - the stack-based flood fill `_block_has_liberty`, which marks a stone visited when it
      is popped;
    - capture detection and move legality;
    - the ascending list of legal moves;
    - the random legal move;
    - `play_for` and `opponent`.
  - Modules: `Stones`, `Boards`, `Groups`, `Rules`.
- **Random games** (`Rollouts`).
  - Both engines play random legal moves for alternating sides until the side to move has
    none. That side has lost.
- **The Monte Carlo tree search of the final engine** (`jackrabbit/engine.py`, module
  `Search`).
  - Covers:
    - tree nodes with `children` dictionaries;
    - UCT selection, where an unvisited child scores INFINITY and Python's `max` keeps
      the first maximum;
    - expansion by every legal move;
    - back-propagation of BLACK's wins;
    - the playout (descend, expand, simulate, update);
    - the robust-child move choice.
  - The engine session (`Sessions`) covers `play_move`, `set_board_size`, `clear_board`,
    and `generate_move` (search, then commit the move).
  - The session commands of `nogo4/engine.py` are the same code and are modelled by the
    same members.
- **The earlier tree search** (`nogo4/engine.py`, module `EarlySearch`).
  - Each node stores its own position and side to move.
  - Selection descends while a node has more than `SIM_T` visits.
  - Expansion adds one random child.
  - Back-propagation alternates the win value level by level.
- **The text codec** (`jackrabbit/connection.py`, module `Gtp`).
  - Covers `parse_color`, `format_color`, `parse_move`, `format_point` and `format_moves`.
  - Also covers the decision behind `gogui-rules_final_result`.
  - Vertices follow section 2.11 of the GTP version 2 specification: column letters skip
    I and rows are 1-based.

How the model represents the program:

- **Values instead of mutation.** Every structure is an immutable value, and every mutating
  method returns the new value.
- **Tree arenas.** Both trees are arenas (sequences indexed by node number). Node 0 is the
  root and every parent has a smaller index than its children.
- **Randomness.** The random number generator becomes an argument
  `shuffle: (nat, seq<int>) -> seq<int>`, which gives the k-th shuffle of a list. The model
  assumes only that each shuffle is a permutation (`Rollouts.Permutes`), and a draw counter
  is threaded through.
- **UCT exploration term.** The floating-point term `C * sqrt(log(N) / n)` becomes an
  uninterpreted argument `bonus`. The exploitation term is exact real division.
- **Search budget.** The search deadline becomes a playout count.

## Model

| member | source | states |
|---|---|---|
| Stones.Opponent | nogo4/board.py:126-127 | BLACK and WHITE are each other's opponent, EMPTY and BORDER are each other's opponent, and no cell state is its own opponent |
| Stones.OpponentSwapsPlayers | nogo4/board.py:126-127 | `opponent` exchanges BLACK and WHITE, never maps a player to a non-player, and never fixes a colour |
| Stones.OpponentInvolution | nogo4/board.py:126-127 | `opponent` is its own inverse |
| Boards.InitialCells | nogo4/board.py:23-26 | after construction the cell at `r*ns+c` is EMPTY exactly when 1 <= r, c <= size, every other cell is BORDER, and there are `maxpoint` cells |
| Boards.PlayableCandidatesInRange | nogo4/board.py:31-32 | every playable point and its four candidates `pos±1`, `pos±ns` lie inside the cell array, so the border ring absorbs every edge |
| Boards.NeighborTable | nogo4/board.py:28-33 | `q` is listed as a neighbour of `p` exactly when both are playable and `q` is one of `p`'s four orthogonal candidates; border cells have empty lists |
| Boards.NeighborTableInRange | nogo4/board.py:28-33 | every neighbour index is inside the cell array |
| Boards.NeighborTableSymmetric | nogo4/board.py:30-33 | adjacency is symmetric |
| Boards.NewBoard | nogo4/board.py:17-33 | a new board has the given size, its layout and border ring, and its EMPTY cells are exactly the playable area |
| Boards.Copy | nogo4/board.py:44-48 | a copy has the same size, cells and neighbour table as the original |
| Groups.Scan | nogo4/board.py:65-69 | one popped stone's neighbours: a liberty is reported exactly when some neighbour is EMPTY; otherwise exactly the unvisited same-colour neighbours are pushed |
| Groups.Fill | nogo4/board.py:62-71 | the flood fill with pop-time marking terminates and answers true exactly when the stone's maximal same-colour group has an EMPTY neighbour |
| Groups.BlockHasLiberty | nogo4/board.py:50-71 | `_block_has_liberty(s)` is true iff some stone of the group containing `s` has an EMPTY neighbour |
| Groups.NoLibertyWhenClosed | nogo4/board.py:62-71 | once the stack is exhausted without finding a liberty, the group has none |
| Rules.DetectCapturesOf | nogo4/board.py:73-77 | capture detection is true iff some neighbour of the point holds a group of the given colour with no liberty |
| Rules.IsMoveLegalFor | nogo4/board.py:97-109 | the verdict is legal iff the point is EMPTY and, with the stone placed, its group has a liberty and no adjacent opponent group lacks one; a non-EMPTY point is illegal; the board is left unchanged on every path |
| Rules.EmptyPoints | nogo4/board.py:79-80 | exactly the EMPTY indices, in ascending order |
| Rules.LegalMovesFor | nogo4/board.py:82-87 | exactly the points where a move is legal, in ascending order |
| Rules.FirstLegal | nogo4/board.py:92-95 | scanning an order returns None iff no listed point is legal, and otherwise the first legal point of the order |
| Rules.RandomMoveFor | nogo4/board.py:89-95 | for any shuffle of the empty points: None iff there is no legal move, otherwise a legal move |
| Rules.RandomMoveForAnyOrder | nogo4/board.py:89-95 | whether a random move exists does not depend on the shuffle |
| Rules.EveryLegalMoveCanBePicked | nogo4/board.py:89-95 | every legal move is returned under some shuffle |
| Rules.PlayLegalMove | nogo4/board.py:111-113 | only the cell at the point changes, to the colour |
| Rules.PlayFor | nogo4/board.py:115-119 | `play_for` reports legality; an illegal move changes nothing; a legal move sets only that cell |
| Rules.LegalMoveFillsEmpty | nogo4/board.py:97-113 | a legal move of a colour turns exactly one EMPTY cell into a stone |
| Rules.LegalMoveKeepsBorder | nogo4/board.py:111-119 | a legal move of a real colour keeps the border ring |
| Rules.NewBoardAlive | nogo4/board.py:17-26 | on a new board every group has a liberty |
| Rules.LegalMoveKeepsGroupsAlive | nogo4/board.py:97-109 | the NoGo invariant: if every group has a liberty, it still does after a legal move by BLACK or WHITE |
| Rollouts.DrawMove | jackrabbit/engine.py:66 | the random move of a playout is None iff the side has no legal move, and legal otherwise |
| Rollouts.RandomMoveProgress | jackrabbit/engine.py:66-68 | each random move decreases a measure, so every random game ends |
| Rollouts.Rollout | nogo4/engine.py:100-105 | a random game keeps the layout and every existing stone; it stops with a side that has no legal move, which is the starting side or its opponent; it keeps every group alive |
| Scores.FirstMax | jackrabbit/engine.py:145-148 | `max` returns a position that no score exceeds and that strictly exceeds every earlier score, so it is the first maximum |
| Scores.InfiniteWins | jackrabbit/engine.py:14-16 | if any score is INFINITY, the maximum is INFINITY |
| Search.ExpandWith | jackrabbit/engine.py:152-156 | adding entries for a list of moves keeps every existing child, creates fresh children only for new moves, and ends with keys equal to the old keys plus the moves, all distinct |
| Search.Expand | jackrabbit/engine.py:150-157 | `expand` sets `expanded`; its keys become the old keys plus every legal move; old children are untouched; new children have no visits or wins |
| Search.ExpandLinked | jackrabbit/engine.py:150-157 | expansion preserves the tree's links: parents precede children, entries name their child and move, keys are distinct, and unexpanded nodes have no children |
| Search.ExpandStats | jackrabbit/engine.py:150-157 | expansion changes no node's visits or wins and preserves `0 <= black_wins <= visits` |
| Search.Update | jackrabbit/engine.py:159-164 | `update(value)` adds one visit and `value` wins to the node and each ancestor up to the root, and changes no other node |
| Search.UpdateLinked | jackrabbit/engine.py:159-164 | back-propagation preserves the tree's links |
| Search.UpdateStats | jackrabbit/engine.py:159-164 | with a value of 0 or 1, back-propagation preserves `0 <= black_wins <= visits` |
| Search.UctScore | jackrabbit/engine.py:14-24 | the score is INFINITY exactly for an unvisited child |
| Search.UctScoreBounds | jackrabbit/engine.py:17-24 | for a visited child, BLACK's score (`max_flag`) is `black_wins/visits` plus the exploration term, and the two flags' scores add up to 1 plus twice that term, so WHITE scores the complementary rate; with `0 <= black_wins <= visits` either score lies within the term plus [0, 1] |
| Search.Select | jackrabbit/engine.py:145-148 | `select` returns an entry of `children` whose score no other child exceeds; it picks an unvisited child whenever one exists |
| Search.Descend | jackrabbit/engine.py:50-53 | descent ends at a leaf below the starting node, on a board of the same layout, and moves down whenever the start has children |
| Search.ExpandIfNeeded | jackrabbit/engine.py:56-57 | an unexpanded node is expanded, an expanded one is left as it is, and the links are kept |
| Search.Simulate | jackrabbit/engine.py:65-70 | the result is 1 iff the side left without a legal move is not BLACK, so it is 0 or 1; that side is the starting side or its opponent |
| Search.Playout | jackrabbit/engine.py:46-63 | a playout keeps the tree's links, expands the root, and adds exactly one visit to the root |
| Search.UpdateBalances | jackrabbit/engine.py:159-164 | updating below an expanded root adds one visit to exactly one root child, so the root children's visits still sum to the root's visits |
| Search.PlayoutBalances | jackrabbit/engine.py:46-63 | after every playout the root children's visits sum to the root's visits |
| Search.PlayoutStats | jackrabbit/engine.py:46-63 | each playout preserves `0 <= black_wins <= visits` at every node |
| Search.PlayoutRootMoves | jackrabbit/engine.py:46-63 | once expanded, the root's keys are exactly the legal moves of the position searched |
| Search.Playouts | jackrabbit/engine.py:111-118 | after `count` playouts the root has `count` more visits, and the links, the statistics bound, the root balance and the root's moves are all preserved |
| Search.NewTree | jackrabbit/engine.py:108 | `TreeNode(None)`: a lone root without parent or children, with no visits or wins and not expanded; it is linked and balanced for every board, and its statistics are sound |
| Search.NewTreeInvariants | jackrabbit/engine.py:108 | a fresh root satisfies every invariant of the search |
| Search.ChooseMove | jackrabbit/engine.py:122-125 | None iff the root has no children; otherwise the move of a root child with the most visits, the first such in insertion order |
| Search.ChosenMoveIsLegal | jackrabbit/engine.py:122-131 | after a search, no move is chosen iff the side has no legal move; otherwise the chosen move is legal |
| Sessions.NewEngine | jackrabbit/engine.py:32-34 | a new engine has a 7x7 board set up for play, with BLACK to move |
| Sessions.SetBoardSize | jackrabbit/engine.py:87-89 | an empty board of the requested size with BLACK to move; its EMPTY cells are exactly the playable area |
| Sessions.ClearBoard | jackrabbit/engine.py:97-99 | an empty board of the same size with BLACK to move |
| Sessions.ClearBoardIdempotent | nogo4/engine.py:34-46 | clearing twice equals clearing once, and clearing is resizing to the current size |
| Sessions.PlayMove | jackrabbit/engine.py:101-104 | `play_move` answers whether the move is legal; only a legal move changes the board, by that one stone, and hands the move to the opponent of `color` |
| Sessions.PlayMoveKeepsSettled | nogo4/engine.py:48-51 | playing keeps the board's layout and border ring |
| Sessions.SearchedMoveIsLegal | jackrabbit/engine.py:106-131 | a search of at least one playout from a fresh root leaves a root whose chosen move is absent iff the colour has no legal move, and legal otherwise |
| Sessions.GenerateMove | jackrabbit/engine.py:106-131 | after at least one playout there is a move iff the colour has a legal move; the move is legal; it is committed to the board and the opponent moves next; without a move the session is unchanged |
| EarlySearch.Select4 | nogo4/engine.py:85-89 | selection stops at a node with at most `SIM_T` visits or no children; that node lies below the start, and every node passed on the way had more than `SIM_T` visits and children |
| EarlySearch.Expand4 | nogo4/engine.py:91-98 | `expand` returns the node itself, unchanged, iff its side has no legal move; otherwise it appends one fresh child whose position is the parent's plus a legal move of the parent's side, with the opponent to move |
| EarlySearch.ExpandKeepsShape | nogo4/engine.py:91-98 | expansion keeps the arena's links and keeps every child one legal move after its parent |
| EarlySearch.Backprop | nogo4/engine.py:110-114 | every node from the start up to the root gains one visit; wins alternate between `value` and `1 - value` level by level; no other node changes |
| EarlySearch.BackpropStats | nogo4/engine.py:109-113 | with a value of 0 or 1, back-propagation preserves `0 <= wins <= visits` |
| EarlySearch.GameFrom | nogo4/engine.py:100-105 | the random game starts from a copy of the node's position: its final board keeps that layout and every stone already placed; it ends with the node's side or its opponent left with no legal move, and draws from the generator |
| EarlySearch.Simulate4 | nogo4/engine.py:100-114 | `simulate` leaves every node's position, side and links as they were, adds a visit exactly on the path to the root, and preserves the statistics bound |
| EarlySearch.Simulate4AsWritten | nogo4/engine.py:100-114 | with the first value as written, `simulate` likewise leaves every node's position, side and links as they were, adds a visit exactly on the path to the root, preserves the statistics bound, and draws from the generator |
| EarlySearch.UctScore4 | nogo4/engine.py:80-83 | the score of a visited node is finite; it lies within the exploration term plus [0, 1] when `0 <= wins <= visits`, is the term alone with no wins, and the term plus 1 when every visit was a win |
| EarlySearch.AsWrittenComplementsCorrected | nogo4/engine.py:108-113 | on every node from the simulated node up to the root, the written `simulate` adds a win exactly when the corrected one does not |
| EarlySearch.SidesAlternate | nogo4/engine.py:95 | every node's side to move is the opponent of its parent's |
| EarlySearch.PlayerAtDepth | nogo4/engine.py:95 | along a path, a node an even number of levels up has the same side to move, and any other node has the opponent |
| EarlySearch.CreditAt | nogo4/engine.py:109-113 | the win one back-propagation adds to a node below the root, for each choice of first value, expressed through the side that chose the node |
| EarlySearch.WinsForChooser | nogo4/engine.py:108-113 | with the corrected value, a node gains a win exactly when its parent's side won the random game |
| EarlySearch.WinsAgainstChooser | nogo4/engine.py:108-113 | as written, a node gains a win exactly when its parent's side lost the random game |
| EarlySearch.FreshArena | nogo4/engine.py:55 | the search starts from a lone root holding the position and the side to move, with no statistics, and the search invariant already holds there |
| EarlySearch.Iterate | nogo4/engine.py:58-62 | one select, expand and simulate round, with the corrected first value of `simulate`, always draws from the generator; its effect on the tree is stated by the three rows that follow |
| EarlySearch.IterateShape | nogo4/engine.py:58-62 | one select, expand and simulate round keeps the links and the one-move-per-level relation, and adds at most one node |
| EarlySearch.IterateVisits | nogo4/engine.py:58-62 | each round adds one visit to the root and keeps every non-root node visited, so UCT never divides by zero |
| EarlySearch.IterateKeepsGood | nogo4/engine.py:58-62 | each round preserves all invariants together and adds one root visit |
| Gtp.Decimal | jackrabbit/connection.py:220 | `str(row)` is a non-empty run of decimal digits with no leading zero |
| Gtp.ParseDecimal | jackrabbit/connection.py:201 | `int(s[1:])` reads a row iff it is a non-empty run of decimal digits; without a redundant leading zero, `str` of the row gives the same digits back |
| Gtp.DecimalRoundTrip | jackrabbit/connection.py:201 | `int` reads back what `str` wrote |
| Gtp.ParseColor | jackrabbit/connection.py:184-185 | `parse_color` maps "b", "w", "e" and "BORDER" to BLACK, WHITE, EMPTY and BORDER; every other key fails |
| Gtp.LoweredNeverBorder | jackrabbit/connection.py:116-117 | the commands lower-case the colour before parsing it, so they never obtain BORDER |
| Gtp.FormatColor | jackrabbit/connection.py:211-212 | `format_color` names exactly the two players; the first letter of the name is the key `parse_color` reads back as that colour |
| Gtp.ColumnOf | jackrabbit/connection.py:195-200 | a first character that is not a lower-case letter, or is `i`, names no column; any other names a column in 1..25 |
| Gtp.ColumnLettersRoundTrip | jackrabbit/connection.py:195-220 | the column letters A..Z without I, lower-cased, are read as columns 1..25 in order, and each column is read from its own letter only |
| Gtp.ParseMove | jackrabbit/connection.py:188-208 | no point for a board size outside 2..25 or for "pass" in any case; any point returned is a playable cell inside the cell array |
| Gtp.ParseMoveNames | jackrabbit/connection.py:194-208 | an accepted vertex names its point: the first character is the point's column and the rest spells its row |
| Gtp.ParseMoveAccepts | jackrabbit/connection.py:194-208 | a column letter followed by a row number, both within the board, is accepted as `(n+1)*row + col` |
| Gtp.FormatPointAsWritten | jackrabbit/connection.py:215-220 | as written, `format_point` names a point iff its row and column are both below 25 |
| Gtp.FormatPoint | jackrabbit/connection.py:215-220 | corrected, `format_point` names a point iff its row and column are both at most 25; the name has no space |
| Gtp.FormatParseRoundTrip | jackrabbit/connection.py:188-220 | for every playable point of a board of size 2..25, `parse_move(format_point(p, n), n) == p` |
| Gtp.AsWrittenAgreesInside | jackrabbit/connection.py:217-220 | below the last row and column, the written and corrected `format_point` agree |
| Gtp.AsWrittenLosesEdge | jackrabbit/connection.py:217-219 | on a 25x25 board, every point of row 25 or column Z is accepted by `parse_move` yet refused by the written `format_point` |
| Gtp.CornerA25 | jackrabbit/connection.py:217-219 | the corner A25 of a 25x25 board: the written `format_point` raises, the corrected one answers "A25" |
| Gtp.StrLeTotal | jackrabbit/connection.py:225 | Python's string order is total |
| Gtp.StrLeAntisym | jackrabbit/connection.py:225 | Python's string order is antisymmetric |
| Gtp.StrLeTrans | jackrabbit/connection.py:225 | Python's string order is transitive |
| Gtp.TenBeforeTwo | jackrabbit/connection.py:225 | the order is lexicographic, not numeric: "A10" comes before "A2" |
| Gtp.Sort | jackrabbit/connection.py:225 | `sorted` returns an ordered permutation of its input |
| Gtp.SortedUnique | jackrabbit/connection.py:225 | two ordered permutations of the same list are equal, so any correct sort gives the same answer |
| Gtp.SplitJoin | jackrabbit/connection.py:225 | splitting the joined names on spaces gives back the names |
| Gtp.FormatAll | jackrabbit/connection.py:224 | names every move in order, or fails iff some move has no name |
| Gtp.FormatMoves | jackrabbit/connection.py:223-225 | `format_moves`, naming points with the corrected `format_point`, fails exactly when some move has no name, and answers the empty line for no moves |
| Gtp.FormatMovesWords | jackrabbit/connection.py:223-225 | `format_moves` fails iff some move has no name, answers "" for no moves, and otherwise answers a line whose words are the moves' names, each once per move, in string order |
| Gtp.TenListedBeforeTwo | jackrabbit/connection.py:223-225 | on a 10x10 board the moves A2 and A10 are listed as "A10 A2" |
| Gtp.FinalResult | jackrabbit/connection.py:163-171 | the answer is "black" iff WHITE is to move and has no legal move; "white" iff BLACK is to move and has none; "unknown" otherwise |
| Gtp.SideToMoveAsWritten | jackrabbit/connection.py:138-143 | as written, `gogui-rules_side_to_move` answers "white" exactly when BLACK is to move, "black" exactly when WHITE is to move, and nothing otherwise |
| Gtp.SideToMoveNamesWaitingSide | jackrabbit/connection.py:138-143 | on a new session, with BLACK to move, the written command answers "white" |
| Gtp.SideToMove | jackrabbit/connection.py:138-143 | corrected, the command answers exactly when the current player is a player, and the answer's first letter reads back as that player |
| Gtp.ResignMatchesFinalResult | jackrabbit/engine.py:122-124 | after at least one playout, `generate_move` for the side to move finds no move exactly when the final result names the opponent |

## Left out

- Text I/O and command dispatch are not modelled. This includes `Connection.start`, `respond`, `error`, the command table, stdin/stdout and `exit()`. The other commands' bodies (`showboard`, `gogui-rules_board`, `known_command`, `list_commands`, `komi`, `name`, `version`) are rendering or constant answers and are not modelled. Of the commands that compute an answer, the final-result decision, `gogui-rules_side_to_move` and `format_moves` are modelled.
- `get_name`, `get_version`, `get_board`, `get_current_player`, `get_board_size`, `get_time_limit` and `set_time_limit` are not modelled. They are plain accessors: the model reads the session's fields directly.
- The timer is not modelled. This covers `signal.setitimer`, `TimerExpired`, `_time_epsilon`, `_time_limit` and `gc.collect`. The search runs a given number of complete playouts instead. Interruption in the middle of a playout is not modelled.
- The random number generator is not modelled: `np.random.shuffle` and `default_rng` become the `shuffle` argument. The model assumes only that each shuffle permutes its input, not that it is uniform.
- Search.UctScore: the exploration term `C * sqrt(log(N) / n)` is an uninterpreted argument `bonus`, because it is floating-point arithmetic. The same applies to `EarlySearch.UctScore4` (`nogo4/engine.py:80-83`). Only the exploitation term and the INFINITY rule are exact. `EarlySearch.UctScore4` is defined only for a visited node, because the source divides by `visits`; `EarlySearch.IterateVisits` shows that every node selection scores has been visited.
- The `generate_move` of `nogo4/engine.py` (lines 53-65) is modelled only up to one round of its loop (`EarlySearch.Iterate`). It loops forever and never reaches its return.
- `__repr__` and the other board rendering are not modelled.
- numpy details are not modelled. Cells are a four-valued datatype rather than `uint8`, and `get_empty_points` returns a sequence rather than an index array. `visited` is local to the flood fill rather than a field of the board.
- Python truthiness of a move is not modelled. The loops `while move := ...` and `if move := ...` would also stop on point 0, but point 0 is always BORDER and is never a move.
- Gtp.ParseMove: rows are read as non-empty runs of ASCII decimal digits. Python's `int()` also accepts surrounding whitespace, a sign, underscores and non-ASCII digits, and the model does not.
- Gtp.Lower: `str.lower()` is modelled on ASCII capitals only. Non-ASCII letters are left unchanged.
- The board size is not validated: `set_board_size` builds a board of any requested size, and only `parse_move` checks the range 2..25. The model follows this, so `Sessions.SetBoardSize` and `Boards.NewBoard` accept any non-negative size.
- Sessions.SetBoardSize: negative sizes are not modelled, because the size is a `nat`. The `boardsize` command passes `int(args[0])` on unchecked, and `Board.__init__` (`nogo4/board.py:17-26`) accepts a negative size. For example, size -3 gives `maxpoint` 3 and a board of BORDER cells only.
- The entry points `nogo4/nogo4.py` and `jackrabbit/nogo4.py` are not modelled. `jackrabbit/engine.py` imports a `board` module that is not part of this model. That module is modelled as `nogo4/board.py`, with the random move taking the shuffle argument.
- Gtp.FormatMoves: uses the corrected `format_point` (see "## Findings"), not the written one. So on a 25x25 board, moves on row 25 or in column Z are named: `FormatMoves([651], 25)` is `Some("A25")`. The written `format_moves`, and with it `gogui-rules_legal_moves`, raises ValueError on that input. The written behaviour is stated by `Gtp.FormatPointAsWritten` and `Gtp.AsWrittenLosesEdge`.
- EarlySearch.Iterate: simulates with the corrected first value `EarlySearch.FirstValue` (see "## Findings"), not the written `int(opponent(sim_player) == self.player)` of `nogo4/engine.py:109`. So each round's win counts are the complement of the written ones on every node of the path (`EarlySearch.AsWrittenComplementsCorrected`). The shape, visit and statistics-bound facts about a round hold for both versions: `EarlySearch.Simulate4AsWritten` has the same guarantees as `EarlySearch.Simulate4`.

## Findings

| source | as written | input that shows it | evidently intended | confidence | as-written member | corrected member |
|---|---|---|---|---|---|---|
| jackrabbit/connection.py:218-219 | `format_point` raises ValueError unless `0 <= row < MAXSIZE` and `0 <= col < MAXSIZE` | board size 25, point 651 (vertex A25) or point 51 (vertex Z1): `parse_move` accepts these vertices and both points can be legal, but `format_point` raises, so `genmove` and `legal_moves` fail on them | `<= MAXSIZE`, so that every point of a 25x25 board has a name | high, not executed | Gtp.AsWrittenLosesEdge | Gtp.FormatParseRoundTrip |
| jackrabbit/connection.py:138-143 | `gogui-rules_side_to_move` answers `format_color(opponent(color))` for the current player `color` | a new session: BLACK is to move, and the command answers "white" | answer the colour of the side to move, `format_color(color)` | medium, not executed | Gtp.SideToMoveNamesWaitingSide | Gtp.SideToMove |
| nogo4/engine.py:109 | the first back-propagated value is `int(opponent(sim_player) == self.player)`: 1 when the side to move at the node won the random game | root with BLACK to move, and child `c` with WHITE to move after BLACK's move. The random game from `c` ends with WHITE unable to move, so BLACK won, yet `c` gains 0 wins. `select` maximises the child's win rate, so at the root BLACK prefers the moves that lose | credit a node when the side that chose it, its parent's side, wins: `int(sim_player == self.player)` | medium, not executed | EarlySearch.WinsAgainstChooser | EarlySearch.WinsForChooser |

The corrected definitions are the ones the rest of the model uses:

- `Gtp.FormatMoves` names points with `Gtp.FormatPoint`.
- `EarlySearch.Iterate` simulates with `EarlySearch.Simulate4`.

The written versions are kept as `Gtp.FormatPointAsWritten` and `EarlySearch.Simulate4AsWritten`.
