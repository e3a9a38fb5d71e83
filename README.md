# CS50 AI: crossword generator, Minesweeper player, tic-tac-toe

This project is a Dafny model of three programs from the CS50 AI course projects, with proofs about each:

- **Crossword generator** (`Optimization/crossword/generate.py`). A `CrosswordCreator` holds a puzzle and a domain of candidate words for every slot (a "variable"). It makes each domain node consistent, which means every word has the slot's length. It makes the domains arc consistent with AC-3, an algorithm that works through a queue of slot pairs ("arcs"). It then fills the grid with a backtracking search. That search picks the unassigned slot with the fewest remaining values (the MRV heuristic) and tries the words that constrain the neighbouring slots least first (the least-constraining-value heuristic). Modules `CrosswordProblem` (the puzzle), `CrosswordAssignment` (the assignment dict), `CrosswordLogic` (what each step computes, and its properties), `CrosswordSolutions` (why pruning loses no solution), `CrosswordExample` (a puzzle that `ac3` leaves arc inconsistent) and `Generate` (the class and its methods).
- **Minesweeper** (`Knowledge/minesweeper/minesweeper.py`). The game board counts the mines around a cell. The knowledge-based player keeps sentences of the form "`count` of these `cells` are mines". It derives new sentences by subset resolution and concludes which cells are safe and which are mines. Module `MineLogic` gives the value semantics and the soundness proofs. Module `Minesweeper` holds the classes `Sentence`, `MinesweeperAI` and `Game`, whose methods update their fields in place. Each method is proved to compute the matching `MineLogic` function.
- **Tic-tac-toe** (`Search/tictactoe/tictactoe.py`). The rules of the game and minimax search. Module `TicTacToe`. `winner`, `terminal` and `utility` are functions. `player`, `actions`, `max_value`, `min_value` and `minimax` are methods with loops, proved against the functions `PlayerOf`, `ActionsOf`, `MaxValue` and `MinValue`.

The main results:

- **AC-3.** It only narrows domains, it never answers False, and it loses no solution. Its result need not be arc consistent.
- **`consistent`.** It answers True only for a dict of distinct words that fit their slots and agree wherever two slots cross.
- **Search results.** What the backtracking search returns as solved is a complete, valid crossword. It answers None only when no solution exists within the starting domains. The rendered letter grid shows every word of a solution.
- **Minesweeper soundness.** When the player's knowledge is true of the real mine layout, every `add_knowledge` step keeps it true, so no mine is ever recorded as safe. Resolution derives exactly the set differences of the nested sentence pairs.
- **Minimax.** The move `minimax` picks attains the minimax value of the board.

## Model

| member | source | states |
|---|---|---|
| TicTacToe.InitialState | Search/tictactoe/tictactoe.py:13-19 | the start board is 3x3 with every cell EMPTY |
| TicTacToe.InitialStateFacts | Search/tictactoe/tictactoe.py:13-69 | on the start board X moves first, nine cells are empty, and every cell is an action |
| TicTacToe.Player | Search/tictactoe/tictactoe.py:22-49 | the counting loops give X when both marks are equally many, O whenever X has more, and no player when O has more |
| TicTacToe.ActionsOf | Search/tictactoe/tictactoe.py:51-69 | the actions are exactly the empty cells, each listed once, in row-major order |
| TicTacToe.ActionsRowsSpec | Search/tictactoe/tictactoe.py:58-67 | after the loop has scanned i rows, it has collected exactly the empty cells of those rows, in order |
| TicTacToe.Actions | Search/tictactoe/tictactoe.py:51-69 | the nested loops produce exactly the empty cells in row-major order |
| TicTacToe.Result | Search/tictactoe/tictactoe.py:71-91 | a board comes back exactly when the cell is empty and someone is to move; the mover's mark fills that cell and every other cell is unchanged |
| TicTacToe.ResultCounts | Search/tictactoe/tictactoe.py:71-91 | a move leaves one fewer empty cell, adds one mark of the mover, leaves the other player's marks alone, and someone is still to move |
| TicTacToe.PlayersAlternate | Search/tictactoe/tictactoe.py:22-91 | on a board of a real game the turn passes to the other player after every move, and the new board is again a real game |
| TicTacToe.LineWinnerSpec | Search/tictactoe/tictactoe.py:98-153 | a line yields X exactly when it is full of X, O exactly when full of O, and nothing exactly when it is not complete |
| TicTacToe.WinnerFromSpec | Search/tictactoe/tictactoe.py:93-156 | checking lines from k on yields m exactly when a later line is full of m and no line checked before it is complete |
| TicTacToe.WinnerSpec | Search/tictactoe/tictactoe.py:93-156 | `winner` names m exactly when some line is full of m and no line checked earlier (rows, then columns, then the diagonals) is complete; it is None exactly when no line is complete |
| TicTacToe.RowsWithEmptyZero | Search/tictactoe/tictactoe.py:167-175 | the counter of rows with an EMPTY cell is zero exactly when no row has an EMPTY cell |
| TicTacToe.Terminal | Search/tictactoe/tictactoe.py:158-177 | the game is over exactly when there is a winner or no cell is empty |
| TicTacToe.Utility | Search/tictactoe/tictactoe.py:180-190 | 1 exactly when X won, -1 exactly when O won, 0 exactly when nobody won |
| TicTacToe.NonTerminalHasActions | Search/tictactoe/tictactoe.py:158-177 | a board that is not over has at least one action |
| TicTacToe.SeqMax | Search/tictactoe/tictactoe.py:197-200 | the running maximum from minus infinity is at least every value and equals one of them |
| TicTacToe.SeqMin | Search/tictactoe/tictactoe.py:208-211 | the running minimum from plus infinity is at most every value and equals one of them |
| TicTacToe.MaxValue | Search/tictactoe/tictactoe.py:192-201 | the value X can force lies between -1 and 1, on any finished game and any board with someone to move |
| TicTacToe.MinValue | Search/tictactoe/tictactoe.py:203-212 | the value O can force lies between -1 and 1, on any finished game and any board with someone to move |
| TicTacToe.MaxValueAttained | Search/tictactoe/tictactoe.py:192-201 | on an unfinished board, `max_value` is at least the `min_value` of every child board and equals one of them |
| TicTacToe.MinValueAttained | Search/tictactoe/tictactoe.py:203-212 | on an unfinished board, `min_value` is at most the `max_value` of every child board and equals one of them |
| TicTacToe.MaxValueSearch | Search/tictactoe/tictactoe.py:192-201 | the recursive loop returns the value X can force from the board |
| TicTacToe.MinValueSearch | Search/tictactoe/tictactoe.py:203-212 | the recursive loop returns the value O can force from the board |
| TicTacToe.FirstMaxMove | Search/tictactoe/tictactoe.py:220-226 | no move exactly when there are no actions; otherwise the first action whose `min_value` is the largest |
| TicTacToe.FirstMinMove | Search/tictactoe/tictactoe.py:228-234 | no move exactly when there are no actions; otherwise the first action whose `max_value` is the smallest |
| TicTacToe.Minimax | Search/tictactoe/tictactoe.py:214-235 | no move when nobody is to move or no cell is free; otherwise X gets the first best move for X and O the first best move for O |
| TicTacToe.MaxMoveIsOptimal | Search/tictactoe/tictactoe.py:214-226 | X's chosen move is legal and leads to a board whose `min_value` equals `max_value` of the current board |
| TicTacToe.MinMoveIsOptimal | Search/tictactoe/tictactoe.py:228-234 | O's chosen move is legal and leads to a board whose `max_value` equals `min_value` of the current board |
| MineLogic.KnownMinesSound | Knowledge/minesweeper/minesweeper.py:126-137 | the cells `known_mines` reports for a true sentence are all mines |
| MineLogic.KnownSafesSound | Knowledge/minesweeper/minesweeper.py:140-151 | the cells `known_safes` reports for a true sentence hold no mine |
| MineLogic.MarkMineKeepsTruth | Knowledge/minesweeper/minesweeper.py:153-163 | marking a real mine removes it from the sentence and keeps the sentence true |
| MineLogic.MarkSafeKeepsTruth | Knowledge/minesweeper/minesweeper.py:167-175 | marking a cell that is not a mine removes it from the sentence and keeps the sentence true |
| MineLogic.MarkSafesKeepsTruth | Knowledge/minesweeper/minesweeper.py:262-264 | marking a set of non-mines safe, in any order, keeps a sentence true |
| MineLogic.MarkMinesKeepsTruth | Knowledge/minesweeper/minesweeper.py:272-274 | marking a set of real mines, in any order, keeps a sentence true |
| MineLogic.MarkSafesAllKeepsTruth | Knowledge/minesweeper/minesweeper.py:261-264 | marking non-mines safe in every sentence keeps every sentence true |
| MineLogic.MarkMinesAllKeepsTruth | Knowledge/minesweeper/minesweeper.py:271-274 | marking real mines in every sentence keeps every sentence true |
| MineLogic.SafesInMembers | Knowledge/minesweeper/minesweeper.py:257-260 | the known-safes loop collects exactly the cells of the sentences whose count is zero |
| MineLogic.MinesInMembers | Knowledge/minesweeper/minesweeper.py:267-270 | the known-mines loop collects exactly the cells of the sentences that `known_mines` reports |
| MineLogic.SafesInSound | Knowledge/minesweeper/minesweeper.py:257-260 | from true sentences, the collected safe cells hold no mine |
| MineLogic.MinesInSound | Knowledge/minesweeper/minesweeper.py:267-270 | from true sentences, the collected mine cells are all mines |
| MineLogic.ResolveMembership | Knowledge/minesweeper/minesweeper.py:5-25 | `Resolve` derives exactly the differences "larger cell set minus smaller, count minus count" over the ordered pairs of sentences that differ as values and where one set contains the other |
| MineLogic.ResolveWithinInputs | Knowledge/minesweeper/minesweeper.py:5-25 | every derived sentence's cells lie within some input sentence |
| MineLogic.ResolveSound | Knowledge/minesweeper/minesweeper.py:5-25 | derived sentences are true of every mine layout that makes all the inputs true |
| MineLogic.ResolveWithLength | Knowledge/minesweeper/minesweeper.py:8-24 | the inner loop adds at most one sentence per pass and none for the pass that meets the same sentence |
| MineLogic.ResolveLength | Knowledge/minesweeper/minesweeper.py:5-25 | n sentences give at most n(n-1) derived sentences |
| MineLogic.NeighbourCells | Knowledge/minesweeper/minesweeper.py:238-249 | the cells within one row and one column of a cell, other than the cell itself, that lie on the board |
| MineLogic.NeighbourCellsAtMostEight | Knowledge/minesweeper/minesweeper.py:87-98 | a cell has at most eight neighbours |
| MineLogic.ConclusionsShape | Knowledge/minesweeper/minesweeper.py:256-294 | a round of conclusions only adds known cells, keeps the number of sentences, and strips every known cell from each sentence |
| MineLogic.ConclusionsSound | Knowledge/minesweeper/minesweeper.py:256-294 | a round of conclusions over true sentences, starting from correct safes and mines, records only correct safes and mines and leaves the sentences true |
| MineLogic.AddKnowledgeShape | Knowledge/minesweeper/minesweeper.py:218-294 | after `add_knowledge` the cell is played and safe, and exactly one sentence has been added: the unplayed neighbours less the known cells. Old sentences lose only known cells, and no sentence mentions a known cell |
| MineLogic.AddKnowledgeSound | Knowledge/minesweeper/minesweeper.py:218-294 | with true knowledge, a cell that is no mine and its true neighbour count, the knowledge after `add_knowledge` is still true, so no mine is marked safe and no safe cell a mine |
| MineLogic.MarkMineSpecSound | Knowledge/minesweeper/minesweeper.py:200-207 | the player's `mark_mine` of a real mine keeps its knowledge true, and afterwards no sentence mentions the cell |
| MineLogic.MarkSafeSpecSound | Knowledge/minesweeper/minesweeper.py:209-216 | the player's `mark_safe` of a non-mine keeps its knowledge true, and afterwards no sentence mentions the cell |
| Minesweeper.Sentence.constructor | Knowledge/minesweeper/minesweeper.py:116-118 | a sentence holds the given cells and count |
| Minesweeper.Sentence.KnownMines | Knowledge/minesweeper/minesweeper.py:126-137 | all the cells when their number equals a non-zero count, otherwise nothing (None) |
| Minesweeper.Sentence.KnownSafes | Knowledge/minesweeper/minesweeper.py:140-151 | all the cells when the count is zero, otherwise nothing (None) |
| Minesweeper.Sentence.MarkMine | Knowledge/minesweeper/minesweeper.py:153-163 | the cell leaves the sentence and, if it was there, the count drops by one |
| Minesweeper.Sentence.MarkSafe | Knowledge/minesweeper/minesweeper.py:167-175 | the cell leaves the sentence and the count stays |
| Minesweeper.ResolveAgainst | Knowledge/minesweeper/minesweeper.py:8-24 | the inner loop yields fresh, distinct sentences whose values are the differences derived against one sentence |
| Minesweeper.Resolve | Knowledge/minesweeper/minesweeper.py:5-25 | returns fresh, distinct sentences whose values are what resolution derives from the knowledge |
| Minesweeper.MarkSafeCells | Knowledge/minesweeper/minesweeper.py:263-264 | marking each cell of a set safe, in whatever order the set yields them, leaves the sentence with the set removed |
| Minesweeper.MarkMineCells | Knowledge/minesweeper/minesweeper.py:273-274 | marking each cell of a set as a mine, in any order, removes the set and lowers the count by the number removed |
| Minesweeper.MarkSafeEach | Knowledge/minesweeper/minesweeper.py:262-264 | every sentence of the list loses the safe cells, and nothing else changes |
| Minesweeper.MarkMineEach | Knowledge/minesweeper/minesweeper.py:272-274 | every sentence of the list loses the mines and their count |
| Minesweeper.MinesweeperAI.constructor | Knowledge/minesweeper/minesweeper.py:184-198 | no moves, no known safes or mines, and no sentences |
| Minesweeper.MinesweeperAI.MarkMine | Knowledge/minesweeper/minesweeper.py:200-207 | the cell is recorded as a mine and marked in every sentence |
| Minesweeper.MinesweeperAI.MarkSafe | Knowledge/minesweeper/minesweeper.py:209-216 | the cell is recorded as safe and marked in every sentence |
| Minesweeper.MinesweeperAI.AddKnownSafes | Knowledge/minesweeper/minesweeper.py:257-260 | the safe cells of every sentence with count zero are added to the known safes |
| Minesweeper.MinesweeperAI.AddKnownMines | Knowledge/minesweeper/minesweeper.py:267-270 | the cells every sentence reports as mines are added to the known mines |
| Minesweeper.MinesweeperAI.AddSafes | Knowledge/minesweeper/minesweeper.py:259-260 | each cell of the set is added to the known safes |
| Minesweeper.MinesweeperAI.AddMines | Knowledge/minesweeper/minesweeper.py:269-270 | each cell of the set is added to the known mines |
| Minesweeper.MinesweeperAI.DrawConclusions | Knowledge/minesweeper/minesweeper.py:256-274 | the four loops over a list of sentences produce one round of conclusions and leave moves and the knowledge list alone |
| Minesweeper.MinesweeperAI.UnplayedNeighbours | Knowledge/minesweeper/minesweeper.py:238-249 | the board neighbours of the cell that have not been played |
| Minesweeper.MinesweeperAI.RecordMove | Knowledge/minesweeper/minesweeper.py:233-252 | the cell is played and safe, and one fresh sentence over the unplayed neighbours with the count is appended |
| Minesweeper.MinesweeperAI.ConcludeFromResolved | Knowledge/minesweeper/minesweeper.py:254-274 | conclusions drawn from the resolved sentences update safes and mines, and the knowledge base is untouched |
| Minesweeper.MinesweeperAI.Conclude | Knowledge/minesweeper/minesweeper.py:254-294 | conclusions from the resolved sentences and then from the knowledge base, with the sentence list kept |
| Minesweeper.MinesweeperAI.AddKnowledge | Knowledge/minesweeper/minesweeper.py:218-294 | the player's state becomes what `add_knowledge` specifies (whose shape and soundness are proved above), with one fresh sentence appended |
| Minesweeper.MinesweeperAI.MakeSafeMove | Knowledge/minesweeper/minesweeper.py:297-311 | a known-safe cell not yet played, or None exactly when every known-safe cell has been played |
| Minesweeper.Game.constructor | Knowledge/minesweeper/minesweeper.py:32-56 | a board of the given size with mines at exactly the layout's cells, and none found yet |
| Minesweeper.Game.IsMine | Knowledge/minesweeper/minesweeper.py:73-75 | true exactly for the cells with a mine |
| Minesweeper.Game.RowMines | Knowledge/minesweeper/minesweeper.py:89-98 | the inner loop counts the neighbouring mines in one row |
| Minesweeper.Game.NearbyMines | Knowledge/minesweeper/minesweeper.py:77-100 | the number of mines among the cell's neighbours on the board, between 0 and 8 |
| CrosswordProblem.Neighbors | Optimization/crossword/generate.py:193 | the slots other than x whose overlap with x is not None |
| CrosswordAssignment.Get | Optimization/crossword/generate.py:218 | a lookup finds a value exactly when the key is present, and the value is that key's entry |
| CrosswordAssignment.Put | Optimization/crossword/generate.py:350-351 | setting a key adds it to the keys, keeps keys distinct, adds an entry only for a new key, and changes nothing else |
| CrosswordAssignment.PutGet | Optimization/crossword/generate.py:350-351 | after `a[v] = x`, v maps to x and every other key keeps its value |
| CrosswordAssignment.Pop | Optimization/crossword/generate.py:369-375 | popping a key removes exactly that key and keeps the others' entries |
| CrosswordAssignment.PopGet | Optimization/crossword/generate.py:369-375 | after popping v, v is gone and every other key keeps its value |
| CrosswordAssignment.GetEntry | Optimization/crossword/generate.py:218 | with distinct keys, looking up an entry's key gives that entry's value |
| CrosswordAssignment.KeysCard | Optimization/crossword/generate.py:211 | `len` of the dict is its number of keys |
| CrosswordAssignment.ListedCard | Optimization/crossword/generate.py:240-244 | a list of distinct words is as long as its set |
| CrosswordLogic.NodeFilteredOk | Optimization/crossword/generate.py:98-112 | node consistency keeps every slot and exactly the words of the slot's length |
| CrosswordLogic.NodeRemoveStep | Optimization/crossword/generate.py:107-112 | each `remove` made while scanning a copy of the domain takes out exactly the word being looked at |
| CrosswordLogic.RevisionNarrows | Optimization/crossword/generate.py:115-149 | `revise` only removes words, and True leaves x a word |
| CrosswordLogic.RevisionOk | Optimization/crossword/generate.py:115-149 | only x's domain changes, to exactly the words some word of y's domain agrees with at the overlap. The flag is true exactly when an overlap exists and x keeps a word. Length and word-list facts are kept |
| CrosswordLogic.RemoveFirstOk | Optimization/crossword/generate.py:184-187 | `remove` only takes elements away, and a missing element leaves the queue as it is |
| CrosswordLogic.RemoveFirstCount | Optimization/crossword/generate.py:184-187 | `remove` takes out exactly one occurrence of the arc |
| CrosswordLogic.RequeueOk | Optimization/crossword/generate.py:193-201 | the arcs queued after a revision are exactly (z, x) for the neighbours z of x other than y |
| CrosswordLogic.ArcsFromOk | Optimization/crossword/generate.py:166-173 | the inner loop queues exactly the arcs (x, y) to the other slots that overlap x |
| CrosswordLogic.ArcsUpToOk | Optimization/crossword/generate.py:163-173 | after some slots, the queue holds exactly their overlapping arcs |
| CrosswordLogic.AllArcs | Optimization/crossword/generate.py:160-173 | the initial queue is exactly the ordered pairs of distinct, overlapping slots |
| CrosswordLogic.Ac3RunOk | Optimization/crossword/generate.py:178-202 | the AC-3 loop keeps every slot and only removes words |
| CrosswordLogic.Ac3NeverFalse | Optimization/crossword/generate.py:189-192 | the loop never answers False |
| CrosswordLogic.ReviseEachOk | Optimization/crossword/generate.py:248-253 | revising one slot against its neighbours only narrows and keeps the length and word-list facts |
| CrosswordLogic.ReviseAssignedOk | Optimization/crossword/generate.py:247-253 | the revise loop of `consistent` only narrows and keeps the length and word-list facts |
| CrosswordLogic.ConsistentCheckOk | Optimization/crossword/generate.py:224-271 | True only for a dict of words that fit their slots, are distinct and agree where slots cross. The check raises only TypeError, only for a stored domain list, and never for a dict of words. The domains only narrow |
| CrosswordLogic.AllKeysPresent | Optimization/crossword/generate.py:211 | the dict has every slot as a key exactly when it has as many entries as there are slots |
| CrosswordLogic.EverySlotKeyed | Optimization/crossword/generate.py:204-221 | a complete dict has one entry per slot, and as many entries as slots means every slot is present |
| CrosswordLogic.PutWordOk | Optimization/crossword/generate.py:350-351 | assigning a listed word keeps the dict well formed and, if it held only words, still only words |
| CrosswordLogic.ArcsTo | Optimization/crossword/generate.py:355-356 | the arcs handed to `ac3` are exactly (var, n) for the neighbours n |
| CrosswordLogic.CountHolding | Optimization/crossword/generate.py:290-295 | a word's constraint count is at most the number of unassigned neighbours |
| CrosswordLogic.SortByStable | Optimization/crossword/generate.py:299 | the sort is stable: words with equal counts keep their domain order |
| CrosswordLogic.SortBySorted | Optimization/crossword/generate.py:299 | counts never decrease along the sorted list |
| CrosswordLogic.SortByPermutes | Optimization/crossword/generate.py:299 | the sorted list holds the same words, each as often |
| CrosswordLogic.SortByAgree | Optimization/crossword/generate.py:299 | the order depends only on the counts of the words |
| CrosswordLogic.GridShowsLetter | Optimization/crossword/generate.py:28-33 | when no other word writes a different letter there, each letter of each word appears in its cell |
| CrosswordLogic.GridShowsEveryWord | Optimization/crossword/generate.py:20-34 | for a valid solution the grid shows every word in its slot, whatever the order of writing |
| Generate.CrosswordCreator.constructor | Optimization/crossword/generate.py:10-18 | every slot starts with the whole word list |
| Generate.CrosswordCreator.LetterGrid | Optimization/crossword/generate.py:20-34 | a fresh height-by-width grid holding, in each cell, the letter the last word through it writes, or None |
| Generate.CrosswordCreator.WriteWord | Optimization/crossword/generate.py:30-33 | the word's letters land in exactly its slot's cells and every other cell is untouched |
| Generate.CrosswordCreator.EnforceNodeConsistency | Optimization/crossword/generate.py:98-112 | the domains become the node-consistent ones: each slot keeps exactly the words of its length |
| Generate.CrosswordCreator.RemoveMisfits | Optimization/crossword/generate.py:107-112 | the `remove` loop over a copy leaves exactly the words of the slot's length, in order |
| Generate.CrosswordCreator.Candidates | Optimization/crossword/generate.py:133-143 | the candidates are exactly x's words that agree with some word of y at the overlap, and the flag says there is one |
| Generate.CrosswordCreator.MatchesFor | Optimization/crossword/generate.py:137-143 | the words of x that agree with one word of y at the overlap |
| Generate.CrosswordCreator.Revise | Optimization/crossword/generate.py:115-149 | the flag and the new domains are those of a revision, whose properties are proved above |
| Generate.CrosswordCreator.InitialArcs | Optimization/crossword/generate.py:161-173 | the initial queue is every ordered pair of distinct overlapping slots |
| Generate.CrosswordCreator.ArcsOf | Optimization/crossword/generate.py:166-173 | the arcs (x, y) for every other slot y that overlaps x |
| Generate.CrosswordCreator.RequeueArcs | Optimization/crossword/generate.py:193-201 | the queue grows by the arcs (z, x) for the neighbours z of x other than y |
| Generate.CrosswordCreator.ReviseFront | Optimization/crossword/generate.py:178-189 | the front arc and its reverse leave the queue, and x is revised against y |
| Generate.CrosswordCreator.Turn | Optimization/crossword/generate.py:178-201 | one turn of the loop advances the AC-3 run by one step |
| Generate.CrosswordCreator.AC3 | Optimization/crossword/generate.py:152-202 | the answer and the domains are those of the AC-3 run from all arcs or the given ones; the run only narrows and never answers False |
| CrosswordExample.Ac3NotArcConsistent | Optimization/crossword/generate.py:152-202 | on a 2x2 grid with an across and a down slot, the run from all arcs finishes with True and the domains unchanged, yet one slot keeps a word that no word of the other supports: the reverse arc is dropped unrevised and never requeued |
| Generate.CrosswordCreator.AssignmentComplete | Optimization/crossword/generate.py:204-221 | true exactly when every slot is assigned a word |
| Generate.CrosswordCreator.ReviseNeighbors | Optimization/crossword/generate.py:248-253 | revises one slot against its neighbours in order, stopping at the first False |
| Generate.CrosswordCreator.ReviseAssignment | Optimization/crossword/generate.py:247-253 | the revise loop of `consistent` over every assigned slot |
| Generate.CrosswordCreator.AgreeCheck | Optimization/crossword/generate.py:256-269 | true exactly when every two assigned slots that cross carry the same letter there |
| Generate.CrosswordCreator.WordAgrees | Optimization/crossword/generate.py:259-269 | true exactly when one assigned word agrees with every assigned neighbour |
| Generate.CrosswordCreator.LengthCheck | Optimization/crossword/generate.py:230-237 | true exactly when every value's length is its slot's length |
| Generate.CrosswordCreator.Consistent | Optimization/crossword/generate.py:224-271 | the answer (or exception) and the new domains are those of the consistency check, whose meaning is proved above |
| Generate.CrosswordCreator.SelectUnassignedVariable | Optimization/crossword/generate.py:304-332 | None exactly when every slot is assigned. Otherwise the first unassigned slot, in declaration order, with the fewest words and, among those, the most neighbours |
| Generate.CrosswordCreator.MostConstrained | Optimization/crossword/generate.py:314-332 | the loop picks the first slot with the fewest remaining words, breaking ties by more neighbours |
| Generate.CrosswordCreator.OrderDomainValues | Optimization/crossword/generate.py:273-302 | the slot's words, each as often as before, stably sorted by how many unassigned neighbours still hold the same word |
| Generate.CrosswordCreator.RawCounts | Optimization/crossword/generate.py:287-297 | a dict from exactly the domain's words to their constraint counts |
| Generate.CrosswordCreator.CountConstraints | Optimization/crossword/generate.py:290-295 | the number of unassigned neighbours whose domain holds the word |
| Generate.CrosswordCreator.StoreDomains | Optimization/crossword/generate.py:362-363 | each neighbour now maps to its domain list, and every other key keeps its value |
| Generate.CrosswordCreator.DropAll | Optimization/crossword/generate.py:374-375 | the pops succeed exactly when each neighbour is present and not popped before, and then only the neighbours' keys are gone |
| Generate.CrosswordCreator.Backtrack | Optimization/crossword/generate.py:334-378 | a solved result is complete and is either the input or a valid crossword. From a dict of words, the only exception is KeyError. Domains only narrow and lose no solution. None only when no solution that extends the dict has all its words in the starting domains |
| Generate.CrosswordCreator.Choose | Optimization/crossword/generate.py:341-348 | stops exactly when the dict is complete, fuel is spent or no slot is free (KeyError on the None variable). Otherwise it picks the slot `select_unassigned_variable` picks |
| Generate.CrosswordCreator.CandidateWords | Optimization/crossword/generate.py:348 | the words to try, in `order_domain_values` order: the slot's domain, each word as often, all from the word list |
| Generate.CrosswordCreator.TryWord | Optimization/crossword/generate.py:348-375 | one pass of the loop: a solution it returns is complete and valid, and from a dict of words it raises only KeyError and leaves only words. It never ends the loop with None. A pass that goes on leaves a dict whose entries all come from the current one, and then no solution that extends the current dict, with its words in the domains, gives var this word |
| Generate.CrosswordCreator.Undo | Optimization/crossword/generate.py:369-375 | the pops succeed exactly when each popped key is present, and then the neighbours' keys are gone and every other entry is kept; otherwise KeyError |
| Generate.CrosswordCreator.Infer | Optimization/crossword/generate.py:349-363 | the copy gets the word. Recursion follows only on a valid crossword. Domain lists are stored only for the neighbours. The domains only narrow and lose no solution. A rejected copy means no solution that extends the current dict, with its words in the domains, gives var this word |
| Generate.CrosswordCreator.Inference | Optimization/crossword/generate.py:355-363 | AC-3 from the var's arcs narrows the domains without losing a solution, and on success the neighbours' domain lists are stored |
| Generate.CrosswordCreator.Solve | Optimization/crossword/generate.py:90-96 | a solved result is a complete, valid crossword, and the only exception is KeyError. None only when no solution has all its words in the starting domains |
| CrosswordSolutions.FullDomainsViable | Optimization/crossword/generate.py:10-18 | the constructor's domains hold every word of every solution, so from them `solve` answers None only when the puzzle has no solution |
| CrosswordSolutions.RevisionKeeps | Optimization/crossword/generate.py:115-149 | `revise(x, y)` keeps the word a solution gives x, since the solution's word for y supports it, and so answers True whenever x and y overlap |
| CrosswordSolutions.Ac3Keeps | Optimization/crossword/generate.py:152-202 | every solution whose words are in the domains still has them after the `ac3` loop |
| CrosswordSolutions.Ac3KeepsSolutions | Optimization/crossword/generate.py:152-202 | `ac3` loses no solution |
| CrosswordSolutions.ReviseEachKeeps | Optimization/crossword/generate.py:248-253 | while a solution's words are in the domains, revising a slot against its neighbours never answers False and keeps them |
| CrosswordSolutions.ReviseAssignedKeeps | Optimization/crossword/generate.py:247-253 | while a solution's words are in the domains, the revise loop of `consistent` never answers False and keeps them |
| CrosswordSolutions.PartOfSolution | Optimization/crossword/generate.py:224-271 | part of a solution, one entry per slot, passes the length, distinctness and overlap tests of `consistent` |
| CrosswordSolutions.ConsistentKeeps | Optimization/crossword/generate.py:224-271 | `consistent` keeps a solution's words in the domains and says True of every part of it |
| CrosswordSolutions.ConsistentKeepsSolutions | Optimization/crossword/generate.py:224-271 | `consistent` loses no solution |
| CrosswordSolutions.ConsistentRejects | Optimization/crossword/generate.py:351-353 | when `consistent` rejects the copy with var set to a word, no solution with its words in the domains that extends the dict gives var that word |
| CrosswordSolutions.NodeFilteredKeeps | Optimization/crossword/generate.py:98-112 | node consistency loses no solution, since each solution word fits its slot |
| CrosswordSolutions.ExcludesFromSearch | Optimization/crossword/generate.py:364-368 | when the recursive search below the copy finds no solution, no solution with its words in the domains that extends the dict gives var that word |
| CrosswordSolutions.AllExcluded | Optimization/crossword/generate.py:348-378 | when every word of var's domain is ruled out, no solution with its words in the domains extends the dict |
| CrosswordSolutions.NoneViable | Optimization/crossword/generate.py:90-96 | a search from the empty dict that finds nothing, after pruning that lost no solution, means no solution has all its words in the starting domains |

## Where the code and its documentation part

The model follows the code in each of these places.

- `revise` sets its flag on any agreeing pair of words, so True means "x still has a word", not "a word was removed". Consequently `ac3` never answers False (`Ac3NeverFalse`): its test for an empty domain only runs after a True flag.
- The `ac3` loop removes the reverse arc (Y, X) from the queue without revising it, and after a revision it requeues the neighbours of X other than Y. Its docstring promises arc consistency, but the result need not be arc consistent: `CrosswordExample.Ac3NotArcConsistent` gives a two-slot puzzle where `ac3` finishes, changes nothing and leaves a word of one slot with no partner in the other.
- `consistent` is not a pure test. It runs `revise` on every assigned slot, which narrows the domains, and it answers False when a revision leaves a slot no word.
- The search never restores domains after a failed branch. This loses nothing: every revision keeps each word that a solution still in the domains needs, because that solution's neighbouring words support it (`RevisionKeeps`). So `backtrack` answers None only when no solution extends its dict (`Backtrack`, `Solve`).
- `backtrack` stores neighbours' domain lists in the caller's dict. When a later pass of the loop copies that dict, `set(words)` in `consistent` raises TypeError. From a dict of words the model proves this cannot happen, because failed passes pop those entries again.
- The `flag` in `backtrack` stays set after its first successful inference. A later pass then pops neighbours that may be missing and raises KeyError. `Backtrack` and `Solve` model this path as `Failed(KeyError)`.
- `known_mines` and `known_safes` return None, not an empty set, when nothing is known.
- `add_knowledge` draws conclusions from the resolved sentences and then drops them. Its step 5, adding inferred sentences to the knowledge base, never happens.
- The player's test `terminal == True` compares a function with True and never fires.

## Left out

- Optimization/crossword/crossword.py is not part of this model. The puzzle (slots, words, overlaps) is the `Crossword` record. `WellFormed` states what its geometry guarantees, and `neighbors` is `Neighbors`.
- The image output (`save`, PIL), `print`, `main` and the command-line handling of the crossword program: input and output.
- Generate.CrosswordCreator.AC3: a fuel bound on the number of loop turns stands in for termination, which the code does not guarantee; a run that exhausts it ends in OutOfFuel.
- Generate.CrosswordCreator.Backtrack: a fuel bound on the recursion depth, with OutOfFuel when it is spent.
- Iteration over Python sets and dicts goes in the declaration order of the slots. `list(set(candidates))` in `revise` keeps the old domain order, because Python gives no order there.
- Generate.CrosswordCreator.Revise: requires node-consistent domains, so every overlap index is in range. On other domains Python raises IndexError. `solve` always makes the domains node consistent first.
- Generate.CrosswordCreator.LetterGrid: requires a dict of words that fit their slots, the only kind the program renders.
- Minesweeper.Game.constructor: the random mine placement is replaced by a layout parameter.
- `Minesweeper.print`, `Sentence.__str__` and `make_random_move`: output and randomness. `make_random_move` also depends on the hard-coded 56, the number of safe cells of an 8x8 board with 8 mines.
- Minesweeper.Game.Won: a predicate comparing the flagged mines with the mines; it carries no contract.
- Minesweeper.Game.IsMine: requires a cell on the board. Python would index from the end for a negative coordinate and raise IndexError past the edge.
- TicTacToe.MaxValue: requires a finished game or a board with someone to move. On an unfinished board where O has more marks, `result` returns None and the code fails with a TypeError, which the model does not represent.
- TicTacToe.MinValue: requires a finished game or someone to move, for the same reason as MaxValue.
- TicTacToe.MaxValueSearch: requires a finished game or someone to move, for the same reason as MaxValue.
- TicTacToe.MinValueSearch: requires a finished game or someone to move, for the same reason as MaxValue.
- Python integers are unbounded, as Dafny's are, so no overflow is modelled.
