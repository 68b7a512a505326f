# NoGo MCTS player, modelled in Dafny

`agent.h` of a NoGo (9 x 9) framework holds the agents that play the game. Its core is `node`.
`node` is a Monte-Carlo Tree Search over boards. It runs N cycles from the current position:

- `select` walks down from the root, taking at each fully expanded, non-terminal node the child
  with the first strictly greatest UCB score.
- `expand` adds one child for the first move, in a shuffled order, that is legal and has no
  child yet.
- `simulate` plays a rollout that always takes the first legal move of one shuffled order. The
  side left to move at the end has lost.
- `update` credits one visit, and a win when the root's side to move won, to every node on the
  path.

`take_action` then answers with the root's child that has the most visits. Around the search
sit the agents:

- `agent` parses `key=value` options out of a whitespace-separated argument string into `meta`.
  Later pairs win. `notify` overwrites one option.
- `player` and `noob_player` refuse a name with any of `[]():; ` and a role other than `black`
  or `white`.
- `noob_player` shuffles its 81 placements and plays the first one that applies.
- `player` runs the search.

The model has six modules:

- `Wrappers`: `Option` and `Result`.
- `Seqs`: the running-maximum scan (`FirstMax`, `ScanMax`) and small sequence facts.
- `Board`: a board with an abstract NoGo rule set. It keeps the set of empty cells and the last
  move. A legal placement fills one empty cell.
- `SearchTree`: the tree as an arena of node records, the root at index 0. It defines a
  well-formed tree and what each search step computes.
- `Mcts`: `simulate` as a loop over boards, and class `Tree`, whose methods are `update`,
  `take_action`, `expand`, `select` and `run_mcts`. `update`, `expand` and `run_mcts` change
  the arena in place; `select` and `take_action` only read it. Beside them sit ghost functions
  that say what one round (`Round`) and N rounds (`Search`) do to a tree, and each method is
  proved equal to its function.
- `Agents`: option parsing, class `Agent`, identity checks, and class `Player` with its two
  `take_action`s. A `Player` holds the `Agent` it is, so the `notify` and `property` it
  inherits are that agent's own methods.

Each random draw the source takes (every `all_moves` call, the noob player's shuffle) is a
parameter here. It is only required to be a permutation.

## Model

| member | source | states |
|---|---|---|
| Seqs.FirstMax | agent.h:127-134 | The index the "strictly greater replaces the best" scan ends on: every element is at most the element there, and every earlier element is strictly below it |
| Seqs.ScanMax | agent.h:51-60 | The scan loop, started from a floor below every element, returns exactly FirstMax |
| Seqs.ElemsBound | agent.h:174-179 | Helper of Board.ShuffleDistinct, a generic sequence fact rather than a model of `all_moves`: a sequence holds at most as many distinct elements as its length |
| Seqs.ElemsWithout | agent.h:174-179 | Helper of Board.ShuffleDistinct, a generic sequence fact: dropping a repeated element keeps the set of elements |
| Seqs.FullElemsDistinct | agent.h:174-179 | Helper of Board.ShuffleDistinct, a generic sequence fact: a sequence with as many distinct elements as its length has no repetition |
| Board.Opponent | agent.h:109 | The colour it returns differs from its argument |
| Board.Turn | agent.h:109 | The colour to move on a board, as the rules give it (`who_take_turns`); the definition that Winner, Simulate, Round, Tree.Update and IsDecision state their colours against |
| Board.Legal | agent.h:81 | `place` answers `legal`: the definition the legality contracts refer to, characterised by LegalCell |
| Board.LegalCell | agent.h:81 | A cell is legal exactly when it is empty and the rules allow the mover a stone there |
| Board.PlaceStone | agent.h:81 | A successful placement records the cell as the last move and fills exactly one empty cell |
| Board.IsShuffle | agent.h:174-179 | `all_moves`: the shuffle holds exactly the 81 cells 0..80, 81 entries long; ShuffleDistinct and NoneLegalInShuffle give its consequences |
| Board.CellsBelowCard | agent.h:176 | Helper of Board.ShuffleDistinct: the cells pushed by the loop `i < n` are exactly those below n, n of them |
| Board.ShuffleDistinct | agent.h:174-179 | A shuffle holds each of the 81 cells exactly once: no cell is repeated |
| Board.CountLegal | agent.h:147-152 | The number of legal cells among the first n, counted in cell order; never more than n |
| Board.LegalCount | agent.h:146-152 | `is_selectable`'s count of legal cells over 0..80; never more than 81 |
| Board.FirstOpen | agent.h:74-86 | The first position of the order whose cell is unclaimed and legal; every earlier cell is claimed or illegal; None means every cell is claimed or illegal |
| Board.LegalCountIsCard | agent.h:146-152 | The loop counting legal cells over 0..80 yields the number of legal cells |
| Board.LegalCountPositive | agent.h:146-154 | A board with a legal cell has a positive legal count, so it is not a leaf |
| Board.NoneLegalInShuffle | agent.h:174-179 | A shuffle holds every cell, so when none of its cells is legal, no cell is legal |
| SearchTree.MovesOf | agent.h:76-77 | The last moves of the listed nodes, position by position |
| SearchTree.Fresh | agent.h:23-24 | A fresh tree: the root alone, on the given board, with no wins, no visits, no children and no parent; FreshRoot gives its properties |
| SearchTree.FreshRoot | agent.h:23-24 | A fresh tree is well-formed and needs no visits for its scores (it is a single node); its root has no child, so it is not selectable and select returns the root alone |
| SearchTree.ChildMoveSet | agent.h:74-84 | A node's child moves are legal cells and pairwise distinct, so they number exactly its children |
| SearchTree.ChildrenWithinLegal | agent.h:74-84 | A node never has more children than legal cells |
| SearchTree.ExpandIndex | agent.h:74-86 | The position of the shuffle `expand` stops at: its cell has no child yet and is legal, and every earlier cell has a child or is illegal; None when every cell of the shuffle has a child or is illegal |
| SearchTree.CoveredIffFull | agent.h:155 | Children as many as legal cells holds exactly when every legal cell has a child |
| SearchTree.IsSelectable | agent.h:146-160 | A selectable node has a child for `select` to step to |
| SearchTree.ChildrenDistinct | agent.h:74-84 | No two children of a node are the same node, since their moves differ |
| SearchTree.SelectableIffExpanded | agent.h:146-160 | `is_selectable` holds exactly when some cell is legal and every legal cell already has a child |
| SearchTree.ExpandExhausted | agent.h:71-88 | Over a shuffle of all cells, expand finds nothing exactly when the node has as many children as legal cells |
| SearchTree.Grow | agent.h:83 | Adding a child appends one node and one child index; all boards and visit counts stay, and every other node is unchanged |
| SearchTree.StatsKeepWellFormed | agent.h:115-121 | Changing only statistics keeps the tree well-formed |
| SearchTree.GrowWellFormed | agent.h:81-84 | Adding the child for a legal, unclaimed cell keeps the tree well-formed: parent links, child order, legal moves, distinct child moves |
| SearchTree.Credited | agent.h:115-121 | `update` on one node: board, children and parent stay; visits grow by the node's occurrences on the path, and wins by as many exactly when the root's colour won |
| SearchTree.Credit | agent.h:115-121 | `update` over the whole tree: every node is credited as often as it occurs on the path |
| SearchTree.CreditStep | agent.h:116-120 | Crediting one more node of the path credits that node once more and leaves every other node as it was |
| SearchTree.CreditNewNode | agent.h:115-121 | A node with no visits that occurs once on a path ends with exactly one visit |
| SearchTree.CreditRoot | agent.h:115-121 | Updating a path that starts at the root and repeats no node gives the root exactly one more visit, on the same board with the same children |
| SearchTree.CreditWellFormed | agent.h:115-121 | `update` changes only statistics, so the tree stays well-formed |
| SearchTree.ScoresOf | agent.h:54-55 | The UCB score of each listed child, from its wins, its visits and its parent's visits |
| SearchTree.VisitsOf | agent.h:129-131 | The visit count of each listed child, in child order |
| SearchTree.SelectAdvances | agent.h:52-62 | From a selectable node, the walk moves to the child with the first strictly greatest score; that child is a later node, so the walk terminates |
| SearchTree.SelectStopsAtRoot | agent.h:48-52 | The path select returns is the root alone exactly when the root is not selectable |
| SearchTree.SelectFrom | agent.h:52-63 | Walking on from a prefix of the walk ends on a path whose every step takes the first-greatest-score child of a selectable node and whose last node is not selectable |
| SearchTree.SelectPath | agent.h:46-65 | The path `select` returns from the root has exactly that shape |
| SearchTree.IsSelectPath | agent.h:46-65 | The shape of `select`'s answer, stated without running it: starts at the root, each step goes to the first-greatest-score child of a selectable node, and the last node is not selectable; SelectPathUnique ties it to SelectPath |
| SearchTree.SelectPrefixAgree | agent.h:52-62 | Two walks of that shape agree on every position both have, since each step is determined by the node before it |
| SearchTree.SelectPathLongest | agent.h:52-63 | No walk of that shape is longer than a finished one: the walk stops at the first node that is not selectable |
| SearchTree.SelectPathUnique | agent.h:46-65 | A path has `select`'s shape exactly when it is the path SelectPath computes, so the answer is unique |
| SearchTree.Descent | agent.h:31-34 | Select, then expand the path's last node: the tree gains at most one node, and the path is select's path with one node appended exactly when the tree grew |
| SearchTree.DescentShape | agent.h:31-34 | After select and expand the tree is well-formed, the path runs strictly down from the root and ends on the new node, no visit count changes, and a root with a legal cell has a child |
| SearchTree.SelectPathDown | agent.h:52-62 | Each node of select's path after the root is a child of the node before it |
| SearchTree.ChildPathGrow | agent.h:81-84 | Appending the new child of the path's last node keeps every step of the path a parent-to-child step |
| SearchTree.NewNodeUnvisited | agent.h:81-83 | The node expand adds starts with no visits |
| SearchTree.DescentDown | agent.h:31-34 | Each node of the round's path is a child of the one before, and a root with a legal cell puts one of its children on the path |
| SearchTree.DescentChildVisits | agent.h:81-84 | Select and expand leave the sum of the root's children's visits unchanged, since a new child starts unvisited |
| SearchTree.RootChildOnPath | agent.h:52-62 | On a path that runs down from the root, the only child of the root is the path's second node |
| SearchTree.CreditVisitSum | agent.h:115-121 | Crediting a path adds, to the visits of a list of nodes, how often the path holds them |
| SearchTree.CreditOneRootChild | agent.h:115-121 | Updating a path that runs down from the root adds exactly one visit to the root's children in all |
| SearchTree.IsDecision | agent.h:126-139 | `take_action`'s answer on a tree: Null exactly when the root has no children; otherwise a placement in the root's colour to move on the move of one of the root's children (the first with the most visits) |
| SearchTree.DecisionIsLegal | agent.h:126-139 | take_action's answer is a placement exactly when the root has children; it is then a legal cell of the root, in the root's colour to move |
| SearchTree.RoundKeepsVisited | agent.h:30-35 | After a round that updates a path holding the new node, every node has been visited, so every UCB score is defined |
| SearchTree.CreditAfterDescent | agent.h:30-35 | Updating the path select and expand produced keeps the tree well-formed and every node visited, and gives the root one more visit on the same board with the same children |
| Mcts.FirstLegal | agent.h:100-104 | The position of the shuffle the rollout places at: its cell is legal and every earlier cell is illegal; None when no cell of the shuffle is legal |
| Mcts.PlayFirst | agent.h:100-104 | One rollout pass finds nothing exactly when no cell of the order is legal; otherwise the board has exactly one empty cell fewer |
| Mcts.Playout | agent.h:98-107 | The rollout ends on a board where no cell of the order is legal |
| Mcts.PlayoutEndsTerminal | agent.h:93-107 | Over a shuffle of all cells, the rollout ends with no legal cell at all |
| Mcts.Winner | agent.h:109 | The winner is not the colour to move at the end |
| Mcts.PlaceFirstLegal | agent.h:100-104 | The scan of the order places exactly the stone PlayFirst describes |
| Mcts.Simulate | agent.h:93-110 | The rollout loop returns the winner of the rollout's final board |
| Mcts.Round | agent.h:30-36 | One round (select, expand, simulate from the path's last node with the rollout order, update with its winner) adds at most one node |
| Mcts.RoundNewNode | agent.h:30-36 | The node a round adds ends the round with exactly one visit, the one its own rollout gave it |
| Mcts.RoundPreserves | agent.h:30-36 | A round keeps the tree well-formed and every node visited, keeps the root's board, gives the root exactly one more visit, and leaves a root with a legal cell with a child |
| Mcts.RoundChildVisits | agent.h:30-36 | When the root has a legal cell, a round adds exactly one visit to the root's children in all |
| Mcts.Search | agent.h:29-37 | N rounds, each with its expand and rollout shuffles, keep the tree well-formed and every node visited |
| Mcts.SearchUnfold | agent.h:30-36 | A search of at least one round is that round, then the search over the remaining rounds |
| Mcts.SearchRoot | agent.h:29-37 | N rounds give the root exactly N more visits on the same board, and a child once a round has run on a root with a legal cell |
| Mcts.SearchChildVisits | agent.h:29-37 | After N rounds on a root with a legal cell, the root's children's visits add up to N more than before |
| Mcts.SearchNoLegal | agent.h:29-37 | A search from a root with no legal cell never gives it a child |
| Mcts.FreshSearch | agent.h:256 | From a fresh root, N rounds give the root N visits; its children hold all N when a cell is legal, and it has a child exactly when N > 0 and a cell is legal |
| Mcts.Tree.constructor | agent.h:23-24 | A fresh root: no statistics, no children, no parent; the tree is well-formed |
| Mcts.Tree.Update | agent.h:115-121 | Each node gains as many visits as it occurs on the path, and as many wins when the winner is the root's colour to move; nothing else changes, and the tree stays well-formed |
| Mcts.Tree.TakeAction | agent.h:126-139 | Null when the root has no children; otherwise the move of the first child with the most visits, in the root's colour to move |
| Mcts.Tree.HasChildFor | agent.h:75-80 | The inner scan reports true exactly when some child of the node was made by that move |
| Mcts.Tree.AddChild | agent.h:81-84 | Appends the child for the move, returns its index, and keeps the tree well-formed |
| Mcts.Tree.Expand | agent.h:71-88 | Either adds the child for the first legal, unclaimed cell of the order and returns it, or returns the node itself with the tree unchanged; the tree stays well-formed |
| Mcts.Tree.Select | agent.h:46-65 | Returns SelectPath: the path that starts at the root, follows first-greatest-score children, and stops at the first node that is not selectable |
| Mcts.Tree.Descend | agent.h:31-34 | The path and the tree are exactly Descent's: select's path, expand's tree, and the new node appended to the path when expand added one; the tree stays well-formed |
| Mcts.Tree.Cycle | agent.h:30-36 | The tree becomes exactly Round of the old tree with the two orders, and stays well-formed and visited |
| Mcts.Tree.RunMcts | agent.h:29-38 | The tree becomes exactly Search of the old tree with the N rounds' shuffles, and the answer is take_action's decision on it |
| Agents.WordLength | agent.h:191 | The length of the leading run of non-space characters; it stops at a space or at the end |
| Agents.Words | agent.h:190-191 | Every token `>>` reads is non-empty and holds no white space |
| Agents.WordsJoin | agent.h:190-191 | Reading `>>` tokens from words joined by blanks gives back exactly those words |
| Agents.WordsCons | agent.h:190-191 | A word, a blank and a rest read as the word followed by the rest's tokens |
| Agents.FindEq | agent.h:192-193 | The position of the first '=', or none when the string has none |
| Agents.KeyOf | agent.h:192 | The key is a prefix of the token and holds no '=' |
| Agents.ValueOf | agent.h:193 | The value is shorter than the token when it holds '=', and the whole token when it does not |
| Agents.KeyValueOfPair | agent.h:192-193 | A `key=value` token with no '=' in the key splits back into that key and value |
| Agents.SplitOnEq | agent.h:192-193 | A token with '=' is its key, '=' and its value, and the key has no '='; without '=', key and value are both the whole token |
| Agents.Record | agent.h:191-195 | Storing pairs never removes an option |
| Agents.RecordSnoc | agent.h:194 | Storing one more pair sets its key to its value |
| Agents.RecordLast | agent.h:191-195 | A key holds the value of the last pair that names it |
| Agents.RecordUntouched | agent.h:191-195 | A key that no pair names keeps its earlier value or absence |
| Agents.RecordSplit | agent.h:191-195 | Storing a + b is storing a, then b |
| Agents.Defaults | agent.h:190 | The "name=<name> role=<role> " prefix; AgentDefaults is its "unknown"/"unknown" instance (agent.h:190) and PlayerDefaults its "random"/"unknown" one (agent.h:241); DefaultWords gives the tokens it reads as |
| Agents.DefaultWords | agent.h:190 | The default prefix reads as its two pairs, then the argument's tokens |
| Agents.LastNamed | agent.h:191-195 | The position of a pair naming the key, with no later pair naming it |
| Agents.LastNamedBelow | agent.h:191-195 | The same among the first n pairs |
| Agents.OptionNamed | agent.h:191-195 | After the default pairs and ws, a key some word of ws names holds the value of the last such word |
| Agents.OptionUnnamed | agent.h:190-195 | After the default pairs and ws, a key no word of ws names holds its default, or is as it was before for keys other than name and role |
| Agents.DefaultPairs | agent.h:190 | Storing the name pair and then the role pair sets both and leaves every other key as it was |
| Agents.OptionAfterDefaults | agent.h:190-195 | After the name pair, the role pair and ws: a key named in ws holds its last value; otherwise name and role hold the defaults and other keys are unchanged |
| Agents.IdentityKept | agent.h:190 | Options that start with a name pair and a role pair always hold both keys |
| Agents.AgentMeta | agent.h:189-196 | The options an agent is built with always hold a name and a role |
| Agents.AgentOption | agent.h:189-196 | An agent option is the last value given for it in the arguments; otherwise "unknown" for name and role, and absent for any other key |
| Agents.Agent.constructor | agent.h:189-196 | The parsing loop leaves exactly the options AgentOption describes |
| Agents.Agent.Notify | agent.h:205 | The message's key now maps to its value; every other option is unchanged |
| Agents.Agent.Property | agent.h:204-207 | Present exactly when the key is an option, with its value; absent stands for `at`'s exception |
| Agents.Agent.Name | agent.h:206 | `name()`: the "name" option exactly when it is present; absent only if it was never set |
| Agents.Agent.Role | agent.h:207 | `role()`: the "role" option exactly when it is present; absent only if it was never set |
| Agents.NotifyThenProperty | agent.h:204-205 | After `notify("key=value")` the key reads back as value, and every other key reads as before |
| Agents.CheckIdentity | agent.h:243-248 | A forbidden character in the name refuses the name first; otherwise "black" and "white" give the colour, and any other role is refused |
| Agents.PlayerMeta | agent.h:241 | The options a player is built with always hold a name and a role |
| Agents.PlayerMetaUnfold | agent.h:241 | A player's options are the agent's default pairs, then the player's default pairs, then the arguments' tokens, stored in that order |
| Agents.PlayerOption | agent.h:241 | A player option is the last value given for it in the arguments; otherwise "random" for name, "unknown" for role, and absent for any other key |
| Agents.Space | agent.h:249-250 | 81 placements, the one at cell c being a stone of the player's colour on c |
| Agents.Applies | agent.h:282-283 | `apply` on a copy answers `legal`: only a placement on an empty cell can apply, with the board's rules deciding |
| Agents.FirstApplicable | agent.h:281-286 | The first position whose action applies; every earlier one does not; None when none applies |
| Agents.NoobChoice | agent.h:281-286 | A pass exactly when no action of the order applies; otherwise an action of the order that applies |
| Agents.NoobChoiceSound | agent.h:279-287 | For every shuffle of the space: a pass exactly when no stone of the player's colour applies anywhere, otherwise a stone of that colour that applies |
| Agents.Player.constructor | agent.h:241-251 | The agent with the options, the colour, and the space of that colour |
| Agents.Player.NoobAction | agent.h:279-287 | Replaces the space by its shuffle, keeping it a permutation of the 81 placements, and answers the noob choice for that order |
| Agents.Player.SearchAction | agent.h:253-257 | The answer is the decision of the tree N rounds build from a fresh root (FreshSearch); it is a pass exactly when N is 0 or the state has no legal cell, and otherwise a legal stone of the colour to move; the root's children hold N visits when a cell is legal |
| Agents.NewPlayer | agent.h:225-251 | A "seed" option that cannot be converted to a number fails first; otherwise builds the player with the parsed options when name and role pass the checks, and returns the error for the first check that fails when they do not |
| Agents.NoRoleRefused | agent.h:241-248 | Arguments that never name a role leave it "unknown", and the player is refused |

## Left out

- `board.h` and `action.h` are not part of this model. The NoGo rules are an abstract record:
  the legality of a stone, the next state, the colour to move, and whether a prepared placement
  applies. Two assumptions are added. A stone only goes on an empty cell. A placement that is
  not legal leaves the board unchanged: `expand` copies the board once (agent.h:72) and reuses
  that copy after failed `place` calls (agent.h:81), and `simulate` does the same (agent.h:94,
  agent.h:101). `PlaceStone` returns None for such a placement and the caller keeps its board.
- `ucb_score`'s floating-point formula (`win/visit + sqrt(2) * sqrt(log(parent visit)/visit)`)
  is an abstract score. It is defined once child and parent have been visited, and then it is
  non-negative like the formula. So `select`'s "-1" floor always yields a child. Two cases are
  not modelled, and both are unreachable with non-negative scores. One is the stale `max_node`,
  where no child beats -1. The other raises `count` (agent.h:47, agent.h:56): a score beats the
  running maximum while being below 0. `count` is never read, so it has no observable effect.
- Agents.NewPlayer: `std::stod`, which converts the "seed" option, is not modelled. Whether it
  accepts a string is a given predicate. Both of its exceptions (no number, or a number out of
  range) become one `InvalidSeed` error. The `int` cast of a value out of `int`'s range is not
  modelled. Seeding the engine is left out with the rest of the randomness.
- Randomness is left out:
  - `std::shuffle`, `std::default_random_engine` and the `seed` option of `random_agent` become
    given permutations;
  - `player::take_action` receives N pairs of shuffles, one pair per round (expand's order, then the rollout's);
  - `NoobAction` receives the shuffled space.
- Agents.Player.SearchAction: N is a parameter. The source first sets N to 200 and then
  overwrites it from `meta["N"]`. It converts that option with `std::stod`, and `operator[]`
  inserts an empty "N" when absent. That conversion and its exceptions are not modelled.
- The `node*` links and child vectors are modelled as an arena with indices. The source never
  grows the child vector of a node whose children already have children, because such a node
  is fully expanded.
- Visit counts are unbounded naturals. `take_action`'s cast of `size_t` to `int` is not
  modelled.
- The episode hooks `open_episode` and `close_episode`, `check_for_win`, and the base
  `agent::take_action` are not modelled. They only return a null action or `false`. The
  `<fstream>` include is unused.
- `noob_player` and `player` share one `Player` class and one `NewPlayer`. Their constructors
  are identical.
