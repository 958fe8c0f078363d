# Snake search engine: a Dafny model

This project models the decision engine of a Battlesnake bot written in Rust.
The engine works in four steps:

- The **board** holds the grid size, the snakes (snake 0 is "me") and the food.
- **`play`** moves one snake by one step. It classifies the target cell against the board before the move. It removes eaten food, drops the tail only on a free cell, and always puts the new head in front.
- **`walk`** builds the game tree to `MAX_DEPTH = 5` plies. The snakes take turns round-robin. A node stops expanding after a death, after running off the grid, or at the depth limit.
- **`score`** rates each edge by its cost plus the minimum or the maximum of the scores below it. The choice is made by the snake that moved *into* the node, not by the snake about to move there. After a move by snake 0, the next snake's replies are combined by min; after a move by any other snake, the replies are combined by max. With two or more snakes, snake 0's own options below the root are therefore combined by max: the engine assumes snake 0 takes its worst reply, a fatal one included (`Minmax.RepliesTakenAtWorst`). This is not a textbook minimax. With one snake, every move is snake 0's (`Minmax.SoloNextIsMe`), so every level is combined by min and the same replies score 0 (`Minmax.SoloRepliesTakenAtBest`).
- **`pick`** then takes the root move with the first strictly smallest score, or `Up` when no move scores below +∞.

Files:

- `ext_int.dfy` (module `ExtInt`) is the score domain: integers extended with -∞ and +∞.
- `board.dfy` (module `SnakeBoard`) covers positions, moves, snakes, the board, and the tree node types.
- `minmax.dfy` (module `Minmax`) covers `play`, the walk, scoring, picking, and one whole decision.

`Board` and `Snake` are owned values in the engine: they are cloned and never shared. Their in-place updates (`remove_food`, `set_snake`, `remove_tail`, `change_head`) are therefore modelled as operations that return the updated value.

Each loop in the engine is a method with the same steps, proved equal to a specification function:

- the cell scan in `get`;
- the search loop in `remove_food`;
- the edge-pushing loop of `walk_inner`;
- the running minimum and maximum of `minimize`, `maximize` and `pick`.

Lemmas then state what the engine promises about those specification functions.

## Model

| member | source | states |
|---|---|---|
| SnakeBoard.Move.Next | src/snake/mod.rs:26-33 | the new cell is at Manhattan distance 1: Up raises y, Down lowers y, Left lowers x, Right raises x, and the other coordinate is kept |
| SnakeBoard.NextOpposite | src/snake/mod.rs:26-33 | Up/Down and Left/Right undo each other, and a move never stays in place |
| SnakeBoard.Snake.RemoveTail | src/snake/mod.rs:92-94 | a non-empty body loses exactly its last segment and keeps the rest as a prefix; an empty body is unchanged |
| SnakeBoard.Snake.ChangeHead | src/snake/mod.rs:80-98 | after `change_head(pos)`, `Head` (the front segment) is `pos`, `Len` is one more, and the old body is the suffix |
| SnakeBoard.StepShiftsBody | src/snake/mod.rs:92-98 | dropping the tail and then adding a head keeps the length, giving `[pos] + body minus last`; the two orders give the same snake |
| SnakeBoard.Board.Classify | src/snake/mod.rs:137-154 | `Off` iff outside 0..width × 0..height; `Food` iff on the grid and in the food list, even when a body also covers it; `SnakeCell(i)` iff on the grid, not food and on some body, with `i` the lowest such index; `Empty` iff on the grid, not food and on no body |
| SnakeBoard.Board.Get | src/snake/mod.rs:137-154 | the early-return scan (bounds, then food, then snakes in order, each body in order) gives exactly `Classify` |
| SnakeBoard.FirstOwner | src/snake/mod.rs:146-152 | the lowest index whose body contains the cell, or the snake count if none does |
| SnakeBoard.IndexOf | src/snake/mod.rs:132 | the position of the first equal entry, or the length if there is none |
| SnakeBoard.Board.RemoveFood | src/snake/mod.rs:131-135 | the board after the search-and-remove loop is the board with `RemoveFirst(food, pos)`, and nothing else changes |
| SnakeBoard.RemoveFirstSpec | src/snake/mod.rs:131-135 | without the cell, food is unchanged; with it, exactly the first occurrence is removed and the rest keep their order; the count drops by 1 iff the cell was present; the multiset loses one copy |
| SnakeBoard.Board.SetSnake | src/snake/mod.rs:156-162 | `SnakeOf(player)` reads back exactly the stored snake; the other snakes, the food and the grid are unchanged |
| SnakeBoard.Board.NextPlayer | src/snake/mod.rs:164-169 | the result is `player+1` when that is a valid index and 0 otherwise, so it is a valid index whenever there is a snake |
| SnakeBoard.AdvanceWraps | src/snake/mod.rs:164-169 | after k ≤ n turns the index has advanced by k, wrapping once past the last snake |
| SnakeBoard.NextPlayerCycle | src/snake/mod.rs:164-169 | taking as many turns as there are snakes comes back to the same player |
| SnakeBoard.MeMovesEachRound | src/snake/mod.rs:60-63 | `IsMe` holds exactly for snake 0, which moves again exactly `n - player` turns after `player` and not before |
| Minmax.Target | src/snake/minmax.rs:116-122 | the mover's new head is one step away from its current head |
| Minmax.Play | src/snake/minmax.rs:115-145 | the grid and the number of snakes are unchanged, and a well-formed board stays well-formed |
| Minmax.PlayOutcome | src/snake/minmax.rs:126-140 | `Off` iff the new head leaves the grid; `Eat` iff it lands on food; `Dead` iff it lands on the grid, not on food, and on any body, the mover's own included; `None` iff the cell is free |
| Minmax.PlayBoard | src/snake/minmax.rs:115-145 | the mover's body becomes `[next(head)]` followed by the old body, minus the last segment only on `None`; other snakes are unchanged; food changes only on `Eat`, by removing the first entry at the new head |
| Minmax.PlayLength | src/snake/minmax.rs:132-143 | the mover's length is unchanged on `None` and one longer otherwise; its head is the target cell |
| Minmax.PlayEat | src/snake/minmax.rs:128-131 | on `Eat`, the food count drops by one and exactly one copy of the target cell leaves the food multiset |
| Minmax.PlayIntoOwnTail | src/snake/minmax.rs:126-139 | the tail is still on the board when the target is classified, so stepping onto one's own tail is `Dead` |
| Minmax.PlayMove | src/snake/minmax.rs:115-145 | the clone-classify-mutate sequence gives exactly `Play` |
| Minmax.Walk | src/snake/minmax.rs:6-8 | the root holds the board, snake 0 to move and outcome `None`, and has four edges |
| Minmax.WalkInner | src/snake/minmax.rs:85-112 | a node keeps its board, player and outcome; it has no edges (`IsLeaf`) exactly when `Prune` holds (Dead, Off, or depth ≥ 5), and four edges otherwise |
| Minmax.Children | src/snake/minmax.rs:96-109 | four edges for Up, Down, Left, Right in that order, each leading to the next player's node |
| Minmax.Child | src/snake/minmax.rs:98-107 | the edge carries its move and leads to a node where the next player moves |
| Minmax.WalkInnerShaped | src/snake/minmax.rs:85-112 | a walked node keeps its board, player and outcome; it has no edges iff it is pruned (Dead, Off, or depth ≥ 5); otherwise it has four edges in the order Up, Down, Left, Right, each to the next player's node that `Play` produces, all the way down |
| Minmax.ChildShaped | src/snake/minmax.rs:97-108 | the edge for move `m` carries `m`, leads to the next player, holds `Play`'s outcome and board, and its subtree has the same shape |
| Minmax.ShapedHeight | src/snake/minmax.rs:85-112 | a tree of this shape is at most `MAX_DEPTH - depth` edges deep |
| Minmax.WalkShape | src/snake/minmax.rs:3-112 | the whole walked tree follows `Play` on every edge, has four ordered edges exactly at unpruned nodes, alternates players round-robin, and is at most 5 plies deep |
| Minmax.BuildNode | src/snake/minmax.rs:89-112 | the recursive walk that pushes edges in a loop builds exactly `WalkInner` |
| Minmax.MyCost | src/snake/minmax.rs:26-33 | snake 0's cost is +∞ exactly for Off and Dead, and never -∞ |
| Minmax.TheirCost | src/snake/minmax.rs:54-61 | another snake's cost is finite and at most 5, and negative exactly for Off and Dead |
| Minmax.EdgeCost | src/snake/minmax.rs:26-82 | the cost charged for an edge is chosen by who moved: for snake 0, +∞ exactly for Off and Dead; for others, finite and negative exactly for Off and Dead; never -∞ |
| Minmax.Score | src/snake/minmax.rs:21-83 | a score is never -∞, so the sums never add opposite infinities |
| Minmax.Minimize | src/snake/minmax.rs:22-48 | never -∞ |
| Minmax.Maximize | src/snake/minmax.rs:50-76 | never -∞ |
| Minmax.MinFrom | src/snake/minmax.rs:40-47 | the running minimum is never -∞ |
| Minmax.MaxFrom | src/snake/minmax.rs:68-75 | the running maximum is never -∞ once an edge has been seen |
| Minmax.MinFromLeast | src/snake/minmax.rs:40-47 | the loop's result is ≤ every `score + cost` seen and equal to one of them; with no edges it is +∞ |
| Minmax.MaxFromGreatest | src/snake/minmax.rs:68-75 | the loop's result is ≥ every `score + cost` seen and equal to one of them; with no edges it is -∞ |
| Minmax.ScoreRules | src/snake/minmax.rs:21-83 | a leaf scores its cost, chosen by who moved; an internal child scores its cost plus the least of its edges' scores (snake 0 moved) or the greatest (anyone else moved) |
| Minmax.RepliesTakenAtWorst | src/snake/minmax.rs:69-82 | after a move by snake 1, snake 0's replies scoring 0 and +∞ are combined by max, so the edge scores +∞ |
| Minmax.SoloRepliesTakenAtBest | src/snake/minmax.rs:22-48 | when snake 0 moved into a node, its replies scoring 0 and +∞ are combined by min, so the edge scores 0 |
| Minmax.SoloNextIsMe | src/snake/mod.rs:164-169 | on a board with one snake, the player to move next is always snake 0 |
| Minmax.ScoreEdge | src/snake/minmax.rs:78-82 | the engine's dispatch gives exactly `Score` |
| Minmax.MinimizeEdge | src/snake/minmax.rs:22-48 | the running-minimum loop gives exactly `Minimize` |
| Minmax.MaximizeEdge | src/snake/minmax.rs:50-76 | the running-maximum loop gives exactly `Maximize` |
| Minmax.Pick | src/snake/minmax.rs:10-19 | the picked move is `Up` or the move of one of the node's edges |
| Minmax.PickFrom | src/snake/minmax.rs:11-17 | the running score is ≤ every score seen so far, and while it is still +∞ the move is still `Up` |
| Minmax.MinIndex | src/snake/minmax.rs:11-17 | the index of the running minimum lies in range, or is -1 when nothing has beaten +∞ |
| Minmax.PickFromIndex | src/snake/minmax.rs:11-18 | the running `(move, score)` pair is the entry at `MinIndex`, or `(Up, +∞)` |
| Minmax.MinIndexSpec | src/snake/minmax.rs:11-17 | -1 only when every score is +∞; otherwise the index holds a finite first minimum, with no greater score anywhere and only strictly greater scores before it |
| Minmax.PickSpec | src/snake/minmax.rs:10-19 | `pick` returns `Up` when every edge scores +∞ (including no edges); otherwise it returns the move of the first edge with the smallest score, which is finite |
| Minmax.PickMove | src/snake/minmax.rs:10-19 | the engine's loop gives exactly `Pick` |
| Minmax.MyDeathScoresInfinity | src/snake/minmax.rs:22-87 | in a walked tree, a move by snake 0 that ends Dead or Off scores +∞ |
| Minmax.PickAvoidsDeath | src/snake/minmax.rs:10-87 | at a node where snake 0 moves and some move scores below +∞, the picked move neither leaves the grid nor hits a body |
| Minmax.WalkPickAvoidsDeath | src/snake/minmax.rs:6-19 | the root's chosen move is not immediately fatal whenever some root move scores below +∞ |
| Minmax.Decide | src/snake/api.rs:30-35 | walking then picking gives exactly `Pick(Walk(board))` |

## Left out

- The HTTP listener, request parsing, the JSON schema and the adapter from requests to `Board` (`src/main.rs`, `src/api.rs`, `src/snake/api.rs`). These are I/O and foreign libraries.
- The allocation counters and the allocator wrapper (`src/stats.rs`, `src/alloc.rs`). These are process-wide instrumentation and foreign calls.
- The `Display` impls for `Board` and `Node` (`src/snake/mod.rs:201-260`). They render text for debugging only.
- The snapshot tests in `src/snake/minmax.rs:147-223`. They write files, and they build boards with `width`/`height` fields and `Snake { me, .. }`, which the structs in `src/snake/mod.rs` do not have.
- The scenario tests and benchmarks in `src/snake/tests.rs`. They write files, and they drive the search through a `minmax::Walker` type and an `Options` depth (tests.rs:3, 41-44, 51), neither of which exists in `src/snake/minmax.rs`.
- `Options.sla` and any time budget (`src/snake/mod.rs:196-199`). The walk stops only at the constant `MAX_DEPTH`. There is no wall-clock cut-off in this code.
- `Kill` and `KillMe` outcomes and head-to-head collisions. `play` never produces them, so `Outcome` has only the four variants it does produce. The cost functions also cover only those four.
- A one-ply "danger" look-ahead penalty. The code has no such term, and the costs modelled are exactly the ones in `minimize` and `maximize`.
- Which player's rule aggregates an internal node. In the code, `minimize` or `maximize` is chosen by the player of the *source* node, the one who made the move. A textbook minimax would choose by the player about to move at the child. The model follows the code.
- `f32` arithmetic. Scores live in the exact extended integers `ExtInt.Ext`, so the model needs no `f32` reasoning. Every finite cost is a small integer, sums over at most five plies are exact in `f32`, and opposite infinities are never added. The model proves that last fact: scores are never -∞.
- `isize`/`usize` overflow of coordinates, indices and depth. Dafny integers are unbounded. On a real board the values stay far below the limits.
- The `Square::Me` arm of `play` (`src/snake/minmax.rs:136`). `get` never returns it, and its outcome (`Dead`) is the same as the snake arm.
- Panics are excluded by preconditions instead of being modelled. `head()` on an empty body and an out-of-range `SnakeID` would panic. The walk, `play` and `Decide` therefore require a well-formed board: at least one snake, each with a non-empty body. `next_player` keeps every id in range after that. The engine calls `head()` only on the snake that moves. The model asks for non-empty bodies even for snakes that never move within the search depth, so a board with such a snake is outside the model, although the engine handles it without a panic.
- In-place mutation and aliasing. Boards and snakes are uniquely owned clones, so updates are modelled as returned values and no sharing is lost.
