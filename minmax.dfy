/**
 * The search: the one-move transition `Play`, the tree walk up to
 * `MAX_DEPTH` plies, the asymmetric minimax `Score`, and `Pick`, which
 * chooses the root move with the lowest score.
 *
 * Each operation is given as a function that specifies it; where the engine
 * computes it with a loop, a method doing the same steps is proved equal to
 * that function.
 */
module Minmax {
  import opened ExtInt
  import opened SnakeBoard

  /** Plies below the root that the walk expands. */
  const MAX_DEPTH: nat := 5

  // ---------------------------------------------------------------------------
  // One move
  // ---------------------------------------------------------------------------

  /** The cell the mover's head moves into. */
  function Target(board: Board, m: Move, player: SnakeId): (r: Pos)
    requires player.idx < |board.snakes| && board.SnakeOf(player).Len() > 0
    ensures Distance(board.SnakeOf(player).Head(), r) == 1
  {
    m.Next(board.SnakeOf(player).Head())
  }

  /**
   * Moves `player` one step in direction `m` on a copy of `board`: the target
   * cell is classified against the board before the move, eaten food is
   * removed, the tail is dropped only on an empty cell, and the new head is
   * always put in front.
   */
  function Play(board: Board, m: Move, player: SnakeId): (res: (Outcome, Board))
    requires player.idx < |board.snakes| && board.SnakeOf(player).Len() > 0
    ensures res.1.game == board.game && |res.1.snakes| == |board.snakes|
    ensures board.WellFormed() ==> res.1.WellFormed()
  {
    var snake := board.SnakeOf(player);
    var nextHead := m.Next(snake.Head());
    match board.Classify(nextHead)
    case Off => (Outcome.Off, board.SetSnake(player, snake.ChangeHead(nextHead)))
    case Food =>
      var eaten := board.(food := RemoveFirst(board.food, nextHead));
      (Eat, eaten.SetSnake(player, snake.ChangeHead(nextHead)))
    case Empty => (None, board.SetSnake(player, snake.RemoveTail().ChangeHead(nextHead)))
    case SnakeCell(_) => (Dead, board.SetSnake(player, snake.ChangeHead(nextHead)))
  }

  /**
   * The outcome of a move: `Off` exactly when the new head leaves the grid,
   * `Eat` on food, `Dead` on any snake's body (the mover's own included) and
   * `None` on a free cell.
   */
  lemma PlayOutcome(board: Board, m: Move, player: SnakeId)
    requires player.idx < |board.snakes| && board.SnakeOf(player).Len() > 0
    ensures var result := Play(board, m, player).0; var head := Target(board, m, player);
            && (result == Outcome.Off <==> !board.game.Contains(head))
            && (result == Eat <==> board.game.Contains(head) && head in board.food)
            && (result == Dead <==>
                  board.game.Contains(head) && head !in board.food &&
                  exists i :: 0 <= i < |board.snakes| && head in board.snakes[i].body)
            && (result == None <==>
                  board.game.Contains(head) && head !in board.food &&
                  forall i :: 0 <= i < |board.snakes| ==> head !in board.snakes[i].body)
  {
  }

  /**
   * The board after a move: the mover's body gains the new head and loses its
   * tail only on a free cell; the other snakes and the grid stay; the food
   * changes only by eating the entry under the new head.
   */
  lemma PlayBoard(board: Board, m: Move, player: SnakeId)
    requires player.idx < |board.snakes| && board.SnakeOf(player).Len() > 0
    ensures var (result, next) := Play(board, m, player);
            var body := board.SnakeOf(player).body;
            && next.SnakeOf(player).body ==
                 [Target(board, m, player)] + (if result == None then body[..|body| - 1] else body)
            && (forall i :: 0 <= i < |board.snakes| && i != player.idx ==> next.snakes[i] == board.snakes[i])
            && next.food == if result == Eat then RemoveFirst(board.food, Target(board, m, player)) else board.food
  {
  }

  /** The transition as the engine runs it: clone, classify, then update the copies. */
  method PlayMove(board: Board, m: Move, player: SnakeId) returns (result: Outcome, nextBoard: Board)
    requires player.idx < |board.snakes| && board.SnakeOf(player).Len() > 0
    ensures (result, nextBoard) == Play(board, m, player)
  {
    var head := board.SnakeOf(player).Head();
    var nextHead := match m
      case Up => (head.0, head.1 + 1)
      case Down => (head.0, head.1 - 1)
      case Left => (head.0 - 1, head.1)
      case Right => (head.0 + 1, head.1);
    assert nextHead == Target(board, m, player);
    nextBoard := board;
    var nextSnake := nextBoard.SnakeOf(player);
    var square := nextBoard.Get(nextHead);
    match square {
      case Off =>
        result := Outcome.Off;
      case Food =>
        nextBoard := nextBoard.RemoveFood(nextHead);
        result := Eat;
      case Empty =>
        nextSnake := nextSnake.RemoveTail();
        result := None;
      case SnakeCell(_) =>
        result := Dead;
    }
    nextSnake := nextSnake.ChangeHead(nextHead);
    nextBoard := nextBoard.SetSnake(player, nextSnake);
  }

  /** How the mover's length changes: unchanged on an empty cell, one longer otherwise. */
  lemma PlayLength(board: Board, m: Move, player: SnakeId)
    requires player.idx < |board.snakes| && board.SnakeOf(player).Len() > 0
    ensures var (result, next) := Play(board, m, player);
            next.SnakeOf(player).Len() ==
              if result == None then board.SnakeOf(player).Len() else board.SnakeOf(player).Len() + 1
    ensures Play(board, m, player).1.SnakeOf(player).Head() == Target(board, m, player)
  {
  }

  /** Eating removes exactly one food entry, the one under the new head. */
  lemma PlayEat(board: Board, m: Move, player: SnakeId)
    requires player.idx < |board.snakes| && board.SnakeOf(player).Len() > 0
    requires Play(board, m, player).0 == Eat
    ensures var next := Play(board, m, player).1;
            |next.food| == |board.food| - 1 &&
            multiset(next.food) == multiset(board.food) - multiset{Target(board, m, player)}
  {
    RemoveFirstSpec(board.food, Target(board, m, player));
  }

  /** The mover's own tail is still on the board when it is classified, so running into it kills. */
  lemma PlayIntoOwnTail(board: Board, m: Move, player: SnakeId)
    requires player.idx < |board.snakes| && board.SnakeOf(player).Len() > 0
    requires var body := board.SnakeOf(player).body; Target(board, m, player) == body[|body| - 1]
    requires board.game.Contains(Target(board, m, player)) && Target(board, m, player) !in board.food
    ensures Play(board, m, player).0 == Dead
  {
    var body := board.SnakeOf(player).body;
    assert Target(board, m, player) in board.snakes[player.idx].body;
  }

  // ---------------------------------------------------------------------------
  // The walk
  // ---------------------------------------------------------------------------

  /** Stop expanding below a death or at the depth limit. */
  predicate Prune(result: Outcome, depth: nat) {
    result == Dead || result == Outcome.Off || depth >= MAX_DEPTH
  }

  /** The whole search tree from `board`: snake 0 moves first. */
  function Walk(board: Board): (root: Node)
    requires board.WellFormed()
    ensures root.board == board && root.player == SnakeId(0) && root.result == None
    ensures |root.edges| == 4
  {
    WalkInner(None, board, SnakeId(0), 0)
  }

  /** The node reached with `result`, with `player` to move, expanded unless pruned. */
  function WalkInner(result: Outcome, board: Board, player: SnakeId, depth: nat): (n: Node)
    requires board.WellFormed() && player.idx < |board.snakes|
    ensures n.board == board && n.player == player && n.result == result
    ensures n.IsLeaf() <==> Prune(result, depth)
    ensures !n.IsLeaf() ==> |n.edges| == 4
    decreases MAX_DEPTH - depth, 2
  {
    if Prune(result, depth) then Node(board, [], player, result)
    else Node(board, Children(board, player, depth), player, result)
  }

  /** One edge per move, in the order Up, Down, Left, Right. */
  function Children(board: Board, player: SnakeId, depth: nat): (es: seq<Edge>)
    requires board.WellFormed() && player.idx < |board.snakes| && depth < MAX_DEPTH
    ensures |es| == 4
    ensures forall j :: 0 <= j < 4 ==> es[j].moved == AllMoves[j] && es[j].next.player == board.NextPlayer(player)
    decreases MAX_DEPTH - depth, 1
  {
    seq(4, j requires 0 <= j < 4 => Child(board, player, depth, AllMoves[j]))
  }

  /** The edge for move `m`: the move, and the walked node of its outcome with the next player to move. */
  function Child(board: Board, player: SnakeId, depth: nat, m: Move): (e: Edge)
    requires board.WellFormed() && player.idx < |board.snakes| && depth < MAX_DEPTH
    ensures e.moved == m && e.next.player == board.NextPlayer(player)
    decreases MAX_DEPTH - depth, 0
  {
    var (result, next) := Play(board, m, player);
    Edge(WalkInner(result, next, board.NextPlayer(player), depth + 1), m)
  }

  /**
   * The shape of what the walk builds at `depth`: a node has no edges exactly
   * when it is pruned, and otherwise one edge per move in the order Up, Down,
   * Left, Right, each leading to a node where the next player moves.
   */
  ghost predicate Shaped(n: Node, depth: nat)
    decreases n
  {
    && (n.IsLeaf() <==> Prune(n.result, depth))
    && (!n.IsLeaf() ==>
          && |n.edges| == 4
          && forall j :: 0 <= j < 4 ==>
               && n.edges[j].moved == AllMoves[j]
               && n.edges[j].next.player == n.board.NextPlayer(n.player)
               && Shaped(n.edges[j].next, depth + 1))
  }

  /** Every edge below `n` leads to the outcome and board that `Play` gives for its move. */
  ghost predicate Follows(n: Node)
    decreases n
  {
    && n.board.WellFormed()
    && n.player.idx < |n.board.snakes|
    && forall j :: 0 <= j < |n.edges| ==>
         && (n.edges[j].next.result, n.edges[j].next.board) == Play(n.board, n.edges[j].moved, n.player)
         && Follows(n.edges[j].next)
  }

  /** No path below `n` is longer than `h` edges. */
  ghost predicate HeightAtMost(n: Node, h: nat)
    decreases n
  {
    n.IsLeaf() || (h > 0 && forall j :: 0 <= j < |n.edges| ==> HeightAtMost(n.edges[j].next, h - 1))
  }

  lemma {:induction false} WalkInnerShaped(result: Outcome, board: Board, player: SnakeId, depth: nat)
    requires board.WellFormed() && player.idx < |board.snakes|
    ensures var n := WalkInner(result, board, player, depth);
            n.board == board && n.player == player && n.result == result && Shaped(n, depth) && Follows(n)
    decreases MAX_DEPTH - depth, 1
  {
    if !Prune(result, depth) {
      var n := WalkInner(result, board, player, depth);
      forall j | 0 <= j < 4
        ensures n.edges[j].moved == AllMoves[j]
        ensures n.edges[j].next.player == board.NextPlayer(player)
        ensures (n.edges[j].next.result, n.edges[j].next.board) == Play(board, AllMoves[j], player)
        ensures Shaped(n.edges[j].next, depth + 1) && Follows(n.edges[j].next)
      {
        ChildShaped(board, player, depth, AllMoves[j]);
      }
    }
  }

  lemma {:induction false} ChildShaped(board: Board, player: SnakeId, depth: nat, m: Move)
    requires board.WellFormed() && player.idx < |board.snakes| && depth < MAX_DEPTH
    ensures var e := Child(board, player, depth, m);
            e.moved == m && e.next.player == board.NextPlayer(player) &&
            (e.next.result, e.next.board) == Play(board, m, player) &&
            Shaped(e.next, depth + 1) && Follows(e.next)
    decreases MAX_DEPTH - depth, 0
  {
    var (r, next) := Play(board, m, player);
    WalkInnerShaped(r, next, board.NextPlayer(player), depth + 1);
  }

  lemma {:induction false} ShapedHeight(n: Node, depth: nat)
    requires Shaped(n, depth) && depth <= MAX_DEPTH
    ensures HeightAtMost(n, MAX_DEPTH - depth)
    decreases n
  {
    if !n.IsLeaf() {
      forall j | 0 <= j < |n.edges|
        ensures HeightAtMost(n.edges[j].next, MAX_DEPTH - depth - 1)
      {
        ShapedHeight(n.edges[j].next, depth + 1);
      }
    }
  }

  /**
   * The whole walked tree is `Shaped` from depth 0, `Follows` the moves, and
   * is at most `MAX_DEPTH` deep; the root itself is described by `Walk`'s contract.
   */
  lemma WalkShape(board: Board)
    requires board.WellFormed()
    ensures Shaped(Walk(board), 0) && Follows(Walk(board))
    ensures HeightAtMost(Walk(board), MAX_DEPTH)
  {
    var root := Walk(board);
    assert root == WalkInner(None, board, SnakeId(0), 0);
    WalkInnerShaped(None, board, SnakeId(0), 0);
    ShapedHeight(root, 0);
  }

  /** Appending the edge built for move `i` extends the first `i` children by one. */
  lemma ChildrenExtend(board: Board, player: SnakeId, depth: nat, i: nat, r: Outcome, next: Board, child: Node)
    requires board.WellFormed() && player.idx < |board.snakes| && depth < MAX_DEPTH && i < 4
    requires (r, next) == Play(board, AllMoves[i], player)
    requires child == WalkInner(r, next, board.NextPlayer(player), depth + 1)
    ensures Children(board, player, depth)[..i] + [Edge(child, AllMoves[i])] == Children(board, player, depth)[..i + 1]
  {
    ChildIs(board, player, depth, AllMoves[i], r, next, child);
    PrefixExtend(Children(board, player, depth), i);
  }

  /** The edge for move `m` is the recursively walked node for that move's outcome and board. */
  lemma ChildIs(board: Board, player: SnakeId, depth: nat, m: Move, r: Outcome, next: Board, child: Node)
    requires board.WellFormed() && player.idx < |board.snakes| && depth < MAX_DEPTH
    requires (r, next) == Play(board, m, player)
    requires child == WalkInner(r, next, board.NextPlayer(player), depth + 1)
    ensures Child(board, player, depth, m) == Edge(child, m)
  {
  }

  lemma PrefixExtend(es: seq<Edge>, i: nat)
    requires i < |es|
    ensures es[..i] + [es[i]] == es[..i + 1]
  {
  }

  /** The walk as the engine runs it: a recursive call per move, pushing the edges in a loop. */
  method BuildNode(result: Outcome, board: Board, player: SnakeId, depth: nat) returns (node: Node)
    requires board.WellFormed() && player.idx < |board.snakes|
    ensures node == WalkInner(result, board, player, depth)
    decreases MAX_DEPTH - depth
  {
    var edges: seq<Edge> := [];
    if !Prune(result, depth) {
      for i := 0 to 4
        invariant edges == Children(board, player, depth)[..i]
      {
        var m := AllMoves[i];
        var r, next := PlayMove(board, m, player);
        var child := BuildNode(r, next, board.NextPlayer(player), depth + 1);
        ChildrenExtend(board, player, depth, i, r, next, child);
        edges := edges + [Edge(child, m)];
      }
      assert edges == Children(board, player, depth);
    }
    node := Node(board, edges, player, result);
  }

  // ---------------------------------------------------------------------------
  // Scoring (lower is better for snake 0)
  // ---------------------------------------------------------------------------

  /** Cost to snake 0 of its own move ending in `result`. */
  function MyCost(result: Outcome): (c: Ext)
    ensures c == PosInf <==> result == Dead || result == Outcome.Off
    ensures c != NegInf
  {
    match result
    case Off => PosInf
    case Dead => PosInf
    case Eat => Fin(-1)
    case None => Fin(0)
  }

  /** Cost to snake 0 of another snake's move ending in `result`. */
  function TheirCost(result: Outcome): (c: Ext)
    ensures c.Fin? && c.v <= 5
    ensures c.v < 0 <==> result == Dead || result == Outcome.Off
  {
    match result
    case Off => Fin(-10)
    case Dead => Fin(-100)
    case Eat => Fin(5)
    case None => Fin(0)
  }

  /**
   * The score of `edge` out of `source`: the mover is `source.player`; snake 0
   * minimises over what follows, every other snake maximises.
   */
  function Score(source: Node, edge: Edge): (r: Ext)
    ensures r != NegInf
    decreases edge, 2
  {
    if source.player.IsMe() then Minimize(edge) else Maximize(edge)
  }

  function Minimize(edge: Edge): (r: Ext)
    ensures r != NegInf
    decreases edge, 1
  {
    var cost := MyCost(edge.next.result);
    if edge.next.IsLeaf() then cost else MinFrom(edge, |edge.next.edges|, cost)
  }

  /** The running minimum of `score + cost` over the first `k` edges below `edge`, from +inf. */
  function MinFrom(edge: Edge, k: nat, cost: Ext): (r: Ext)
    requires k <= |edge.next.edges| && cost != NegInf
    ensures r != NegInf
    decreases edge, 0, k
  {
    if k == 0 then PosInf
    else
      var best := MinFrom(edge, k - 1, cost);
      var s := Plus(Score(edge.next, edge.next.edges[k - 1]), cost);
      if Less(s, best) then s else best
  }

  function Maximize(edge: Edge): (r: Ext)
    ensures r != NegInf
    decreases edge, 1
  {
    var cost := TheirCost(edge.next.result);
    if edge.next.IsLeaf() then cost else MaxFrom(edge, |edge.next.edges|, cost)
  }

  /** The running maximum of `score + cost` over the first `k` edges below `edge`, from -inf. */
  function MaxFrom(edge: Edge, k: nat, cost: Ext): (r: Ext)
    requires k <= |edge.next.edges| && cost.Fin?
    ensures k > 0 ==> r != NegInf
    decreases edge, 0, k
  {
    if k == 0 then NegInf
    else
      var best := MaxFrom(edge, k - 1, cost);
      var s := Plus(Score(edge.next, edge.next.edges[k - 1]), cost);
      if Less(best, s) then s else best
  }

  /** `MinFrom` is the least of the first `k` sums, and +inf when `k` is 0. */
  lemma {:induction false} MinFromLeast(edge: Edge, k: nat, cost: Ext)
    requires k <= |edge.next.edges| && cost != NegInf
    ensures forall j :: 0 <= j < k ==>
              Le(MinFrom(edge, k, cost), Plus(Score(edge.next, edge.next.edges[j]), cost))
    ensures k == 0 ==> MinFrom(edge, k, cost) == PosInf
    ensures k > 0 ==>
              exists j :: 0 <= j < k && MinFrom(edge, k, cost) == Plus(Score(edge.next, edge.next.edges[j]), cost)
  {
    if k > 0 {
      MinFromLeast(edge, k - 1, cost);
      var best := MinFrom(edge, k - 1, cost);
      var s := Plus(Score(edge.next, edge.next.edges[k - 1]), cost);
      if Less(s, best) {
        forall j | 0 <= j < k - 1
          ensures Le(s, Plus(Score(edge.next, edge.next.edges[j]), cost))
        {
          LessLeTrans(s, best, Plus(Score(edge.next, edge.next.edges[j]), cost));
        }
        assert MinFrom(edge, k, cost) == s;
      } else if k == 1 {
        assert MinFrom(edge, k, cost) == s;
      }
    }
  }

  /** `MaxFrom` is the greatest of the first `k` sums, and -inf when `k` is 0. */
  lemma {:induction false} MaxFromGreatest(edge: Edge, k: nat, cost: Ext)
    requires k <= |edge.next.edges| && cost.Fin?
    ensures forall j :: 0 <= j < k ==>
              Le(Plus(Score(edge.next, edge.next.edges[j]), cost), MaxFrom(edge, k, cost))
    ensures k == 0 ==> MaxFrom(edge, k, cost) == NegInf
    ensures k > 0 ==>
              exists j :: 0 <= j < k && MaxFrom(edge, k, cost) == Plus(Score(edge.next, edge.next.edges[j]), cost)
  {
    if k > 0 {
      MaxFromGreatest(edge, k - 1, cost);
      var best := MaxFrom(edge, k - 1, cost);
      var s := Plus(Score(edge.next, edge.next.edges[k - 1]), cost);
      if Less(best, s) {
        forall j | 0 <= j < k - 1
          ensures Le(Plus(Score(edge.next, edge.next.edges[j]), cost), s)
        {
          LessLeTrans(Plus(Score(edge.next, edge.next.edges[j]), cost), best, s);
        }
        assert MaxFrom(edge, k, cost) == s;
      }
    }
  }

  /** The cost snake `source.player` is charged for the move into `edge.next`. */
  function EdgeCost(source: Node, edge: Edge): (c: Ext)
    ensures c != NegInf
    ensures source.player.IsMe() ==> (c == PosInf <==> edge.next.result == Dead || edge.next.result == Outcome.Off)
    ensures !source.player.IsMe() ==> c.Fin? && (c.v < 0 <==> edge.next.result == Dead || edge.next.result == Outcome.Off)
  {
    if source.player.IsMe() then MyCost(edge.next.result) else TheirCost(edge.next.result)
  }

  /**
   * The scoring rules: a leaf scores its cost; an internal child scores its
   * cost plus the least (mover is snake 0) or greatest (any other mover) score
   * among its own edges.
   */
  lemma ScoreRules(source: Node, edge: Edge)
    ensures edge.next.IsLeaf() ==> Score(source, edge) == EdgeCost(source, edge)
    ensures !edge.next.IsLeaf() && source.player.IsMe() ==>
              forall j :: 0 <= j < |edge.next.edges| ==>
                Le(Score(source, edge), Plus(Score(edge.next, edge.next.edges[j]), EdgeCost(source, edge)))
    ensures !edge.next.IsLeaf() && !source.player.IsMe() ==>
              forall j :: 0 <= j < |edge.next.edges| ==>
                Le(Plus(Score(edge.next, edge.next.edges[j]), EdgeCost(source, edge)), Score(source, edge))
    ensures !edge.next.IsLeaf() ==>
              exists j :: 0 <= j < |edge.next.edges| &&
                Score(source, edge) == Plus(Score(edge.next, edge.next.edges[j]), EdgeCost(source, edge))
  {
    if !edge.next.IsLeaf() {
      if source.player.IsMe() {
        MinFromLeast(edge, |edge.next.edges|, MyCost(edge.next.result));
      } else {
        MaxFromGreatest(edge, |edge.next.edges|, TheirCost(edge.next.result));
      }
    }
  }

  /**
   * The aggregation is chosen by the snake that moved into a node, not by the
   * snake about to move there: after snake 1 moves, snake 0's own replies
   * (a free cell scoring 0 and a fatal one scoring +inf) are combined by
   * `maximize`, so the edge scores as if snake 0 took the fatal reply.
   */
  lemma RepliesTakenAtWorst(b: Board)
    ensures var safe := Node(b, [], SnakeId(1), None);
            var fatal := Node(b, [], SnakeId(1), Dead);
            var n := Node(b, [Edge(safe, Up), Edge(fatal, Down)], SnakeId(0), None);
            var source := Node(b, [Edge(n, Up)], SnakeId(1), None);
            && Score(n, n.edges[0]) == Fin(0)
            && Score(n, n.edges[1]) == PosInf
            && Score(source, source.edges[0]) == PosInf
  {
    var safe := Node(b, [], SnakeId(1), None);
    var fatal := Node(b, [], SnakeId(1), Dead);
    var n := Node(b, [Edge(safe, Up), Edge(fatal, Down)], SnakeId(0), None);
    var e := Edge(n, Up);
    assert e.next.edges[0] == Edge(safe, Up) && e.next.edges[1] == Edge(fatal, Down);
    assert Score(n, Edge(safe, Up)) == Minimize(Edge(safe, Up)) == Fin(0);
    assert Score(n, Edge(fatal, Down)) == Minimize(Edge(fatal, Down)) == PosInf;
    assert MaxFrom(e, 1, Fin(0)) == Fin(0);
    assert MaxFrom(e, 2, Fin(0)) == PosInf;
  }

  /**
   * With a single snake every move is snake 0's, so every level is combined
   * by `minimize`: the same replies (scoring 0 and +inf) now give 0.
   */
  lemma SoloRepliesTakenAtBest(b: Board)
    ensures var safe := Node(b, [], SnakeId(0), None);
            var fatal := Node(b, [], SnakeId(0), Dead);
            var n := Node(b, [Edge(safe, Up), Edge(fatal, Down)], SnakeId(0), None);
            var source := Node(b, [Edge(n, Up)], SnakeId(0), None);
            Score(source, source.edges[0]) == Fin(0)
  {
    var safe := Node(b, [], SnakeId(0), None);
    var fatal := Node(b, [], SnakeId(0), Dead);
    var n := Node(b, [Edge(safe, Up), Edge(fatal, Down)], SnakeId(0), None);
    var e := Edge(n, Up);
    assert e.next.edges[0] == Edge(safe, Up) && e.next.edges[1] == Edge(fatal, Down);
    assert Score(n, Edge(safe, Up)) == Minimize(Edge(safe, Up)) == Fin(0);
    assert Score(n, Edge(fatal, Down)) == Minimize(Edge(fatal, Down)) == PosInf;
    assert MinFrom(e, 1, Fin(0)) == Fin(0);
    assert MinFrom(e, 2, Fin(0)) == Fin(0);
  }

  /** With a single snake, the player to move at every node is snake 0. */
  lemma SoloNextIsMe(b: Board, player: SnakeId)
    requires |b.snakes| == 1
    ensures b.NextPlayer(player).IsMe()
  {
  }

  /** Scoring as the engine runs it: a loop per node keeping the running minimum or maximum. */
  method ScoreEdge(source: Node, edge: Edge) returns (r: Ext)
    ensures r == Score(source, edge)
    decreases edge, 2
  {
    if source.player.IsMe() {
      r := MinimizeEdge(edge);
    } else {
      r := MaximizeEdge(edge);
    }
  }

  method MinimizeEdge(edge: Edge) returns (r: Ext)
    ensures r == Minimize(edge)
    decreases edge, 1
  {
    var node := edge.next;
    var cost := MyCost(node.result);
    if node.IsLeaf() {
      return cost;
    }
    var min := PosInf;
    for i := 0 to |node.edges|
      invariant min == MinFrom(edge, i, cost)
    {
      var s := ScoreEdge(node, node.edges[i]);
      var edgeScore := Plus(s, cost);
      if Less(edgeScore, min) {
        min := edgeScore;
      }
    }
    return min;
  }

  method MaximizeEdge(edge: Edge) returns (r: Ext)
    ensures r == Maximize(edge)
    decreases edge, 1
  {
    var node := edge.next;
    var cost := TheirCost(node.result);
    if node.IsLeaf() {
      return cost;
    }
    var max := NegInf;
    for i := 0 to |node.edges|
      invariant max == MaxFrom(edge, i, cost)
    {
      var s := ScoreEdge(node, node.edges[i]);
      var edgeScore := Plus(s, cost);
      if Less(max, edgeScore) {
        max := edgeScore;
      }
    }
    return max;
  }

  // ---------------------------------------------------------------------------
  // Choosing the move
  // ---------------------------------------------------------------------------

  /** The moves on `node`'s edges, in order. */
  function EdgeMoves(node: Node): seq<Move> {
    seq(|node.edges|, i requires 0 <= i < |node.edges| => node.edges[i].moved)
  }

  /** The scores of `node`'s edges, in order. */
  function EdgeScores(node: Node): seq<Ext> {
    seq(|node.edges|, i requires 0 <= i < |node.edges| => Score(node, node.edges[i]))
  }

  /** The move of the first edge with the strictly smallest score; `Up` if none is below +inf. */
  function Pick(node: Node): (m: Move)
    ensures m == Up || exists j :: 0 <= j < |node.edges| && node.edges[j].moved == m
  {
    PickFromIndex(EdgeMoves(node), EdgeScores(node), |node.edges|);
    PickFrom(EdgeMoves(node), EdgeScores(node), |node.edges|).0
  }

  /** The running (move, score) minimum over the first `k` entries, from (Up, +inf). */
  function PickFrom(moves: seq<Move>, scores: seq<Ext>, k: nat): (r: (Move, Ext))
    requires k <= |moves| == |scores|
    ensures r.1 == PosInf ==> r.0 == Up
    ensures forall j :: 0 <= j < k ==> Le(r.1, scores[j])
  {
    if k == 0 then (Up, PosInf)
    else
      var best := PickFrom(moves, scores, k - 1);
      if Less(scores[k - 1], best.1) then (moves[k - 1], scores[k - 1]) else best
  }

  /** Entry `j` is the least of the first `k` scores, and every earlier entry is strictly greater. */
  ghost predicate IsFirstMinimum(scores: seq<Ext>, k: nat, j: nat)
    requires j < k <= |scores|
  {
    && (forall i :: 0 <= i < k ==> Le(scores[j], scores[i]))
    && (forall i :: 0 <= i < j ==> Less(scores[j], scores[i]))
  }

  /** The index of the first strictly smallest of the first `k` scores, or -1 if none is below +inf. */
  ghost function MinIndex(scores: seq<Ext>, k: nat): (i: int)
    requires k <= |scores|
    ensures -1 <= i < k
  {
    if k == 0 then -1
    else
      var i := MinIndex(scores, k - 1);
      if Less(scores[k - 1], if i < 0 then PosInf else scores[i]) then k - 1 else i
  }

  /** The running pick holds the move and score at `MinIndex`, or (Up, +inf). */
  lemma {:induction false} PickFromIndex(moves: seq<Move>, scores: seq<Ext>, k: nat)
    requires k <= |moves| == |scores|
    ensures var i := MinIndex(scores, k);
            PickFrom(moves, scores, k) == if i < 0 then (Up, PosInf) else (moves[i], scores[i])
  {
    if k > 0 {
      PickFromIndex(moves, scores, k - 1);
    }
  }

  /** `MinIndex` finds the first minimum when some score is below +inf. */
  lemma {:induction false} MinIndexSpec(scores: seq<Ext>, k: nat)
    requires k <= |scores|
    ensures MinIndex(scores, k) < 0 ==> forall j :: 0 <= j < k ==> scores[j] == PosInf
    ensures MinIndex(scores, k) >= 0 ==>
              scores[MinIndex(scores, k)] != PosInf && IsFirstMinimum(scores, k, MinIndex(scores, k))
  {
    if k > 0 {
      MinIndexSpec(scores, k - 1);
      var i := MinIndex(scores, k - 1);
      var s := scores[k - 1];
      if i < 0 {
        if Less(s, PosInf) {
          assert IsFirstMinimum(scores, k, k - 1);
        }
      } else if Less(s, scores[i]) {
        forall l | 0 <= l < k - 1
          ensures Less(s, scores[l])
        {
          LessLeTrans(s, scores[i], scores[l]);
        }
        assert IsFirstMinimum(scores, k, k - 1);
      } else {
        assert IsFirstMinimum(scores, k, i);
      }
    }
  }

  /**
   * `Pick` returns the move of the first edge whose score is the least, when
   * some edge scores below +inf, and `Up` otherwise (also with no edges).
   */
  lemma PickSpec(node: Node)
    ensures (forall j :: 0 <= j < |node.edges| ==> Score(node, node.edges[j]) == PosInf) ==> Pick(node) == Up
    ensures (exists j :: 0 <= j < |node.edges| && Score(node, node.edges[j]) != PosInf) ==>
              exists j :: 0 <= j < |node.edges| && IsFirstMinimum(EdgeScores(node), |node.edges|, j) &&
                node.edges[j].moved == Pick(node) && Score(node, node.edges[j]) != PosInf
  {
    var scores := EdgeScores(node);
    PickFromIndex(EdgeMoves(node), scores, |node.edges|);
    MinIndexSpec(scores, |node.edges|);
    var i := MinIndex(scores, |node.edges|);
    if i < 0 {
      assert forall j :: 0 <= j < |node.edges| ==> Score(node, node.edges[j]) == scores[j];
    } else {
      assert node.edges[i].moved == Pick(node) && Score(node, node.edges[i]) == scores[i];
    }
  }

  /** The pick as the engine runs it: one loop keeping the running (move, score) minimum. */
  method PickMove(node: Node) returns (m: Move)
    ensures m == Pick(node)
  {
    var min := (Up, PosInf);
    for i := 0 to |node.edges|
      invariant min == PickFrom(EdgeMoves(node), EdgeScores(node), i)
    {
      var edgeScore := ScoreEdge(node, node.edges[i]);
      if Less(edgeScore, min.1) {
        min := (node.edges[i].moved, edgeScore);
      }
    }
    m := min.0;
  }

  // ---------------------------------------------------------------------------
  // The walk and the pick together
  // ---------------------------------------------------------------------------

  /** In a walked tree, a move by snake 0 that dies scores +inf: the dead node is a pruned leaf. */
  lemma MyDeathScoresInfinity(n: Node, depth: nat, j: nat)
    requires Shaped(n, depth) && n.player.IsMe() && j < |n.edges|
    ensures n.edges[j].next.result == Dead || n.edges[j].next.result == Outcome.Off ==>
              Score(n, n.edges[j]) == PosInf
  {
    assert Shaped(n.edges[j].next, depth + 1);
  }

  /**
   * At a node of a walked tree where snake 0 moves, whenever some move scores
   * below +inf, the picked move does not run snake 0 off the board or into a body.
   */
  lemma PickAvoidsDeath(n: Node, depth: nat)
    requires Shaped(n, depth) && n.player.IsMe()
    requires exists j :: 0 <= j < |n.edges| && Score(n, n.edges[j]) != PosInf
    ensures exists j :: 0 <= j < |n.edges| && n.edges[j].moved == Pick(n) &&
              n.edges[j].next.result != Dead && n.edges[j].next.result != Outcome.Off
  {
    PickSpec(n);
    var j :| 0 <= j < |n.edges| && IsFirstMinimum(EdgeScores(n), |n.edges|, j) &&
             n.edges[j].moved == Pick(n) && Score(n, n.edges[j]) != PosInf;
    MyDeathScoresInfinity(n, depth, j);
  }

  /** The same at the root of the walk: the chosen first move is not immediately fatal if any is not. */
  lemma WalkPickAvoidsDeath(board: Board)
    requires board.WellFormed()
    requires exists j :: 0 <= j < |Walk(board).edges| && Score(Walk(board), Walk(board).edges[j]) != PosInf
    ensures exists j :: 0 <= j < |Walk(board).edges| && Walk(board).edges[j].moved == Pick(Walk(board)) &&
              Walk(board).edges[j].next.result != Dead && Walk(board).edges[j].next.result != Outcome.Off
  {
    WalkShape(board);
    PickAvoidsDeath(Walk(board), 0);
  }

  /** A whole decision: walk the tree from `board`, then pick from its root. */
  method Decide(board: Board) returns (m: Move)
    requires board.WellFormed()
    ensures m == Pick(Walk(board))
  {
    var root := BuildNode(None, board, SnakeId(0), 0);
    m := PickMove(root);
  }
}
