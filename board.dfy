/**
 * The board model of the snake engine: positions, moves, snakes, the board
 * with its food and snakes, and the search-tree node types.
 *
 * `Board` and `Snake` are plain owned values in the engine (they are cloned,
 * never shared), so an operation that updates one in place is modelled here
 * as a function or method that returns the updated value.
 */
module SnakeBoard {

  /** A grid cell (x, y); not bounds-checked on its own. */
  type Pos = (int, int)

  datatype Move = Up | Down | Left | Right {

    /** The cell one step away from `pos` in this direction. */
    function Next(pos: Pos): (r: Pos)
      ensures Distance(pos, r) == 1
      ensures this == Up ==> r.0 == pos.0 && r.1 > pos.1
      ensures this == Down ==> r.0 == pos.0 && r.1 < pos.1
      ensures this == Left ==> r.0 < pos.0 && r.1 == pos.1
      ensures this == Right ==> r.0 > pos.0 && r.1 == pos.1
    {
      match this
      case Up => (pos.0, pos.1 + 1)
      case Down => (pos.0, pos.1 - 1)
      case Left => (pos.0 - 1, pos.1)
      case Right => (pos.0 + 1, pos.1)
    }

    /** The direction that undoes this one. */
    function Opposite(): Move {
      match this
      case Up => Down
      case Down => Up
      case Left => Right
      case Right => Left
    }
  }

  /** The four moves in the order the search tries them. */
  const AllMoves: seq<Move> := [Up, Down, Left, Right]

  function Abs(n: int): nat {
    if n < 0 then -n else n
  }

  /** Manhattan distance between two cells. */
  function Distance(p: Pos, q: Pos): nat {
    Abs(p.0 - q.0) + Abs(p.1 - q.1)
  }

  /** What one move can end in. */
  datatype Outcome = None | Eat | Dead | Off

  /** A snake's identifier: its index in the board's snake list; 0 is "me". */
  datatype SnakeId = SnakeId(idx: nat) {
    predicate IsMe() {
      idx == 0
    }
  }

  /** What occupies a cell. */
  datatype Square = SnakeCell(id: SnakeId) | Food | Empty | Off

  /** A snake's body, head first. */
  datatype Snake = Snake(body: seq<Pos>) {

    function Head(): Pos
      requires |body| > 0
    {
      body[0]
    }

    function Len(): nat {
      |body|
    }

    /** Drops the last segment; no change on an empty body. */
    function RemoveTail(): (s: Snake)
      ensures Len() > 0 ==> s.Len() == Len() - 1 && body == s.body + [body[Len() - 1]]
      ensures Len() == 0 ==> s == this
    {
      if |body| == 0 then this else Snake(body[..|body| - 1])
    }

    /** Puts a new head in front of the body. */
    function ChangeHead(pos: Pos): (s: Snake)
      ensures s.Len() == Len() + 1
      ensures s.Head() == pos
      ensures s.body[1..] == body
    {
      Snake([pos] + body)
    }
  }

  datatype Game = Game(width: int, height: int) {

    /** The cell lies on the grid. */
    predicate Contains(pos: Pos) {
      0 <= pos.0 < width && 0 <= pos.1 < height
    }
  }

  datatype Board = Board(game: Game, snakes: seq<Snake>, food: seq<Pos>) {

    /** What occupies `pos`: off-grid first, then food, then the lowest-index snake. */
    function Classify(pos: Pos): (sq: Square)
      ensures sq == Square.Off <==> !game.Contains(pos)
      ensures sq == Food <==> game.Contains(pos) && pos in food
      ensures sq.SnakeCell? <==>
                game.Contains(pos) && pos !in food && exists i :: 0 <= i < |snakes| && pos in snakes[i].body
      ensures sq.SnakeCell? ==>
                sq.id.idx < |snakes| && pos in snakes[sq.id.idx].body &&
                forall j :: 0 <= j < sq.id.idx ==> pos !in snakes[j].body
      ensures sq == Empty <==>
                game.Contains(pos) && pos !in food && forall i :: 0 <= i < |snakes| ==> pos !in snakes[i].body
    {
      if pos.0 < 0 || pos.1 < 0 || pos.0 >= game.width || pos.1 >= game.height then
        Square.Off
      else if pos in food then
        Food
      else
        var i := FirstOwner(snakes, pos);
        if i < |snakes| then SnakeCell(SnakeId(i)) else Empty
    }

    /** The scan the engine performs to classify a cell, returning at the first hit. */
    method Get(pos: Pos) returns (sq: Square)
      ensures sq == Classify(pos)
    {
      if pos.0 < 0 || pos.1 < 0 || pos.0 >= game.width || pos.1 >= game.height {
        return Square.Off;
      }
      for i := 0 to |food|
        invariant forall j :: 0 <= j < i ==> food[j] != pos
      {
        if food[i] == pos {
          return Food;
        }
      }
      for i := 0 to |snakes|
        invariant forall j :: 0 <= j < i ==> pos !in snakes[j].body
      {
        var body := snakes[i].body;
        for k := 0 to |body|
          invariant forall l :: 0 <= l < k ==> body[l] != pos
        {
          if body[k] == pos {
            return SnakeCell(SnakeId(i));
          }
        }
      }
      return Empty;
    }

    /** Removes the first food entry equal to `pos`, if any. */
    method RemoveFood(pos: Pos) returns (b: Board)
      ensures b == this.(food := RemoveFirst(food, pos))
    {
      var idx := 0;
      while idx < |food| && food[idx] != pos
        invariant 0 <= idx <= |food|
        invariant forall j :: 0 <= j < idx ==> food[j] != pos
      {
        idx := idx + 1;
      }
      b := this;
      if idx < |food| {
        b := b.(food := food[..idx] + food[idx + 1..]);
      }
    }

    function SnakeOf(player: SnakeId): Snake
      requires player.idx < |snakes|
    {
      snakes[player.idx]
    }

    /** Replaces the snake at `player`; everything else stays. */
    function SetSnake(player: SnakeId, s: Snake): (b: Board)
      requires player.idx < |snakes|
      ensures b.game == game && b.food == food && |b.snakes| == |snakes|
      ensures b.SnakeOf(player) == s
      ensures forall i :: 0 <= i < |snakes| && i != player.idx ==> b.snakes[i] == snakes[i]
    {
      this.(snakes := snakes[player.idx := s])
    }

    /** Round-robin turn order: the next index, wrapping to 0 after the last snake. */
    function NextPlayer(player: SnakeId): (r: SnakeId)
      ensures |snakes| > 0 ==> r.idx < |snakes|
      ensures r.idx == 0 || r.idx == player.idx + 1
      ensures player.idx + 1 < |snakes| ==> r.idx == player.idx + 1
    {
      if player.idx + 1 >= |snakes| then SnakeId(0) else SnakeId(player.idx + 1)
    }

    /** The player reached from `player` after `k` turns. */
    function Advance(player: SnakeId, k: nat): SnakeId {
      if k == 0 then player else NextPlayer(Advance(player, k - 1))
    }

    /** At least one snake, and every snake has a head. */
    predicate WellFormed() {
      |snakes| > 0 && forall i :: 0 <= i < |snakes| ==> |snakes[i].body| > 0
    }
  }

  /** The lowest index whose body contains `pos`, or `|snakes|` if none does. */
  function FirstOwner(snakes: seq<Snake>, pos: Pos): (r: nat)
    ensures r <= |snakes|
    ensures r < |snakes| ==> pos in snakes[r].body
    ensures forall j :: 0 <= j < r ==> pos !in snakes[j].body
  {
    if snakes == [] then 0
    else if pos in snakes[0].body then 0
    else 1 + FirstOwner(snakes[1..], pos)
  }

  /** The index of the first entry equal to `x`, or `|s|` if none is. */
  function IndexOf(s: seq<Pos>, x: Pos): (i: nat)
    ensures i <= |s|
    ensures i < |s| ==> s[i] == x
    ensures forall j :: 0 <= j < i ==> s[j] != x
  {
    if s == [] then 0
    else if s[0] == x then 0
    else 1 + IndexOf(s[1..], x)
  }

  /** Finds the first entry equal to `x` and removes it. */
  function RemoveFirst(s: seq<Pos>, x: Pos): seq<Pos> {
    var i := IndexOf(s, x);
    if i < |s| then s[..i] + s[i + 1..] else s
  }

  /** Moving one way and then the opposite way returns to the start. */
  lemma NextOpposite(m: Move, pos: Pos)
    ensures m.Opposite().Next(m.Next(pos)) == pos
    ensures m.Opposite().Opposite() == m
    ensures m.Next(pos) != pos
  {
  }

  /**
   * Removing food: with `x` present, exactly its first occurrence goes and the
   * others keep their order; with `x` absent nothing changes.
   */
  lemma {:induction false} RemoveFirstSpec(s: seq<Pos>, x: Pos)
    ensures x !in s ==> RemoveFirst(s, x) == s
    ensures x in s ==>
              exists i :: 0 <= i < |s| && s[i] == x && x !in s[..i] && RemoveFirst(s, x) == s[..i] + s[i + 1..]
    ensures |RemoveFirst(s, x)| == if x in s then |s| - 1 else |s|
    ensures multiset(RemoveFirst(s, x)) == multiset(s) - multiset{x}
  {
    var i := IndexOf(s, x);
    if i < |s| {
      assert x in s;
      assert x !in s[..i];
      assert s == s[..i] + [s[i]] + s[i + 1..];
      calc {
        multiset(s);
        multiset(s[..i]) + multiset([s[i]]) + multiset(s[i + 1..]);
        multiset(s[..i] + s[i + 1..]) + multiset{x};
      }
    } else {
      assert x !in s;
    }
  }

  /** After `k <= |snakes|` turns the index has moved on by `k`, wrapping once past the last snake. */
  lemma {:induction false} AdvanceWraps(b: Board, player: SnakeId, k: nat)
    requires player.idx < |b.snakes| && k <= |b.snakes|
    ensures b.Advance(player, k).idx ==
              if player.idx + k < |b.snakes| then player.idx + k else player.idx + k - |b.snakes|
  {
    if k > 0 {
      AdvanceWraps(b, player, k - 1);
    }
  }

  /** Taking turns as many times as there are snakes comes back to the start. */
  lemma NextPlayerCycle(b: Board, player: SnakeId)
    requires player.idx < |b.snakes|
    ensures b.Advance(player, |b.snakes|) == player
  {
    AdvanceWraps(b, player, |b.snakes|);
  }

  /** Snake 0 gets its next turn exactly `|snakes| - player` turns after `player`, and not before. */
  lemma MeMovesEachRound(b: Board, player: SnakeId)
    requires player.idx < |b.snakes|
    ensures b.Advance(player, |b.snakes| - player.idx).IsMe()
    ensures forall k :: 0 < k < |b.snakes| - player.idx ==> !b.Advance(player, k).IsMe()
  {
    AdvanceWraps(b, player, |b.snakes| - player.idx);
    forall k | 0 < k < |b.snakes| - player.idx
      ensures !b.Advance(player, k).IsMe()
    {
      AdvanceWraps(b, player, k);
    }
  }

  /** A plain step: the head moves to `pos`, the length stays and the old tail goes. */
  lemma StepShiftsBody(s: Snake, pos: Pos)
    requires s.Len() > 0
    ensures s.RemoveTail().ChangeHead(pos) == s.ChangeHead(pos).RemoveTail()
    ensures s.RemoveTail().ChangeHead(pos).Len() == s.Len()
    ensures s.RemoveTail().ChangeHead(pos).body == [pos] + s.body[..s.Len() - 1]
  {
  }

  /** A search-tree edge: the move taken and the node it leads to. */
  datatype Edge = Edge(next: Node, moved: Move)

  /**
   * A search-tree node: the board, the moves tried from it, the snake about
   * to move, and the outcome of the move that led here.
   */
  datatype Node = Node(board: Board, edges: seq<Edge>, player: SnakeId, result: Outcome) {
    predicate IsLeaf() {
      |edges| == 0
    }
  }
}
