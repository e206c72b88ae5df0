/** The board of `CS561-HW4/csci561_hw4.cpp`: which jumps and moves there are, how they are generated,
    and what they do. */
module Checkers {
  import opened Wrappers

  const GRID := 8          // GAME_GRID_NUM
  const KING_VALUE := 2

  datatype Square = Dark | Light | AlicePiece | BillPiece | AliceKing | BillKing

  datatype Player = Alice | Bill {
    function Other(): Player {
      if this == Alice then Bill else Alice
    }
  }

  datatype Kind = Jump | Normal

  datatype Point = Point(i: int, j: int) {
    predicate OnBoard() {
      0 <= i < GRID && 0 <= j < GRID
    }
  }

  datatype Operation = Operation(from: Point, to: Point, player: Player, kind: Kind)

  type Board = b: seq<seq<Square>> | |b| == GRID && forall i :: 0 <= i < GRID ==> |b[i]| == GRID
    witness seq(8, _ => seq(8, _ => Light))

  function At(b: Board, p: Point): Square
    requires p.OnBoard()
  {
    b[p.i][p.j]
  }

  function Put(b: Board, p: Point, s: Square): Board
    requires p.OnBoard()
  {
    b[p.i := b[p.i][p.j := s]]
  }

  predicate Mine(player: Player, s: Square) {
    if player == Alice then s == AlicePiece || s == AliceKing else s == BillPiece || s == BillKing
  }

  // ---------------------------------------------------------------------------------------------
  // The rules

  datatype Direction = TopRight | TopLeft | BotRight | BotLeft {
    function Rows(): int {
      if TopRight? || TopLeft? then -1 else 1
    }

    function Columns(): int {
      if TopRight? || BotRight? then 1 else -1
    }
  }

  function Step(p: Point, d: Direction, n: int): Point {
    Point(p.i + n * d.Rows(), p.j + n * d.Columns())
  }

  // Alice's pieces go up, Bill's go down, and kings go both ways.
  predicate Goes(s: Square, d: Direction) {
    match s
    case AlicePiece => d.Rows() == -1
    case BillPiece => d.Rows() == 1
    case AliceKing => true
    case BillKing => true
    case _ => false
  }

  function Distance(kind: Kind): int {
    if kind == Jump then 2 else 1
  }

  // An operation the rules allow in a direction: one step to an empty square, or two over a piece of
  // the opponent.
  predicate LegalIn(b: Board, player: Player, kind: Kind, op: Operation, d: Direction) {
    && op.player == player && op.kind == kind && op.from.OnBoard() && op.to.OnBoard()
    && Mine(player, At(b, op.from)) && At(b, op.to) == Dark
    && Goes(At(b, op.from), d) && op.to == Step(op.from, d, Distance(kind))
    && (kind == Jump ==> Mine(player.Other(), At(b, Step(op.from, d, 1))))
  }

  ghost predicate Legal(b: Board, player: Player, kind: Kind, op: Operation) {
    exists d: Direction :: LegalIn(b, player, kind, op, d)
  }

  // ---------------------------------------------------------------------------------------------
  // The tests for one square and one direction

  // check_top_right_jump and its three siblings
  function CheckJump(b: Board, start: Point, d: Direction): Option<Operation>
    requires start.OnBoard()
  {
    if (if d.Columns() == 1 then start.j <= GRID - 3 else start.j >= 2) && (if d.Rows() == -1 then start.i >= 2 else start.i <= GRID - 3) then
      var jp := Step(start, d, 2);
      if At(b, jp) == Dark then
        var p, s := At(b, Step(start, d, 1)), At(b, start);
        if (s == AliceKing || (s == AlicePiece && d.Rows() == -1)) && (p == BillPiece || p == BillKing)
        then Some(Operation(start, jp, Alice, Jump))
        else if (s == BillKing || (s == BillPiece && d.Rows() == 1)) && (p == AlicePiece || p == AliceKing)
        then Some(Operation(start, jp, Bill, Jump))
        else None
      else None
    else None
  }

  // check_top_right_move and its three siblings
  function CheckMove(b: Board, start: Point, d: Direction): Option<Operation>
    requires start.OnBoard()
  {
    if (if d.Columns() == 1 then start.j <= GRID - 2 else start.j >= 1) && (if d.Rows() == -1 then start.i >= 1 else start.i <= GRID - 2) then
      var mp := Step(start, d, 1);
      if At(b, mp) == Dark then
        var s := At(b, start);
        if s == AliceKing || (s == AlicePiece && d.Rows() == -1) then Some(Operation(start, mp, Alice, Normal))
        else if s == BillKing || (s == BillPiece && d.Rows() == 1) then Some(Operation(start, mp, Bill, Normal))
        else None
      else None
    else None
  }

  function Check(b: Board, kind: Kind, start: Point, d: Direction): Option<Operation>
    requires start.OnBoard()
  {
    if kind == Jump then CheckJump(b, start, d) else CheckMove(b, start, d)
  }

  // The tests find exactly what the rules allow.
  lemma CheckIsLegal(b: Board, player: Player, kind: Kind, start: Point, d: Direction)
    requires start.OnBoard() && Mine(player, At(b, start))
    ensures var op := Operation(start, Step(start, d, Distance(kind)), player, kind);
      Check(b, kind, start, d) == if LegalIn(b, player, kind, op, d) then Some(op) else None
  {
  }

  // ---------------------------------------------------------------------------------------------
  // Generating operations

  function Found(b: Board, kind: Kind, start: Point, d: Direction): seq<Operation>
    requires start.OnBoard()
  {
    var r := Check(b, kind, start, d);
    if r.Some? then [r.value] else []
  }

  // The operations of one piece: forwards first, right before left.
  function OpsAt(b: Board, player: Player, kind: Kind, start: Point): seq<Operation>
    requires start.OnBoard()
  {
    if !Mine(player, At(b, start)) then []
    else if player == Alice then
      Found(b, kind, start, TopRight) + Found(b, kind, start, TopLeft) + Found(b, kind, start, BotRight) + Found(b, kind, start, BotLeft)
    else
      Found(b, kind, start, BotRight) + Found(b, kind, start, BotLeft) + Found(b, kind, start, TopRight) + Found(b, kind, start, TopLeft)
  }

  // The operations of the first j squares of row i, and of the first i rows.
  function RowOps(b: Board, player: Player, kind: Kind, i: int, j: nat): seq<Operation>
    requires 0 <= i < GRID && j <= GRID
  {
    if j == 0 then [] else RowOps(b, player, kind, i, j - 1) + OpsAt(b, player, kind, Point(i, j - 1))
  }

  function Ops(b: Board, player: Player, kind: Kind, i: nat): seq<Operation>
    requires i <= GRID
  {
    if i == 0 then [] else Ops(b, player, kind, i - 1) + RowOps(b, player, kind, i - 1, GRID)
  }

  // Jumping is mandatory.
  function Operators(b: Board, player: Player): seq<Operation> {
    var jumps := Ops(b, player, Jump, GRID);
    if jumps != [] then jumps else Ops(b, player, Normal, GRID)
  }

  lemma OpsAtLegal(b: Board, player: Player, kind: Kind, start: Point, op: Operation)
    requires start.OnBoard()
    ensures op in OpsAt(b, player, kind, start) <==> op.from == start && Legal(b, player, kind, op)
  {
    hide LegalIn, Check;
    if Mine(player, At(b, start)) {
      forall d: Direction
        ensures op in Found(b, kind, start, d) <==> op.from == start && LegalIn(b, player, kind, op, d)
      {
        CheckIsLegal(b, player, kind, start, d);
        LegalInParts(b, player, kind, op, d);
      }
      if Legal(b, player, kind, op) {
        var d: Direction :| LegalIn(b, player, kind, op, d);
        assert d == TopRight || d == TopLeft || d == BotRight || d == BotLeft;
      }
      assert op in OpsAt(b, player, kind, start) <==>
        op in Found(b, kind, start, TopRight) || op in Found(b, kind, start, TopLeft)
        || op in Found(b, kind, start, BotRight) || op in Found(b, kind, start, BotLeft);
    } else {
      forall d: Direction ensures LegalIn(b, player, kind, op, d) ==> op.from != start {
        LegalInParts(b, player, kind, op, d);
      }
    }
  }

  lemma LegalInParts(b: Board, player: Player, kind: Kind, op: Operation, d: Direction)
    ensures LegalIn(b, player, kind, op, d) ==>
      op.from.OnBoard() && Mine(player, At(b, op.from)) && op == Operation(op.from, Step(op.from, d, Distance(kind)), player, kind)
  {
  }

  lemma {:induction false} RowOpsLegal(b: Board, player: Player, kind: Kind, i: int, j: nat, op: Operation)
    requires 0 <= i < GRID && j <= GRID
    ensures op in RowOps(b, player, kind, i, j) <==> op.from.i == i && 0 <= op.from.j < j && Legal(b, player, kind, op)
    decreases j
  {
    hide OpsAt, Legal;
    if j > 0 {
      RowOpsLegal(b, player, kind, i, j - 1, op);
      OpsAtLegal(b, player, kind, Point(i, j - 1), op);
    }
  }

  /** The generated operations are exactly the legal ones. */
  lemma {:induction false} OpsLegal(b: Board, player: Player, kind: Kind, i: nat, op: Operation)
    requires i <= GRID
    ensures op in Ops(b, player, kind, i) <==> 0 <= op.from.i < i && Legal(b, player, kind, op)
    decreases i
  {
    hide RowOps, Legal;
    if i > 0 {
      OpsLegal(b, player, kind, i - 1, op);
      RowOpsLegal(b, player, kind, i - 1, GRID, op);
      LegalOnBoard(b, player, kind, op);
    }
  }

  lemma LegalOnBoard(b: Board, player: Player, kind: Kind, op: Operation)
    ensures Legal(b, player, kind, op) ==>
      op.from.OnBoard() && op.to.OnBoard() && op.kind == kind && op.player == player
  {
  }

  /** What can be done: the jumps, and the moves only when there is no jump. */
  lemma OperatorsLegal(b: Board, player: Player, op: Operation)
    ensures op in Operators(b, player) <==>
      Legal(b, player, Jump, op) || (Legal(b, player, Normal, op) && forall j :: !Legal(b, player, Jump, j))
  {
    hide Ops, Legal;
    OpsLegal(b, player, Jump, GRID, op);
    OpsLegal(b, player, Normal, GRID, op);
    LegalOnBoard(b, player, Jump, op);
    LegalOnBoard(b, player, Normal, op);
    var jumps := Ops(b, player, Jump, GRID);
    if jumps == [] {
      forall j ensures !Legal(b, player, Jump, j) {
        OpsLegal(b, player, Jump, GRID, j);
        LegalOnBoard(b, player, Jump, j);
      }
    } else {
      OpsLegal(b, player, Jump, GRID, jumps[0]);
    }
  }

  /** The rules in terms of squares: one or two steps along a diagonal to an empty dark square, never backwards
      but for kings, and a jump passes over an opponent. */
  lemma LegalMeans(b: Board, player: Player, kind: Kind, op: Operation)
    ensures Legal(b, player, kind, op) <==>
      && op.player == player && op.kind == kind && op.from.OnBoard() && op.to.OnBoard()
      && Mine(player, At(b, op.from)) && At(b, op.to) == Dark
      && (var n := if kind == Jump then 2 else 1; op.to.i - op.from.i in {-n, n} && op.to.j - op.from.j in {-n, n})
      && (At(b, op.from) == AlicePiece ==> op.to.i < op.from.i)
      && (At(b, op.from) == BillPiece ==> op.to.i > op.from.i)
      && (kind == Jump ==> Mine(player.Other(), At(b, Mid(op.from, op.to))))
  {
    var up, right := op.to.i < op.from.i, op.to.j > op.from.j;
    var d := if up then (if right then TopRight else TopLeft) else if right then BotRight else BotLeft;
    if op.from.OnBoard() && op.to.OnBoard() && op.to == Step(op.from, d, Distance(kind)) {
      assert kind == Jump ==> Mid(op.from, op.to) == Step(op.from, d, 1);
      assert Legal(b, player, kind, op) <==> LegalIn(b, player, kind, op, d);
    }
  }

  // Where an operation stands on the list: pieces row by row from the left, and for one piece forwards before
  // backwards and right before left.
  function Rank(op: Operation): int {
    (op.from.i * GRID + op.from.j) * 4
    + (if (op.player == Alice) == (op.to.i < op.from.i) then 0 else 2) + (if op.to.j > op.from.j then 0 else 1)
  }

  ghost predicate Ascending(ops: seq<Operation>, lo: int, hi: int) {
    && (forall k :: 0 <= k < |ops| ==> lo <= Rank(ops[k]) < hi)
    && (forall j, k :: 0 <= j < k < |ops| ==> Rank(ops[j]) < Rank(ops[k]))
  }

  lemma AscendingJoin(a: seq<Operation>, b: seq<Operation>, lo: int, mid: int, hi: int)
    requires Ascending(a, lo, mid) && Ascending(b, mid, hi) && lo <= mid <= hi
    ensures Ascending(a + b, lo, hi)
  {
    hide Rank;
  }

  lemma FoundAscends(b: Board, player: Player, kind: Kind, start: Point, d: Direction)
    requires start.OnBoard() && Mine(player, At(b, start))
    ensures var at := (start.i * GRID + start.j) * 4
                      + (if (player == Alice) == (d.Rows() == -1) then 0 else 2) + (if d.Columns() == 1 then 0 else 1);
      Ascending(Found(b, kind, start, d), at, at + 1)
  {
    hide LegalIn, Check;
    CheckIsLegal(b, player, kind, start, d);
  }

  lemma OpsAtAscends(b: Board, player: Player, kind: Kind, start: Point)
    requires start.OnBoard()
    ensures var at := (start.i * GRID + start.j) * 4; Ascending(OpsAt(b, player, kind, start), at, at + 4)
  {
    hide Found, Ascending;
    var at := (start.i * GRID + start.j) * 4;
    if Mine(player, At(b, start)) {
      FoundAscends(b, player, kind, start, TopRight);
      FoundAscends(b, player, kind, start, TopLeft);
      FoundAscends(b, player, kind, start, BotRight);
      FoundAscends(b, player, kind, start, BotLeft);
      var tr, tl := Found(b, kind, start, TopRight), Found(b, kind, start, TopLeft);
      var br, bl := Found(b, kind, start, BotRight), Found(b, kind, start, BotLeft);
      if player == Alice {
        AscendingFour(tr, tl, br, bl, at);
      } else {
        AscendingFour(br, bl, tr, tl, at);
      }
    } else {
      AscendingEmpty(at, at + 4);
    }
  }

  lemma AscendingEmpty(lo: int, hi: int)
    ensures Ascending([], lo, hi)
  {
  }

  lemma AscendingFour(a: seq<Operation>, b: seq<Operation>, c: seq<Operation>, d: seq<Operation>, at: int)
    requires Ascending(a, at, at + 1) && Ascending(b, at + 1, at + 2) && Ascending(c, at + 2, at + 3) && Ascending(d, at + 3, at + 4)
    ensures Ascending(a + b + c + d, at, at + 4)
  {
    hide Ascending;
    AscendingJoin(a, b, at, at + 1, at + 2);
    AscendingJoin(a + b, c, at, at + 2, at + 3);
    AscendingJoin(a + b + c, d, at, at + 3, at + 4);
  }

  lemma {:induction false} RowOpsAscend(b: Board, player: Player, kind: Kind, i: int, j: nat)
    requires 0 <= i < GRID && j <= GRID
    ensures Ascending(RowOps(b, player, kind, i, j), i * GRID * 4, (i * GRID + j) * 4)
    decreases j
  {
    hide OpsAt, Ascending;
    if j == 0 {
      AscendingEmpty(i * GRID * 4, (i * GRID + j) * 4);
    } else {
      RowOpsAscend(b, player, kind, i, j - 1);
      OpsAtAscends(b, player, kind, Point(i, j - 1));
      AscendingJoin(RowOps(b, player, kind, i, j - 1), OpsAt(b, player, kind, Point(i, j - 1)),
                    i * GRID * 4, (i * GRID + j - 1) * 4, (i * GRID + j) * 4);
    }
  }

  /** The operations come in the order of their ranks, none twice. */
  lemma {:induction false} OpsAscend(b: Board, player: Player, kind: Kind, i: nat)
    requires i <= GRID
    ensures Ascending(Ops(b, player, kind, i), 0, i * GRID * 4)
    decreases i
  {
    hide RowOps, Ascending;
    if i == 0 {
      AscendingEmpty(0, 0);
    } else {
      OpsAscend(b, player, kind, i - 1);
      RowOpsAscend(b, player, kind, i - 1, GRID);
      AscendingJoin(Ops(b, player, kind, i - 1), RowOps(b, player, kind, i - 1, GRID), 0, (i - 1) * GRID * 4, i * GRID * 4);
    }
  }

  // ---------------------------------------------------------------------------------------------
  // Pieces

  function Weight(player: Player, s: Square): nat {
    if !Mine(player, s) then 0 else if s == AliceKing || s == BillKing then KING_VALUE else 1
  }

  function RowPieces(row: seq<Square>, player: Player, j: nat): (n: nat)
    requires j <= |row|
    ensures n <= 2 * j
  {
    if j == 0 then 0 else RowPieces(row, player, j - 1) + Weight(player, row[j - 1])
  }

  function Pieces(b: Board, player: Player, i: nat): (n: nat)
    requires i <= GRID
    ensures n <= 16 * i
  {
    if i == 0 then 0 else Pieces(b, player, i - 1) + RowPieces(b[i - 1], player, GRID)
  }

  // The worth of a player's pieces.
  function Total(b: Board, player: Player): nat {
    Pieces(b, player, GRID)
  }

  lemma {:induction false} RowPiecesZero(row: seq<Square>, player: Player, j: nat)
    requires j <= |row|
    ensures RowPieces(row, player, j) == 0 <==> forall k :: 0 <= k < j ==> !Mine(player, row[k])
  {
    if j > 0 {
      RowPiecesZero(row, player, j - 1);
    }
  }

  lemma {:induction false} PiecesZero(b: Board, player: Player, i: nat)
    requires i <= GRID
    ensures Pieces(b, player, i) == 0 <==> forall r, k :: 0 <= r < i && 0 <= k < GRID ==> !Mine(player, b[r][k])
    decreases i
  {
    hide RowPieces, Mine;
    if i > 0 {
      PiecesZero(b, player, i - 1);
      RowPiecesZero(b[i - 1], player, GRID);
    }
  }

  lemma {:induction false} RowPut(row: seq<Square>, player: Player, j: nat, k: nat, s: Square)
    requires j <= |row| && k < |row|
    ensures RowPieces(row[k := s], player, j)
         == RowPieces(row, player, j) + if k < j then Weight(player, s) - Weight(player, row[k]) else 0
  {
    if j > 0 {
      RowPut(row, player, j - 1, k, s);
    }
  }

  lemma {:induction false} PiecesPut(b: Board, player: Player, i: nat, p: Point, s: Square)
    requires i <= GRID && p.OnBoard()
    ensures Pieces(Put(b, p, s), player, i)
         == Pieces(b, player, i) + if p.i < i then Weight(player, s) - Weight(player, At(b, p)) else 0
    decreases i
  {
    hide RowPieces, Weight;
    if i > 0 {
      PiecesPut(b, player, i - 1, p, s);
      if p.i == i - 1 {
        RowPut(b[p.i], player, GRID, p.j, s);
      }
    }
  }

  function Mid(p: Point, q: Point): Point {
    Point((p.i + q.i) / 2, (p.j + q.j) / 2)
  }

  // apply_movement on values
  function Apply(b: Board, op: Operation): Board
    requires op.from.OnBoard() && op.to.OnBoard()
  {
    var s := At(b, op.from);
    if op.kind == Normal then Put(Put(b, op.from, Dark), op.to, s)
    else Put(Put(Put(b, op.from, Dark), Mid(op.from, op.to), Dark), op.to, s)
  }

  /** A legal operation moves one piece; it keeps the player's pieces, and takes exactly the piece that
      is jumped over. */
  lemma ApplyLegal(b: Board, player: Player, kind: Kind, op: Operation)
    requires Legal(b, player, kind, op)
    ensures op.from.OnBoard() && op.to.OnBoard() && Mid(op.from, op.to).OnBoard()
    ensures At(Apply(b, op), op.to) == At(b, op.from) && At(Apply(b, op), op.from) == Dark
    ensures Total(Apply(b, op), player) == Total(b, player)
    ensures Total(Apply(b, op), player.Other())
         == Total(b, player.Other()) - if kind == Jump then Weight(player.Other(), At(b, Mid(op.from, op.to))) else 0
    ensures kind == Jump ==> Weight(player.Other(), At(b, Mid(op.from, op.to))) > 0
    ensures forall p: Point :: p.OnBoard() && p != op.from && p != op.to && !(kind == Jump && p == Mid(op.from, op.to)) ==>
      At(Apply(b, op), p) == At(b, p)
  {
    hide Pieces;
    var d: Direction :| LegalIn(b, player, kind, op, d);
    var s, b1 := At(b, op.from), Put(b, op.from, Dark);
    var m := Mid(op.from, op.to);
    if kind == Jump {
      assert m == Step(op.from, d, 1);
    }
    forall who: Player
      ensures Total(Apply(b, op), who) == Total(b, who) - if kind == Jump then Weight(who, At(b, m)) else 0
    {
      PiecesPut(b, who, GRID, op.from, Dark);
      if kind == Normal {
        PiecesPut(b1, who, GRID, op.to, s);
      } else {
        var b2 := Put(b1, m, Dark);
        PiecesPut(b1, who, GRID, m, Dark);
        PiecesPut(b2, who, GRID, op.to, s);
      }
    }
  }
}
