/** The game search of `CS561-HW4/csci561_hw4.cpp`: minimax with alpha-beta pruning, against plain
    depth-limited minimax. */
module AlphaBeta {
  import opened Checkers
  import opened Wrappers

  const POSITIVE_INFINITY := 9999
  const NEGATIVE_INFINITY := -9999

  // ---------------------------------------------------------------------------------------------
  // Plain minimax

  predicate IsTerminal(b: Board, player: Player) {
    Total(b, Alice) == 0 || Total(b, Bill) == 0 || Operators(b, player) == []
  }

  // Alice tries to make it large. A player without pieces or operations has lost.
  function Utility(b: Board, player: Player): (u: int)
    ensures NEGATIVE_INFINITY <= u <= POSITIVE_INFINITY
  {
    if Total(b, Alice) == 0 then NEGATIVE_INFINITY
    else if Total(b, Bill) == 0 then POSITIVE_INFINITY
    else if Operators(b, player) == [] then (if player == Alice then NEGATIVE_INFINITY else POSITIVE_INFINITY)
    else Total(b, Alice) - Total(b, Bill)
  }

  ghost predicate NoPiece(b: Board, player: Player) {
    forall i, j :: 0 <= i < GRID && 0 <= j < GRID ==> !Mine(player, b[i][j])
  }

  ghost predicate CanGo(b: Board, player: Player) {
    exists kind: Kind, op :: Legal(b, player, kind, op)
  }

  /** Who has no pieces has lost, Alice first; who is to move and cannot has lost; otherwise the game goes on,
      and neither has won. */
  lemma WinAndLoss(b: Board, player: Player)
    ensures IsTerminal(b, player) <==> NoPiece(b, Alice) || NoPiece(b, Bill) || !CanGo(b, player)
    ensures NoPiece(b, Alice) ==> Utility(b, player) == NEGATIVE_INFINITY
    ensures !NoPiece(b, Alice) && NoPiece(b, Bill) ==> Utility(b, player) == POSITIVE_INFINITY
    ensures !NoPiece(b, Alice) && !NoPiece(b, Bill) && !CanGo(b, player) ==>
      Utility(b, player) == if player == Alice then NEGATIVE_INFINITY else POSITIVE_INFINITY
    ensures !IsTerminal(b, player) ==> NEGATIVE_INFINITY < Utility(b, player) < POSITIVE_INFINITY
  {
    hide Operators, Pieces, Legal;
    PiecesZero(b, Alice, GRID);
    PiecesZero(b, Bill, GRID);
    var ops := Operators(b, player);
    if ops != [] {
      OperatorsLegal(b, player, ops[0]);
    }
    if CanGo(b, player) {
      var kind: Kind, op :| Legal(b, player, kind, op);
      assert kind == Jump || kind == Normal;
      OperatorsLegal(b, player, op);
      if op !in ops {
        var j :| Legal(b, player, Jump, j);
        OperatorsLegal(b, player, j);
      }
    }
  }

  /** Taking a piece is good for the player who takes it, by what the piece is worth, and nothing else changes
      the utility while the game goes on. */
  lemma CaptureCounts(b: Board, player: Player, kind: Kind, op: Operation, to: Player)
    requires Legal(b, player, kind, op) && !IsTerminal(b, player)
    requires op.from.OnBoard() && op.to.OnBoard() && !IsTerminal(Apply(b, op), to)
    ensures kind == Normal ==> Utility(Apply(b, op), to) == Utility(b, player)
    ensures kind == Jump ==> Mid(op.from, op.to).OnBoard()
    ensures kind == Jump ==>
      var taken := At(b, Mid(op.from, op.to));
      var worth := if taken == AliceKing || taken == BillKing then KING_VALUE else 1;
      Utility(Apply(b, op), to) == Utility(b, player) + if player == Alice then worth else -worth
  {
    hide Operators, Pieces, Legal;
    ApplyLegal(b, player, kind, op);
  }

  predicate OnBoard(ops: seq<Operation>) {
    forall k :: 0 <= k < |ops| ==> ops[k].from.OnBoard() && ops[k].to.OnBoard()
  }

  lemma OperatorsOnBoard(b: Board, player: Player)
    ensures OnBoard(Operators(b, player))
  {
    hide Ops, Legal;
    var ops := Operators(b, player);
    forall k | 0 <= k < |ops| ensures ops[k].from.OnBoard() && ops[k].to.OnBoard() {
      OpsLegal(b, player, Jump, GRID, ops[k]);
      OpsLegal(b, player, Normal, GRID, ops[k]);
      LegalOnBoard(b, player, Jump, ops[k]);
      LegalOnBoard(b, player, Normal, ops[k]);
    }
  }

  // The minimax value of a board at depth it, searched down to depth limit.
  function Value(b: Board, player: Player, it: nat, limit: nat): (v: int)
    ensures NEGATIVE_INFINITY <= v <= POSITIVE_INFINITY
    decreases limit + 1 - it, 1, 0
  {
    if IsTerminal(b, player) || it > limit then Utility(b, player)
    else
      OperatorsOnBoard(b, player);
      ValueOver(b, Operators(b, player), player, it, limit)
  }

  // The best for player among some operations.
  function ValueOver(b: Board, ops: seq<Operation>, player: Player, it: nat, limit: nat): (v: int)
    requires OnBoard(ops) && it <= limit
    ensures NEGATIVE_INFINITY <= v <= POSITIVE_INFINITY
    decreases limit + 1 - it, 0, |ops|
  {
    if ops == [] then (if player == Alice then NEGATIVE_INFINITY else POSITIVE_INFINITY)
    else
      var before := ValueOver(b, ops[..|ops| - 1], player, it, limit);
      var v := Value(Apply(b, ops[|ops| - 1]), player.Other(), it + 1, limit);
      if player == Alice then (if v > before then v else before) else (if v < before then v else before)
  }

  /** The value of a board that is not a leaf is the greatest of its successors' values for Alice, and the
      least for Bill. */
  lemma {:induction false} ValueOverIsBest(b: Board, ops: seq<Operation>, player: Player, it: nat, limit: nat)
    requires OnBoard(ops) && it <= limit && ops != []
    ensures var v := ValueOver(b, ops, player, it, limit);
      (exists k :: 0 <= k < |ops| && v == Value(Apply(b, ops[k]), player.Other(), it + 1, limit))
      && (forall k :: 0 <= k < |ops| ==>
            if player == Alice then Value(Apply(b, ops[k]), player.Other(), it + 1, limit) <= v
            else Value(Apply(b, ops[k]), player.Other(), it + 1, limit) >= v)
    decreases |ops|
  {
    hide Value, Apply;
    var init, last := ops[..|ops| - 1], ops[|ops| - 1];
    if init != [] {
      ValueOverIsBest(b, init, player, it, limit);
      var k :| 0 <= k < |init| && ValueOver(b, init, player, it, limit) == Value(Apply(b, init[k]), player.Other(), it + 1, limit);
      assert init[k] == ops[k];
      forall j | 0 <= j < |init| ensures init[j] == ops[j] {
      }
    }
  }

  // ---------------------------------------------------------------------------------------------
  // The program

  class Game {
    var config: Board

    constructor (g: Game)
      ensures config == g.config
    {
      config := g.config;
    }

    method Set(p: Point, s: Square)
      requires p.OnBoard()
      modifies this
      ensures config == Put(old(config), p, s)
    {
      config := config[p.i := config[p.i][p.j := s]];
    }

    // apply_movement
    method ApplyMovement(op: Operation)
      requires op.from.OnBoard() && op.to.OnBoard()
      modifies this
      ensures config == Apply(old(config), op)
    {
      var original := At(config, op.from);
      Set(op.from, Dark);
      if op.kind == Jump {
        Set(Mid(op.from, op.to), Dark);
      }
      Set(op.to, original);
    }
  }

  // check_jump and check_move: the operations of all squares, row by row.
  method Generate(game: Game, player: Player, kind: Kind) returns (ret: bool, opList: seq<Operation>)
    ensures opList == Ops(game.config, player, kind, GRID) && ret == (opList != [])
  {
    hide OpsAt;
    opList := [];
    for i := 0 to GRID
      invariant opList == Ops(game.config, player, kind, i)
    {
      ghost var before := opList;
      for j := 0 to GRID
        invariant opList == before + RowOps(game.config, player, kind, i, j)
      {
        var ops := OperationsOf(game, player, kind, Point(i, j));
        opList := opList + ops;
      }
    }
    ret := opList != [];
  }

  // One square of check_jump or check_move: only kings are tried backwards.
  method OperationsOf(game: Game, player: Player, kind: Kind, start: Point) returns (ops: seq<Operation>)
    requires start.OnBoard()
    ensures ops == OpsAt(game.config, player, kind, start)
  {
    ops := [];
    var s := At(game.config, start);
    if Mine(player, s) {
      var king := s == AliceKing || s == BillKing;
      if player == Alice {
        ops := Found(game.config, kind, start, TopRight) + Found(game.config, kind, start, TopLeft);
        if king {
          ops := ops + Found(game.config, kind, start, BotRight) + Found(game.config, kind, start, BotLeft);
        }
      } else {
        ops := Found(game.config, kind, start, BotRight) + Found(game.config, kind, start, BotLeft);
        if king {
          ops := ops + Found(game.config, kind, start, TopRight) + Found(game.config, kind, start, TopLeft);
        }
      }
    }
  }

  // Whether one of the eight tests finds something for a piece.
  predicate CanAct(b: Board, start: Point)
    requires start.OnBoard()
  {
    || CheckJump(b, start, TopRight).Some? || CheckJump(b, start, TopLeft).Some?
    || CheckJump(b, start, BotRight).Some? || CheckJump(b, start, BotLeft).Some?
    || CheckMove(b, start, TopRight).Some? || CheckMove(b, start, TopLeft).Some?
    || CheckMove(b, start, BotRight).Some? || CheckMove(b, start, BotLeft).Some?
  }

  lemma CanActOps(b: Board, player: Player, start: Point)
    requires start.OnBoard()
    ensures Mine(player, At(b, start)) && CanAct(b, start)
       <==> OpsAt(b, player, Jump, start) != [] || OpsAt(b, player, Normal, start) != []
  {
    hide CheckJump, CheckMove;
  }

  // Operations of one square are among those of the board.
  lemma {:induction false} RowOpsEmpty(b: Board, player: Player, kind: Kind, i: int, j: nat)
    requires 0 <= i < GRID && j <= GRID
    ensures RowOps(b, player, kind, i, j) == [] <==> forall k :: 0 <= k < j ==> OpsAt(b, player, kind, Point(i, k)) == []
    decreases j
  {
    hide OpsAt;
    if j > 0 {
      RowOpsEmpty(b, player, kind, i, j - 1);
    }
  }

  lemma {:induction false} OpsEmpty(b: Board, player: Player, kind: Kind, i: nat)
    requires i <= GRID
    ensures Ops(b, player, kind, i) == [] <==>
      forall r, k :: 0 <= r < i && 0 <= k < GRID ==> OpsAt(b, player, kind, Point(r, k)) == []
    decreases i
  {
    hide OpsAt, RowOps;
    if i > 0 {
      OpsEmpty(b, player, kind, i - 1);
      RowOpsEmpty(b, player, kind, i - 1, GRID);
    }
  }

  /** A board has an operation to generate exactly when some piece passes one of its eight tests. */
  lemma OperatorsEmpty(b: Board, player: Player)
    ensures Operators(b, player) == [] <==>
      forall i, j :: 0 <= i < GRID && 0 <= j < GRID ==> !(Mine(player, b[i][j]) && CanAct(b, Point(i, j)))
  {
    hide OpsAt, Ops, CanAct;
    OpsEmpty(b, player, Jump, GRID);
    OpsEmpty(b, player, Normal, GRID);
    forall i, j | 0 <= i < GRID && 0 <= j < GRID
      ensures Mine(player, b[i][j]) && CanAct(b, Point(i, j)) <==>
        OpsAt(b, player, Jump, Point(i, j)) != [] || OpsAt(b, player, Normal, Point(i, j)) != []
    {
      CanActOps(b, player, Point(i, j));
    }
  }

  // The worth of both players' pieces.
  method CountPieces(game: Game) returns (alice: int, bill: int)
    ensures alice == Total(game.config, Alice) && bill == Total(game.config, Bill)
  {
    hide Weight;
    alice, bill := 0, 0;
    for i := 0 to GRID
      invariant alice == Pieces(game.config, Alice, i) && bill == Pieces(game.config, Bill, i)
    {
      ghost var a, b := alice, bill;
      for j := 0 to GRID
        invariant alice == a + RowPieces(game.config[i], Alice, j) && bill == b + RowPieces(game.config[i], Bill, j)
      {
        WeightIs(game.config[i][j]);
        match game.config[i][j] {
          case AlicePiece => alice := alice + 1;
          case BillPiece => bill := bill + 1;
          case AliceKing => alice := alice + KING_VALUE;
          case BillKing => bill := bill + KING_VALUE;
          case _ =>
        }
      }
    }
  }

  lemma WeightIs(s: Square)
    ensures Weight(Alice, s) == if s == AlicePiece then 1 else if s == AliceKing then KING_VALUE else 0
    ensures Weight(Bill, s) == if s == BillPiece then 1 else if s == BillKing then KING_VALUE else 0
  {
  }

  // terminal_test
  method TerminalTest(game: Game, move: Player) returns (terminal: bool, utility: int)
    ensures terminal == IsTerminal(game.config, move) && utility == Utility(game.config, move)
  {
    hide CanAct, Operators, Pieces;
    var alice, bill := CountPieces(game);
    if alice == 0 {
      return true, NEGATIVE_INFINITY;
    }
    if bill == 0 {
      return true, POSITIVE_INFINITY;
    }
    var noMove := true;
    OperatorsEmpty(game.config, move);
    for i := 0 to GRID
      invariant noMove ==> forall r, k :: 0 <= r < i && 0 <= k < GRID ==> !(Mine(move, game.config[r][k]) && CanAct(game.config, Point(r, k)))
      invariant !noMove ==> Operators(game.config, move) != []
    {
      for j := 0 to GRID
        invariant noMove ==> forall r, k :: 0 <= r < i && 0 <= k < GRID ==> !(Mine(move, game.config[r][k]) && CanAct(game.config, Point(r, k)))
        invariant noMove ==> forall k :: 0 <= k < j ==> !(Mine(move, game.config[i][k]) && CanAct(game.config, Point(i, k)))
        invariant !noMove ==> Operators(game.config, move) != []
      {
        if Mine(move, game.config[i][j]) && CanAct(game.config, Point(i, j)) {
          noMove := false;
        }
        if !noMove {
          break;
        }
      }
      if !noMove {
        break;
      }
    }
    if noMove {
      return true, if move == Alice then NEGATIVE_INFINITY else POSITIVE_INFINITY;
    }
    return false, alice - bill;
  }

  // r stands for v in the window from alpha to beta: it is v inside the window, and on the right side
  // of the window otherwise.
  predicate Agrees(r: int, v: int, alpha: int, beta: int) {
    && (v <= alpha ==> r <= alpha)
    && (alpha < v < beta ==> r == v)
    && (v >= beta ==> r >= beta)
  }

  // The operations to try: the moves only when there is no jump.
  method Candidates(game: Game, move: Player) returns (opList: seq<Operation>)
    ensures opList == Operators(game.config, move)
    ensures forall op :: op in opList <==>
      Legal(game.config, move, Jump, op) || (Legal(game.config, move, Normal, op) && forall j :: !Legal(game.config, move, Jump, j))
    ensures Ascending(opList, 0, GRID * GRID * 4)
  {
    hide Ops, Legal, Ascending;
    OpsAscend(game.config, move, Jump, GRID);
    OpsAscend(game.config, move, Normal, GRID);
    forall op { OperatorsLegal(game.config, move, op); }
    var jumps;
    jumps, opList := Generate(game, move, Jump);
    if !jumps {
      jumps, opList := Generate(game, move, Normal);
    }
  }

  // More operations are no worse.
  lemma {:induction false} ValueOverPrefix(b: Board, ops: seq<Operation>, player: Player, it: nat, limit: nat, k: nat)
    requires OnBoard(ops) && it <= limit && k <= |ops|
    ensures var v, w := ValueOver(b, ops[..k], player, it, limit), ValueOver(b, ops, player, it, limit);
      if player == Alice then v <= w else v >= w
    decreases |ops|
  {
    hide Value, Apply;
    if k < |ops| {
      ValueOverPrefix(b, ops[..|ops| - 1], player, it, limit, k);
      assert ops[..|ops| - 1][..k] == ops[..k];
    } else {
      assert ops[..k] == ops;
    }
  }

  // One more operation.
  lemma ValueOverNext(b: Board, ops: seq<Operation>, player: Player, it: nat, limit: nat, k: nat)
    requires OnBoard(ops) && it <= limit && k < |ops|
    ensures var v, before := Value(Apply(b, ops[k]), player.Other(), it + 1, limit), ValueOver(b, ops[..k], player, it, limit);
      ValueOver(b, ops[..k + 1], player, it, limit)
        == if player == Alice then (if v > before then v else before) else (if v < before then v else before)
  {
    hide Value, Apply;
    assert ops[..k + 1][..k] == ops[..k];
  }

  lemma ValueInside(b: Board, player: Player, it: nat, limit: nat)
    requires !IsTerminal(b, player) && it <= limit
    ensures OnBoard(Operators(b, player)) && Value(b, player, it, limit) == ValueOver(b, Operators(b, player), player, it, limit)
  {
    OperatorsOnBoard(b, player);
  }

  lemma ValueOverNothing(b: Board, player: Player, it: nat, limit: nat)
    requires it <= limit
    ensures ValueOver(b, [], player, it, limit) == if player == Alice then NEGATIVE_INFINITY else POSITIVE_INFINITY
  {
  }

  /** minmax_value agrees with plain minimax in its window. */
  method MinmaxValue(game: Game, move: Player, it0: nat, alpha0: int, beta0: int, limit: nat) returns (r: int)
    requires NEGATIVE_INFINITY <= alpha0 <= beta0 <= POSITIVE_INFINITY && it0 <= limit
    ensures NEGATIVE_INFINITY <= r <= POSITIVE_INFINITY
    ensures Agrees(r, Value(game.config, move, it0 + 1, limit), alpha0, beta0)
    decreases limit + 1 - it0
  {
    hide Apply, Operators, IsTerminal, Utility, ValueOver;
    var it := it0 + 1;
    var terminal, utility := TerminalTest(game, move);
    if terminal {
      return utility;
    }
    if it > limit {
      return utility;
    }
    ghost var b := game.config;
    var opList := Candidates(game, move);
    ValueInside(b, move, it, limit);
    ValueOverNothing(b, move, it, limit);
    assert opList[..0] == [];
    var alpha, beta := alpha0, beta0;
    if move == Alice {
      for k := 0 to |opList|
        invariant alpha0 <= alpha <= beta && (k == 0 || alpha < beta)
        invariant alpha == var m := ValueOver(b, opList[..k], move, it, limit); if m > alpha0 then m else alpha0
      {
        var tempGame := new Game(game);
        tempGame.ApplyMovement(opList[k]);
        var value := MinmaxValue(tempGame, Bill, it, alpha, beta, limit);
        ValueOverNext(b, opList, move, it, limit, k);
        if value > alpha {
          alpha := value;
        }
        if alpha >= beta {
          ValueOverPrefix(b, opList, move, it, limit, k + 1);
          return beta;
        }
      }
      assert opList[..|opList|] == opList;
      return alpha;
    } else {
      for k := 0 to |opList|
        invariant alpha <= beta <= beta0 && (k == 0 || alpha < beta)
        invariant beta == var m := ValueOver(b, opList[..k], move, it, limit); if m < beta0 then m else beta0
      {
        var tempGame := new Game(game);
        tempGame.ApplyMovement(opList[k]);
        var value := MinmaxValue(tempGame, Alice, it, alpha, beta, limit);
        ValueOverNext(b, opList, move, it, limit, k);
        if value < beta {
          beta := value;
        }
        if alpha >= beta {
          ValueOverPrefix(b, opList, move, it, limit, k + 1);
          return alpha;
        }
      }
      assert opList[..|opList|] == opList;
      return beta;
    }
  }

  // The value of the board after the k-th operation, with Bill to move.
  function After(b: Board, ops: seq<Operation>, k: nat, limit: nat): (v: int)
    requires OnBoard(ops) && k < |ops|
  {
    Value(Apply(b, ops[k]), Bill, 2, limit)
  }

  /** alpha_beta picks the first operation of greatest minimax value, unless all lose. It is a legal one, and a jump
      whenever there is one. */
  method Decide(game: Game, limit: nat) returns (decision: Option<Operation>)
    requires limit >= 1
    ensures OnBoard(Operators(game.config, Alice))
    ensures var b, ops := game.config, Operators(game.config, Alice);
      if forall k :: 0 <= k < |ops| ==> After(b, ops, k, limit) == NEGATIVE_INFINITY then decision == None
      else exists k :: 0 <= k < |ops| && decision == Some(ops[k]) && After(b, ops, k, limit) > NEGATIVE_INFINITY
             && (forall j :: 0 <= j < |ops| ==> After(b, ops, j, limit) <= After(b, ops, k, limit))
             && (forall j :: 0 <= j < k ==> After(b, ops, j, limit) < After(b, ops, k, limit))
    ensures decision.Some? ==>
      var d := decision.value;
      Legal(game.config, Alice, d.kind, d) && (d.kind == Jump || forall j :: !Legal(game.config, Alice, Jump, j))
  {
    hide Apply, Operators, Value, Legal, Ascending;
    ghost var b := game.config;
    var opList := Candidates(game, Alice);
    forall op | op in opList
      ensures Legal(b, Alice, op.kind, op) && (op.kind == Jump || forall j :: !Legal(b, Alice, Jump, j))
    {
      LegalOnBoard(b, Alice, Jump, op);
      LegalOnBoard(b, Alice, Normal, op);
    }
    OperatorsOnBoard(b, Alice);
    decision := None;
    var alpha, beta := NEGATIVE_INFINITY, POSITIVE_INFINITY;
    ghost var best := 0;
    for k := 0 to |opList|
      invariant alpha <= beta
      invariant forall j :: 0 <= j < k ==> After(b, opList, j, limit) <= alpha
      invariant decision == None <==> alpha == NEGATIVE_INFINITY
      invariant decision.Some? ==> best < k && decision == Some(opList[best]) && After(b, opList, best, limit) == alpha
      invariant decision.Some? ==> forall j :: 0 <= j < best ==> After(b, opList, j, limit) < alpha
    {
      var tempGame := new Game(game);
      tempGame.ApplyMovement(opList[k]);
      var value := MinmaxValue(tempGame, Bill, 1, alpha, beta, limit);
      if value > alpha {
        alpha := value;
        decision := Some(opList[k]);
        best := k;
      }
      if alpha > beta {
        return decision;
      }
    }
  }
}
