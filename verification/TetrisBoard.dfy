/** The board, the seven tetrominoes and the pure computations over them:
    collision, wall kicks, the straight drop, stamping a piece and clearing rows. */
module TetrisBoard {
  import opened Wrappers

  const BOARD_WIDTH := 10
  const BOARD_HEIGHT := 20

  datatype Kind = I | J | L | O | S | T | Z

  datatype Cell = Empty | Filled(kind: Kind)

  datatype Coordinate = Coordinate(x: int, y: int)

  type Row = row: seq<Cell> | |row| == BOARD_WIDTH witness seq(BOARD_WIDTH, _ => Empty)

  type Board = board: seq<Row> | |board| == BOARD_HEIGHT witness seq(BOARD_HEIGHT, _ => EmptyRow())

  type Rotation = r: nat | r < 4

  datatype Pose = Pose(kind: Kind, rotation: Rotation, x: int, y: int)

  const ROTATIONS: map<Kind, seq<seq<Coordinate>>> := map[
    I := [
      [Coordinate(0, 1), Coordinate(1, 1), Coordinate(2, 1), Coordinate(3, 1)],
      [Coordinate(2, 0), Coordinate(2, 1), Coordinate(2, 2), Coordinate(2, 3)],
      [Coordinate(0, 2), Coordinate(1, 2), Coordinate(2, 2), Coordinate(3, 2)],
      [Coordinate(1, 0), Coordinate(1, 1), Coordinate(1, 2), Coordinate(1, 3)]],
    J := [
      [Coordinate(0, 0), Coordinate(0, 1), Coordinate(1, 1), Coordinate(2, 1)],
      [Coordinate(1, 0), Coordinate(2, 0), Coordinate(1, 1), Coordinate(1, 2)],
      [Coordinate(0, 1), Coordinate(1, 1), Coordinate(2, 1), Coordinate(2, 2)],
      [Coordinate(1, 0), Coordinate(1, 1), Coordinate(0, 2), Coordinate(1, 2)]],
    L := [
      [Coordinate(2, 0), Coordinate(0, 1), Coordinate(1, 1), Coordinate(2, 1)],
      [Coordinate(1, 0), Coordinate(1, 1), Coordinate(1, 2), Coordinate(2, 2)],
      [Coordinate(0, 1), Coordinate(1, 1), Coordinate(2, 1), Coordinate(0, 2)],
      [Coordinate(0, 0), Coordinate(1, 0), Coordinate(1, 1), Coordinate(1, 2)]],
    O := [
      [Coordinate(1, 0), Coordinate(2, 0), Coordinate(1, 1), Coordinate(2, 1)],
      [Coordinate(1, 0), Coordinate(2, 0), Coordinate(1, 1), Coordinate(2, 1)],
      [Coordinate(1, 0), Coordinate(2, 0), Coordinate(1, 1), Coordinate(2, 1)],
      [Coordinate(1, 0), Coordinate(2, 0), Coordinate(1, 1), Coordinate(2, 1)]],
    S := [
      [Coordinate(1, 0), Coordinate(2, 0), Coordinate(0, 1), Coordinate(1, 1)],
      [Coordinate(1, 0), Coordinate(1, 1), Coordinate(2, 1), Coordinate(2, 2)],
      [Coordinate(1, 1), Coordinate(2, 1), Coordinate(0, 2), Coordinate(1, 2)],
      [Coordinate(0, 0), Coordinate(0, 1), Coordinate(1, 1), Coordinate(1, 2)]],
    T := [
      [Coordinate(1, 0), Coordinate(0, 1), Coordinate(1, 1), Coordinate(2, 1)],
      [Coordinate(1, 0), Coordinate(1, 1), Coordinate(2, 1), Coordinate(1, 2)],
      [Coordinate(0, 1), Coordinate(1, 1), Coordinate(2, 1), Coordinate(1, 2)],
      [Coordinate(1, 0), Coordinate(0, 1), Coordinate(1, 1), Coordinate(1, 2)]],
    Z := [
      [Coordinate(0, 0), Coordinate(1, 0), Coordinate(1, 1), Coordinate(2, 1)],
      [Coordinate(2, 0), Coordinate(1, 1), Coordinate(2, 1), Coordinate(1, 2)],
      [Coordinate(0, 1), Coordinate(1, 1), Coordinate(1, 2), Coordinate(2, 2)],
      [Coordinate(1, 0), Coordinate(0, 1), Coordinate(1, 1), Coordinate(0, 2)]]
  ]

  const KICKS: seq<int> := [0, -1, 1, -2, 2]

  function EmptyRow(): Row {
    seq(BOARD_WIDTH, _ => Empty)
  }

  function EmptyBoard(): Board {
    seq(BOARD_HEIGHT, _ => EmptyRow())
  }

  /** A tetromino is four cells of a 4 by 4 box. */
  function Shape(kind: Kind, rotation: Rotation): (shape: seq<Coordinate>)
    ensures |shape| == 4
    ensures forall i :: 0 <= i < 4 ==> 0 <= shape[i].x < 4 && 0 <= shape[i].y < 4
  {
    assert kind.I? || kind.J? || kind.L? || kind.O? || kind.S? || kind.T? || kind.Z?;
    assert rotation == 0 || rotation == 1 || rotation == 2 || rotation == 3;
    ROTATIONS[kind][rotation]
  }

  function Cells(piece: Pose): (cells: seq<Coordinate>)
    ensures |cells| == 4
    ensures forall i :: 0 <= i < 4 ==> piece.x <= cells[i].x < piece.x + 4 && piece.y <= cells[i].y < piece.y + 4
  {
    var shape := Shape(piece.kind, piece.rotation);
    seq(4, i requires 0 <= i < 4 => Coordinate(piece.x + shape[i].x, piece.y + shape[i].y))
  }

  lemma CellsDiffer(piece: Pose)
    ensures var cells := Cells(piece); forall i, j :: 0 <= i < j < 4 ==> cells[i] != cells[j]
  {
    var kind, rotation := piece.kind, piece.rotation;
    assert kind.I? || kind.J? || kind.L? || kind.O? || kind.S? || kind.T? || kind.Z?;
    assert rotation == 0 || rotation == 1 || rotation == 2 || rotation == 3;
    var shape := Shape(kind, rotation);
    assert forall i, j :: 0 <= i < j < 4 ==> shape[i] != shape[j];
  }

  /** How far a shape's box reaches: only the long piece needs four columns to turn. */
  function Reach(kind: Kind): nat {
    if kind.I? then 3 else 2
  }

  function Turned(kind: Kind, cell: Coordinate): Coordinate {
    if kind.O? then cell else Coordinate(Reach(kind) - cell.y, cell.x)
  }

  /** Each rotation of the table is the one before it turned clockwise within its box; the square stays as it is. Since
      the four cells differ, they are all there is. */
  lemma RotationTurnsShape(kind: Kind, rotation: Rotation)
    ensures forall i :: 0 <= i < 4 ==> Turned(kind, Shape(kind, rotation)[i]) in Shape(kind, (rotation + 1) % 4)
  {
    assert kind.I? || kind.J? || kind.L? || kind.O? || kind.S? || kind.T? || kind.Z?;
    assert rotation == 0 || rotation == 1 || rotation == 2 || rotation == 3;
  }

  /** A cell outside the side walls or the floor, or on an occupied square; rows above the board are free. */
  predicate Blocked(board: Board, cell: Coordinate) {
    || cell.x < 0
    || cell.x >= BOARD_WIDTH
    || cell.y >= BOARD_HEIGHT
    || (cell.y >= 0 && board[cell.y][cell.x] != Empty)
  }

  predicate Collides(board: Board, piece: Pose) {
    exists i :: 0 <= i < 4 && Blocked(board, Cells(piece)[i])
  }

  /** A piece is free exactly where all of its cells are between the walls and above the floor, and those that are on
      the board are on empty squares. */
  lemma FreeExactlyIf(board: Board, piece: Pose)
    ensures !Collides(board, piece) <==>
            forall i :: 0 <= i < 4 ==>
              var cell := Cells(piece)[i];
              0 <= cell.x < BOARD_WIDTH && (cell.y < 0 || (cell.y < BOARD_HEIGHT && board[cell.y][cell.x] == Empty))
  {
    if Collides(board, piece) {
      var i :| 0 <= i < 4 && Blocked(board, Cells(piece)[i]);
    }
  }

  function Kicked(piece: Pose, offset: int): Pose {
    piece.(x := piece.x + offset)
  }

  function FirstFree(board: Board, piece: Pose, offsets: seq<int>): Option<Pose> {
    if offsets == [] then None
    else
      var candidate := Kicked(piece, offsets[0]);
      if !Collides(board, candidate) then Some(candidate) else FirstFree(board, piece, offsets[1..])
  }

  function RotatedPiece(board: Board, piece: Pose): Option<Pose> {
    FirstFree(board, piece.(rotation := (piece.rotation + 1) % 4), KICKS)
  }

  lemma {:induction false} FirstFreeIsFree(board: Board, piece: Pose, offsets: seq<int>)
    ensures var free := FirstFree(board, piece, offsets);
            free.Some? ==> !Collides(board, free.value) && free.value.y == piece.y
                           && free.value.kind == piece.kind && free.value.rotation == piece.rotation
  {
    if offsets != [] { FirstFreeIsFree(board, piece, offsets[1..]); }
  }

  /** The offset at this place gives the pose, which is free, and none before it does. */
  ghost predicate IsFirstFree(board: Board, piece: Pose, offsets: seq<int>, i: nat, free: Pose) {
    && i < |offsets| && free == Kicked(piece, offsets[i]) && !Collides(board, free)
    && forall j :: 0 <= j < i ==> Collides(board, Kicked(piece, offsets[j]))
  }

  lemma {:induction false} FirstOfOffsets(board: Board, piece: Pose, offsets: seq<int>)
    ensures var free := FirstFree(board, piece, offsets);
            if free.Some? then exists i: nat :: IsFirstFree(board, piece, offsets, i, free.value)
            else forall i :: 0 <= i < |offsets| ==> Collides(board, Kicked(piece, offsets[i]))
  {
    hide Collides;
    if offsets == [] || !Collides(board, Kicked(piece, offsets[0])) {
      assert offsets != [] ==> IsFirstFree(board, piece, offsets, 0, Kicked(piece, offsets[0]));
    } else {
      FirstOfOffsets(board, piece, offsets[1..]);
      var free := FirstFree(board, piece, offsets[1..]);
      if free.Some? {
        var i: nat :| IsFirstFree(board, piece, offsets[1..], i, free.value);
        assert IsFirstFree(board, piece, offsets, i + 1, free.value) by {
          assert forall j :: 0 < j < |offsets| ==> offsets[j] == offsets[1..][j - 1];
        }
      } else {
        assert forall i :: 0 < i < |offsets| ==> offsets[i] == offsets[1..][i - 1];
      }
    }
  }

  /** A rotation takes the first of the five kicks that is free, and fails only if all of them collide. */
  lemma RotationTakesFirstFreeKick(board: Board, piece: Pose)
    ensures var turned := piece.(rotation := (piece.rotation + 1) % 4);
            var rotated := RotatedPiece(board, piece);
            && (rotated.None? <==>
                  && Collides(board, turned)
                  && Collides(board, Kicked(turned, -1)) && Collides(board, Kicked(turned, 1))
                  && Collides(board, Kicked(turned, -2)) && Collides(board, Kicked(turned, 2)))
            && (rotated.Some? ==> exists i: nat :: IsFirstFree(board, turned, KICKS, i, rotated.value))
            && (!Collides(board, turned) ==> rotated == Some(turned))
  {
    hide Collides;
    var turned := piece.(rotation := (piece.rotation + 1) % 4);
    FirstOfOffsets(board, turned, KICKS);
    assert Kicked(turned, KICKS[0]) == turned && KICKS[1] == -1 && KICKS[2] == 1 && KICKS[3] == -2 && KICKS[4] == 2;
    if RotatedPiece(board, piece).Some? {
      var i: nat :| IsFirstFree(board, turned, KICKS, i, RotatedPiece(board, piece).value);
      assert i == 0 || i == 1 || i == 2 || i == 3 || i == 4;
    }
  }

  function Down(piece: Pose): Pose {
    piece.(y := piece.y + 1)
  }

  /** Where the piece comes to rest when it falls straight down. */
  function Landing(board: Board, piece: Pose): Pose
    decreases BOARD_HEIGHT - piece.y
  {
    if Collides(board, Down(piece)) then piece
    else
      assert !Blocked(board, Cells(Down(piece))[0]);
      Landing(board, Down(piece))
  }

  lemma {:induction false} LandingRests(board: Board, piece: Pose)
    requires !Collides(board, piece)
    ensures var rest := Landing(board, piece);
            && rest.y >= piece.y && rest == piece.(y := rest.y)
            && !Collides(board, rest) && Collides(board, Down(rest))
            && forall y :: piece.y <= y <= rest.y ==> !Collides(board, piece.(y := y))
    decreases BOARD_HEIGHT - piece.y
  {
    if !Collides(board, Down(piece)) {
      assert !Blocked(board, Cells(Down(piece))[0]);
      LandingRests(board, Down(piece));
      var rest := Landing(board, piece);
      forall y | piece.y <= y <= rest.y
        ensures !Collides(board, piece.(y := y))
      {
        assert y > piece.y ==> Down(piece).(y := y) == piece.(y := y);
        assert y == piece.y ==> piece.(y := y) == piece;
      }
    }
  }

  function SetCell(board: Board, cell: Coordinate, kind: Kind): Board
    requires 0 <= cell.x < BOARD_WIDTH && 0 <= cell.y < BOARD_HEIGHT
  {
    board[cell.y := board[cell.y][cell.x := Filled(kind)]]
  }

  /** The board after the first n cells are filled; filling stops for good at a cell above the board. */
  function Stamp(board: Board, cells: seq<Coordinate>, kind: Kind): Board
    requires forall i :: 0 <= i < |cells| ==> 0 <= cells[i].x < BOARD_WIDTH && cells[i].y < BOARD_HEIGHT
    decreases |cells|
  {
    if cells == [] || cells[0].y < 0 then board
    else Stamp(SetCell(board, cells[0], kind), cells[1..], kind)
  }

  predicate IsFull(row: Row) {
    forall x :: 0 <= x < BOARD_WIDTH ==> row[x] != Empty
  }

  predicate NoFullRow(rows: seq<Row>) {
    forall y :: 0 <= y < |rows| ==> !IsFull(rows[y])
  }

  /** The rows that survive clearing, in their order. */
  function Remaining(rows: seq<Row>): (kept: seq<Row>)
    ensures |kept| <= |rows|
    ensures NoFullRow(kept)
  {
    if rows == [] then []
    else if IsFull(rows[0]) then Remaining(rows[1..])
    else [rows[0]] + Remaining(rows[1..])
  }

  datatype Clearing = Clearing(board: Board, lines: nat)

  function ClearedBoard(board: Board): Clearing {
    var remaining := Remaining(board);
    var lines := BOARD_HEIGHT - |remaining|;
    Clearing(seq(lines, _ => EmptyRow()) + remaining, lines)
  }

  // ---------------------------------------------------------------- counting

  function RowCount(row: seq<Cell>): nat {
    if row == [] then 0 else (if row[0] == Empty then 0 else 1) + RowCount(row[1..])
  }

  /** The number of occupied cells. */
  function Occupied(rows: seq<Row>): nat {
    if rows == [] then 0 else RowCount(rows[0]) + Occupied(rows[1..])
  }

  /** The number of rows without a gap. */
  function FullRows(rows: seq<Row>): nat {
    if rows == [] then 0 else (if IsFull(rows[0]) then 1 else 0) + FullRows(rows[1..])
  }

  lemma {:induction false} RowCountUpdate(row: seq<Cell>, x: nat, kind: Kind)
    requires x < |row| && row[x] == Empty
    ensures RowCount(row[x := Filled(kind)]) == RowCount(row) + 1
  {
    var after := row[x := Filled(kind)];
    if x == 0 {
      assert after[1..] == row[1..];
    } else {
      assert after[1..] == row[1..][x - 1 := Filled(kind)];
      RowCountUpdate(row[1..], x - 1, kind);
    }
  }

  lemma {:induction false} RowCountFull(row: seq<Cell>)
    requires forall x :: 0 <= x < |row| ==> row[x] != Empty
    ensures RowCount(row) == |row|
  {
    if row != [] { RowCountFull(row[1..]); }
  }

  lemma {:induction false} RowCountEmpty(row: seq<Cell>)
    requires forall x :: 0 <= x < |row| ==> row[x] == Empty
    ensures RowCount(row) == 0
  {
    if row != [] { RowCountEmpty(row[1..]); }
  }

  lemma {:induction false} OccupiedUpdate(rows: seq<Row>, y: nat, x: nat, kind: Kind)
    requires y < |rows| && x < BOARD_WIDTH && rows[y][x] == Empty
    ensures var after := rows[y := rows[y][x := Filled(kind)]];
            && Occupied(after) == Occupied(rows) + 1
            && FullRows(rows) <= FullRows(after) <= FullRows(rows) + 1
  {
    var row: Row := rows[y][x := Filled(kind)];
    var after := rows[y := row];
    RowCountUpdate(rows[y], x, kind);
    if y == 0 {
      assert after[1..] == rows[1..];
    } else {
      assert after[1..] == rows[1..][y - 1 := row];
      OccupiedUpdate(rows[1..], y - 1, x, kind);
    }
  }

  lemma {:induction false} OccupiedAppend(above: seq<Row>, below: seq<Row>)
    ensures Occupied(above + below) == Occupied(above) + Occupied(below)
  {
    if above == [] {
      assert above + below == below;
    } else {
      assert (above + below)[1..] == above[1..] + below;
      OccupiedAppend(above[1..], below);
    }
  }

  lemma {:induction false} OccupiedEmptyRows(rows: seq<Row>)
    requires forall y :: 0 <= y < |rows| ==> rows[y] == EmptyRow()
    ensures Occupied(rows) == 0 && FullRows(rows) == 0
  {
    if rows != [] {
      RowCountEmpty(rows[0]);
      assert rows[0][0] == Empty;
      OccupiedEmptyRows(rows[1..]);
    }
  }

  lemma {:induction false} RemainingCounts(rows: seq<Row>)
    ensures |Remaining(rows)| == |rows| - FullRows(rows)
    ensures Occupied(Remaining(rows)) == Occupied(rows) - BOARD_WIDTH * FullRows(rows)
  {
    if rows != [] {
      RemainingCounts(rows[1..]);
      if IsFull(rows[0]) {
        RowCountFull(rows[0]);
      } else {
        assert ([rows[0]] + Remaining(rows[1..]))[1..] == Remaining(rows[1..]);
      }
    }
  }

  lemma {:induction false} NoFullRowsIsZero(rows: seq<Row>)
    ensures NoFullRow(rows) <==> FullRows(rows) == 0
  {
    if rows != [] {
      NoFullRowsIsZero(rows[1..]);
      assert NoFullRow(rows) ==> NoFullRow(rows[1..]) && !IsFull(rows[0]);
      assert NoFullRow(rows[1..]) && !IsFull(rows[0]) ==> NoFullRow(rows) by {
        assert forall y :: 0 < y < |rows| ==> rows[y] == rows[1..][y - 1];
      }
    }
  }

  /** Clearing removes exactly the full rows: nothing full is left and each cleared row takes ten cells away. */
  lemma ClearingConserves(board: Board)
    ensures var cleared := ClearedBoard(board);
            && cleared.lines == FullRows(board)
            && NoFullRow(cleared.board)
            && Occupied(cleared.board) == Occupied(board) - BOARD_WIDTH * cleared.lines
  {
    hide NoFullRow, IsFull;
    RemainingCounts(board);
    var kept := Remaining(board);
    var cleared := ClearedBoard(board);
    var padding: seq<Row> := seq(cleared.lines, _ => EmptyRow());
    OccupiedEmptyRows(padding);
    OccupiedAppend(padding, kept);
    assert cleared.board == padding + kept;
    NothingFullIsLeft(board);
  }

  lemma NothingFullIsLeft(board: Board)
    ensures NoFullRow(ClearedBoard(board).board)
  {
    hide Occupied;
    RemainingCounts(board);
    var kept := Remaining(board);
    var cleared := ClearedBoard(board);
    forall y | 0 <= y < BOARD_HEIGHT
      ensures !IsFull(cleared.board[y])
    {
      if y < cleared.lines {
        assert cleared.board[y][0] == Empty;
      } else {
        assert cleared.board[y] == kept[y - cleared.lines];
      }
    }
  }

  /** Stamping fills exactly the given squares, with the given kind. */
  lemma {:induction false} StampFillsExactly(board: Board, cells: seq<Coordinate>, kind: Kind, x: nat, y: nat)
    requires forall i :: 0 <= i < |cells| ==> 0 <= cells[i].x < BOARD_WIDTH && 0 <= cells[i].y < BOARD_HEIGHT
    requires x < BOARD_WIDTH && y < BOARD_HEIGHT
    ensures Stamp(board, cells, kind)[y][x] == if Coordinate(x, y) in cells then Filled(kind) else board[y][x]
    decreases |cells|
  {
    if cells != [] {
      StampFillsExactly(SetCell(board, cells[0], kind), cells[1..], kind, x, y);
      assert cells == [cells[0]] + cells[1..];
    }
  }

  lemma {:induction false} KeptBelow(rows: seq<Row>, y: nat)
    requires y < |rows| && !IsFull(rows[y])
    ensures var place := |Remaining(rows)| - (|rows| - y - FullRows(rows[y + 1..]));
            0 <= place < |Remaining(rows)| && Remaining(rows)[place] == rows[y]
  {
    if y == 0 {
      RemainingCounts(rows[1..]);
    } else {
      KeptBelow(rows[1..], y - 1);
      assert rows[1..][y..] == rows[y + 1..];
    }
  }

  /** The rows that are not full fall, in their order, by as many rows as were full below them; as many empty ones as
      were full come in at the top. */
  lemma RowsFall(board: Board)
    ensures var (after, lines) := (ClearedBoard(board).board, FullRows(board));
            && lines <= BOARD_HEIGHT
            && (forall y, x :: 0 <= y < lines && 0 <= x < BOARD_WIDTH ==> after[y][x] == Empty)
            && forall y :: 0 <= y < BOARD_HEIGHT && !IsFull(board[y]) ==>
                 var fallen := y + FullRows(board[y + 1..]);
                 lines <= fallen < BOARD_HEIGHT && after[fallen] == board[y]
  {
    hide IsFull, FullRows;
    RemainingCounts(board);
    forall y | 0 <= y < BOARD_HEIGHT && !IsFull(board[y])
      ensures var fallen := y + FullRows(board[y + 1..]);
              FullRows(board) <= fallen < BOARD_HEIGHT && ClearedBoard(board).board[fallen] == board[y]
    {
      KeptBelow(board, y);
    }
  }

  /** Filling k different free cells adds k occupied cells and completes at most k rows. */
  lemma {:induction false} StampCounts(board: Board, cells: seq<Coordinate>, kind: Kind)
    requires forall i :: 0 <= i < |cells| ==> 0 <= cells[i].x < BOARD_WIDTH && 0 <= cells[i].y < BOARD_HEIGHT
    requires forall i :: 0 <= i < |cells| ==> board[cells[i].y][cells[i].x] == Empty
    requires forall i, j :: 0 <= i < j < |cells| ==> cells[i] != cells[j]
    ensures var after := Stamp(board, cells, kind);
            && Occupied(after) == Occupied(board) + |cells|
            && FullRows(after) <= FullRows(board) + |cells|
    decreases |cells|
  {
    if cells != [] {
      OccupiedUpdate(board, cells[0].y, cells[0].x, kind);
      StampCounts(SetCell(board, cells[0], kind), cells[1..], kind);
    }
  }
}
