/**
 * The drag-and-drop chess tutorial (ui/src/renderer/dnd_tut.tsx, and its
 * older copy app/src/dnd_tut.tsx, whose rules are the same): kings and
 * pawns on an 8x8 board, the move rule a square consults while a piece is
 * dragged over it, and the store update when the piece is dropped.
 */
module Chess {
  import opened Wrappers

  const BoardSize: int := 8

  datatype Coord = Coord(row: int, col: int)
  datatype PieceKind = King | Pawn
  datatype Piece = Piece(kind: PieceKind, location: Coord)

  /** `isCoordEqual`: both components compared. */
  predicate CoordEqual(a: Coord, b: Coord)
    ensures CoordEqual(a, b) <==> a == b
  {
    a.row == b.row && a.col == b.col
  }

  function Abs(x: int): (r: nat)
    ensures r == x || r == -x
  {
    if x < 0 then -x else x
  }

  /** `pieces.find(p => isCoordEqual(p.location, at))`: the first piece standing on `at`. */
  function FirstAt(pieces: seq<Piece>, at: Coord): (r: Option<nat>)
    ensures r.None? <==> forall i | 0 <= i < |pieces| :: pieces[i].location != at
    ensures r.Some? ==> r.value < |pieces| && pieces[r.value].location == at
    ensures r.Some? ==> forall i | 0 <= i < r.value :: pieces[i].location != at
  {
    if |pieces| == 0 then None
    else if CoordEqual(pieces[0].location, at) then Some(0)
    else match FirstAt(pieces[1..], at)
      case None => None
      case Some(i) => Some(i + 1)
  }

  predicate Occupied(pieces: seq<Piece>, at: Coord) {
    exists i | 0 <= i < |pieces| :: pieces[i].location == at
  }

  /**
   * `canMove`: never onto an occupied square; a king one step (or none) on
   * each axis; a pawn one row down the board in its own column.
   */
  predicate CanMove(kind: PieceKind, src: Coord, dst: Coord, pieces: seq<Piece>)
  {
    if FirstAt(pieces, dst).Some? then false
    else
      var rowDist := Abs(src.row - dst.row);
      var colDist := Abs(src.col - dst.col);
      match kind
      case King => (rowDist == 0 || rowDist == 1) && (colDist == 0 || colDist == 1)
      case Pawn => colDist == 0 && src.row - dst.row == -1
  }

  /** The move rule spelled out in chess terms, both directions. */
  lemma CanMoveRule(kind: PieceKind, src: Coord, dst: Coord, pieces: seq<Piece>)
    ensures CanMove(kind, src, dst, pieces) <==>
      !Occupied(pieces, dst) &&
      (kind == King ==> -1 <= dst.row - src.row <= 1 && -1 <= dst.col - src.col <= 1) &&
      (kind == Pawn ==> dst.col == src.col && dst.row == src.row + 1)
  {
  }

  /** A piece that is on the board never moves onto its own square: that square is occupied by itself. */
  lemma NoMoveInPlace(kind: PieceKind, src: Coord, dst: Coord, pieces: seq<Piece>)
    requires Occupied(pieces, src)
    requires CanMove(kind, src, dst, pieces)
    ensures dst != src
  {
  }

  /** A pawn's move is never undone by another pawn move: it only goes forward. */
  lemma PawnNeverReturns(src: Coord, dst: Coord, p1: seq<Piece>, p2: seq<Piece>)
    requires CanMove(Pawn, src, dst, p1)
    ensures !CanMove(Pawn, dst, src, p2)
  {
  }

  /** `canDrop`: a square accepts any dragged piece except one that starts on it. */
  predicate CanDrop(from: Coord, square: Coord)
    ensures CanDrop(from, square) <==> from != square
  {
    !CoordEqual(from, square)
  }

  /** JavaScript's `%`, which truncates toward zero. */
  function JsRem(a: int, b: int): (r: int)
    requires b > 0
    ensures a >= 0 ==> r == a % b
    ensures a < 0 ==> r == -((-a) % b)
  {
    if a >= 0 then a % b else -((-a) % b)
  }

  /** `isDark`: `(row + col) % 2 === 1`. */
  predicate IsDark(at: Coord) {
    JsRem(at.row + at.col, 2) == 1
  }

  predicate OnBoard(at: Coord) {
    0 <= at.row < BoardSize && 0 <= at.col < BoardSize
  }

  /** On the board, a square is dark exactly when its row and column differ in parity, so colours alternate along rows and columns. */
  lemma DarkSquares(at: Coord)
    requires OnBoard(at)
    ensures IsDark(at) <==> (at.row % 2 != at.col % 2)
    ensures at.col + 1 < BoardSize ==> IsDark(Coord(at.row, at.col + 1)) != IsDark(at)
    ensures at.row + 1 < BoardSize ==> IsDark(Coord(at.row + 1, at.col)) != IsDark(at)
  {
    DarkParity(at.row, at.col);
    DarkParity(at.row, at.col + 1);
    DarkParity(at.row + 1, at.col);
  }

  /** For squares with non-negative coordinates, dark means row and column differ in parity. */
  lemma DarkParity(row: nat, col: nat)
    ensures IsDark(Coord(row, col)) <==> row % 2 != col % 2
  {
    assert JsRem(row + col, 2) == (row + col) % 2;
  }

  /**
   * The monitor's `onDrop`, given the piece data that was dragged (its kind
   * and starting square) and the square under the mouse, if any. The
   * square is only a drop target when `canDrop` allows it. When the move is
   * legal and a piece stands on the start square, the first such piece is
   * taken out, and a piece of its kind on the destination is put first;
   * otherwise nothing changes.
   */
  function OnDrop(pieces: seq<Piece>, kind: PieceKind, src: Coord, square: Option<Coord>): (r: seq<Piece>)
    ensures square.None? || !CanDrop(src, square.value) ==> r == pieces
    ensures square.Some? && CanDrop(src, square.value) ==>
      var dst := square.value;
      match FirstAt(pieces, src)
      case None => r == pieces
      case Some(k) =>
        if CanMove(kind, src, dst, pieces)
        then r == [Piece(pieces[k].kind, dst)] + pieces[..k] + pieces[k + 1..]
        else r == pieces
  {
    match square
    case None => pieces
    case Some(dst) =>
      if !CanDrop(src, dst) then pieces
      else match FirstAt(pieces, src)
        case None => pieces
        case Some(k) =>
          if CanMove(kind, src, dst, pieces) then [Piece(pieces[k].kind, dst)] + pieces[..k] + pieces[k + 1..]
          else pieces
  }

  /** No two pieces share a square. */
  predicate DistinctSquares(pieces: seq<Piece>) {
    forall i, j | 0 <= i < j < |pieces| :: pieces[i].location != pieces[j].location
  }

  function Kinds(pieces: seq<Piece>): (r: seq<PieceKind>)
    ensures |r| == |pieces| && forall i | 0 <= i < |pieces| :: r[i] == pieces[i].kind
  {
    seq(|pieces|, i requires 0 <= i < |pieces| => pieces[i].kind)
  }

  /** Taking out the first piece on a square and leaving the rest in order keeps every other piece where it was found. */
  lemma {:induction false} FirstAtWithout(pieces: seq<Piece>, k: nat, at: Coord)
    requires k < |pieces| && pieces[k].location != at
    ensures FirstAt(pieces[..k] + pieces[k + 1..], at).None? <==> FirstAt(pieces, at).None?
    ensures FirstAt(pieces, at).Some? ==>
      (pieces[..k] + pieces[k + 1..])[FirstAt(pieces[..k] + pieces[k + 1..], at).value] == pieces[FirstAt(pieces, at).value]
  {
    if k == 0 {
      assert pieces[..k] + pieces[k + 1..] == pieces[1..];
    } else {
      var rest := pieces[1..];
      FirstAtWithout(rest, k - 1, at);
      assert rest[..k - 1] + rest[k..] == (pieces[..k] + pieces[k + 1..])[1..];
      assert (pieces[..k] + pieces[k + 1..])[0] == pieces[0];
    }
  }

  /** What a piece on a square looks like from the board: the first piece standing there. */
  function PieceAt(pieces: seq<Piece>, at: Coord): (r: Option<Piece>)
    ensures r.Some? <==> Occupied(pieces, at)
    ensures r.Some? ==> r.value.location == at
  {
    match FirstAt(pieces, at)
    case None => None
    case Some(i) => Some(pieces[i])
  }

  /**
   * A legal drop: the dragged piece now stands on the destination, its start
   * square is empty when squares were distinct, every other square shows
   * what it showed before, the pieces are the same kinds in the same
   * numbers, and squares stay distinct.
   */
  lemma LegalDrop(pieces: seq<Piece>, kind: PieceKind, src: Coord, dst: Coord)
    requires DistinctSquares(pieces)
    requires src != dst && Occupied(pieces, src) && CanMove(kind, src, dst, pieces)
    ensures var r := OnDrop(pieces, kind, src, Some(dst));
      && |r| == |pieces|
      && PieceAt(r, dst) == Some(Piece(PieceAt(pieces, src).value.kind, dst))
      && !Occupied(r, src)
      && (forall c | c != src && c != dst :: PieceAt(r, c) == PieceAt(pieces, c))
      && multiset(Kinds(r)) == multiset(Kinds(pieces))
      && DistinctSquares(r)
  {
    var k := FirstAt(pieces, src).value;
    var r := OnDrop(pieces, kind, src, Some(dst));
    var rest := pieces[..k] + pieces[k + 1..];
    assert r == [Piece(pieces[k].kind, dst)] + rest;
    DroppedRest(pieces, k, src, dst, rest);
    DroppedPlaces(pieces, k, src, dst, rest, r);
    DroppedKinds(pieces, k, dst, r);
    DroppedDistinct(pieces, k, dst, rest, r);
  }

  /** With squares distinct, the pieces left behind stand on neither the start nor the destination. */
  lemma DroppedRest(pieces: seq<Piece>, k: nat, src: Coord, dst: Coord, rest: seq<Piece>)
    requires DistinctSquares(pieces) && k < |pieces| && pieces[k].location == src && !Occupied(pieces, dst)
    requires rest == pieces[..k] + pieces[k + 1..]
    ensures forall i | 0 <= i < |rest| :: rest[i].location != src && rest[i].location != dst
  {
    forall i | 0 <= i < |rest|
      ensures rest[i].location != src && rest[i].location != dst
    {
      if i < k { assert rest[i] == pieces[i]; } else { assert rest[i] == pieces[i + 1]; }
    }
  }

  /** The piece taken from `k` now leads the list on `dst`; every other square reads as before. */
  lemma DroppedPlaces(pieces: seq<Piece>, k: nat, src: Coord, dst: Coord, rest: seq<Piece>, r: seq<Piece>)
    requires k < |pieces| && pieces[k].location == src && src != dst
    requires FirstAt(pieces, src) == Some(k)
    requires rest == pieces[..k] + pieces[k + 1..]
    requires forall i | 0 <= i < |rest| :: rest[i].location != src
    requires r == [Piece(pieces[k].kind, dst)] + rest
    ensures PieceAt(r, dst) == Some(Piece(pieces[k].kind, dst))
    ensures !Occupied(r, src)
    ensures forall c | c != src && c != dst :: PieceAt(r, c) == PieceAt(pieces, c)
  {
    assert r[1..] == rest;
    forall c | c != src && c != dst
      ensures PieceAt(r, c) == PieceAt(pieces, c)
    {
      FirstAtWithout(pieces, k, c);
    }
    forall i | 0 <= i < |r| ensures r[i].location != src {
      if i > 0 { assert r[i] == rest[i - 1]; }
    }
  }

  /** Moving one piece to the front keeps the kinds and their numbers. */
  lemma DroppedKinds(pieces: seq<Piece>, k: nat, dst: Coord, r: seq<Piece>)
    requires k < |pieces|
    requires r == [Piece(pieces[k].kind, dst)] + pieces[..k] + pieces[k + 1..]
    ensures |r| == |pieces|
    ensures multiset(Kinds(r)) == multiset(Kinds(pieces))
  {
    assert pieces == pieces[..k] + [pieces[k]] + pieces[k + 1..];
    assert Kinds(pieces) == Kinds(pieces[..k]) + [pieces[k].kind] + Kinds(pieces[k + 1..]);
    assert Kinds(r) == [pieces[k].kind] + Kinds(pieces[..k]) + Kinds(pieces[k + 1..]);
  }

  /** Squares stay distinct when the moved piece lands where nothing else stands. */
  lemma DroppedDistinct(pieces: seq<Piece>, k: nat, dst: Coord, rest: seq<Piece>, r: seq<Piece>)
    requires DistinctSquares(pieces) && k < |pieces|
    requires rest == pieces[..k] + pieces[k + 1..]
    requires forall i | 0 <= i < |rest| :: rest[i].location != dst
    requires r == [Piece(pieces[k].kind, dst)] + rest
    ensures DistinctSquares(r)
  {
    forall i, j | 0 <= i < j < |r| ensures r[i].location != r[j].location {
      if i > 0 {
        var a := if i - 1 < k then i - 1 else i;
        var b := if j - 1 < k then j - 1 else j;
        assert r[i] == pieces[a] && r[j] == pieces[b] && a < b;
      } else {
        assert r[j] == rest[j - 1];
      }
    }
  }

  /** A drop the rules reject, or with no square under the mouse, leaves the pieces as they were. */
  lemma IllegalDropUnchanged(pieces: seq<Piece>, kind: PieceKind, src: Coord, square: Option<Coord>)
    requires square.None? || !CanMove(kind, src, square.value, pieces)
    ensures OnDrop(pieces, kind, src, square) == pieces
  {
  }

  /** The tutorial's starting position: a king on (3, 2) and a pawn on (1, 6). */
  function InitialPieces(): (r: seq<Piece>)
    ensures DistinctSquares(r) && forall i | 0 <= i < |r| :: OnBoard(r[i].location)
  {
    [Piece(King, Coord(3, 2)), Piece(Pawn, Coord(1, 6))]
  }

  /**
   * `renderSquares`: the 64 squares row by row, each showing the kind of the
   * first piece standing on it.
   */
  method RenderSquares(pieces: seq<Piece>) returns (squares: seq<Option<PieceKind>>)
    ensures |squares| == BoardSize * BoardSize
    ensures forall row, col | 0 <= row < BoardSize && 0 <= col < BoardSize ::
      squares[row * BoardSize + col] == (if Occupied(pieces, Coord(row, col)) then Some(PieceAt(pieces, Coord(row, col)).value.kind) else None)
  {
    squares := [];
    var row := 0;
    while row < BoardSize
      invariant 0 <= row <= BoardSize
      invariant |squares| == row * BoardSize
      invariant forall r, c | 0 <= r < row && 0 <= c < BoardSize ::
        squares[r * BoardSize + c] == Shown(pieces, Coord(r, c))
    {
      var col := 0;
      while col < BoardSize
        invariant 0 <= col <= BoardSize
        invariant |squares| == row * BoardSize + col
        invariant forall r, c | 0 <= r < row && 0 <= c < BoardSize ::
          squares[r * BoardSize + c] == Shown(pieces, Coord(r, c))
        invariant forall c | 0 <= c < col :: squares[row * BoardSize + c] == Shown(pieces, Coord(row, c))
      {
        squares := squares + [Shown(pieces, Coord(row, col))];
        col := col + 1;
      }
      row := row + 1;
    }
  }

  function Shown(pieces: seq<Piece>, at: Coord): Option<PieceKind> {
    match PieceAt(pieces, at)
    case None => None
    case Some(p) => Some(p.kind)
  }
}
