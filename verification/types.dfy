/** Value types shared by the move selector and the interaction controller,
    and the interface to the board code that this model does not see. */
module ChessTypes {

  datatype Option<+T> = None | Some(value: T)

  /** The two sides; the program spells them 'white' and 'black'. */
  datatype Color = White | Black

  /** A piece. `id` stands for the object identity the program relies on
      (two black pawns are different pieces). */
  datatype Piece = Piece(id: nat, color: Color)

  /** A grid cell index, as produced by dividing a pixel coordinate of the
      window by the square size. */
  type Coord = x: int | 0 <= x < 8

  datatype Square = Square(row: int, col: int)

  /** A move from `initial` to `final`. Moves produced by the board's move
      generator carry the moving piece; a move built from a mouse drag
      carries none. */
  datatype Move = Move(initial: Square, final: Square, piece: Option<Piece>)

  /** Passing the turn to the other side. */
  function Flip(c: Color): (r: Color)
    ensures r != c
  {
    if c == White then Black else White
  }

  /** The board code that is not part of this model, as opaque total
      functions over an abstract board state `B`:
      - `pieceAt`: what `board.squares[row][col]` holds;
      - `calcMoves`: the list `calc_moves(piece, row, col, bool=False)`
        returns, read without changing the board;
      - `calcMovesForDrag`: the board after `calc_moves(piece, row, col,
        bool=True)`, which records the piece's moves for `valid_move`;
      - `validMove`, `move`, `setTrueEnPassant`, `nextTurn`: the board and
        game methods of the same names;
      - `scoreFrom`, `scoreTo`: the two scoring models, one score per
        coordinate pair. */
  datatype Collaborators<!B> = Collaborators(
    pieceAt: (B, Square) -> Option<Piece>,
    calcMoves: (B, Piece, int, int) -> seq<Move>,
    calcMovesForDrag: (B, Piece, int, int) -> B,
    validMove: (B, Piece, Move) -> bool,
    move: (B, Option<Piece>, Move) -> B,
    setTrueEnPassant: (B, Piece) -> B,
    nextTurn: Color -> Color,
    scoreFrom: ((int, int)) -> int,
    scoreTo: ((int, int)) -> int
  )
}
