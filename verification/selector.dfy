/** The automated side's move selection: gather the candidate moves of every
    black piece in row-major square order, score each candidate with the two
    scoring models, and pick the first candidate of maximal total score. */
module Selector {
  import opened ChessTypes

  /** The candidate moves contributed by square (row, col): the move list of
      the black piece standing there, or nothing for an empty square or a
      white piece. */
  function MovesAt<B>(c: Collaborators<B>, b: B, row: int, col: int): seq<Move>
  {
    match c.pieceAt(b, Square(row, col))
    case Some(p) => if p.color == Black then c.calcMoves(b, p, row, col) else []
    case None => []
  }

  /** The candidate list the nested loops hold when they reach square
      (row, col), for 0 <= col <= 8: every earlier square's moves, appended in
      row-major order. Reaching column 8 of a row is reaching column 0 of the
      next. */
  function ScanBefore<B>(c: Collaborators<B>, b: B, row: nat, col: nat): seq<Move>
    requires col <= 8
    decreases row, col
  {
    if col > 0 then ScanBefore(c, b, row, col - 1) + MovesAt(c, b, row, col - 1)
    else if row > 0 then ScanBefore(c, b, row - 1, 8)
    else []
  }

  /** All candidates of the automated side, after the whole 8x8 scan. */
  function Candidates<B>(c: Collaborators<B>, b: B): seq<Move>
  {
    ScanBefore(c, b, 8, 0)
  }

  /** Reference order, stated independently of the scan: the moves of row
      `row` from column `col` rightwards. */
  function RowFrom<B>(c: Collaborators<B>, b: B, row: int, col: nat): seq<Move>
    requires col <= 8
    decreases 8 - col
  {
    if col == 8 then [] else MovesAt(c, b, row, col) + RowFrom(c, b, row, col + 1)
  }

  /** Reference order: whole rows from `row` downwards, row by row. */
  function RowsFrom<B>(c: Collaborators<B>, b: B, row: nat): seq<Move>
    requires row <= 8
    decreases 8 - row
  {
    if row == 8 then [] else RowFrom(c, b, row, 0) + RowsFrom(c, b, row + 1)
  }

  /** Scanning row `row` from column `col` onwards appends exactly that
      row's remaining moves. */
  lemma {:induction false} ScanRow<B>(c: Collaborators<B>, b: B, row: nat, col: nat)
    requires col <= 8
    ensures ScanBefore(c, b, row, col) + RowFrom(c, b, row, col) == ScanBefore(c, b, row, 8)
    decreases 8 - col
  {
    if col < 8 {
      var prefix, here, rest := ScanBefore(c, b, row, col), MovesAt(c, b, row, col), RowFrom(c, b, row, col + 1);
      assert ScanBefore(c, b, row, col + 1) == prefix + here;
      assert RowFrom(c, b, row, col) == here + rest;
      ScanRow(c, b, row, col + 1);
      assert prefix + (here + rest) == (prefix + here) + rest;
    } else {
      assert RowFrom(c, b, row, col) == [];
    }
  }

  /** Scanning the rows from `row` onwards completes the whole candidate
      list. */
  lemma {:induction false} ScanRows<B>(c: Collaborators<B>, b: B, row: nat)
    requires row <= 8
    ensures ScanBefore(c, b, row, 0) + RowsFrom(c, b, row) == Candidates(c, b)
    decreases 8 - row
  {
    if row < 8 {
      var prefix, here, rest := ScanBefore(c, b, row, 0), RowFrom(c, b, row, 0), RowsFrom(c, b, row + 1);
      assert RowsFrom(c, b, row) == here + rest;
      ScanRow(c, b, row, 0);
      assert ScanBefore(c, b, row + 1, 0) == prefix + here;
      ScanRows(c, b, row + 1);
      assert prefix + (here + rest) == (prefix + here) + rest;
    } else {
      assert RowsFrom(c, b, row) == [];
    }
  }

  /** The candidate list is the concatenation, row by row (row outer, column
      inner), of each square's moves in the order the move generator
      returns them. */
  lemma RowMajorOrder<B>(c: Collaborators<B>, b: B)
    ensures Candidates(c, b) == RowsFrom(c, b, 0)
  {
    ScanRows(c, b, 0);
    assert ScanBefore(c, b, 0, 0) == [];
  }

  /** Square (r, k) comes before square (row, col) in the row-major scan. */
  predicate Before(r: int, k: int, row: int, col: int)
  {
    r < row || (r == row && k < col)
  }

  lemma {:induction false} ScanMembers<B>(c: Collaborators<B>, b: B, row: nat, col: nat, m: Move)
    requires col <= 8 && (row < 8 || (row == 8 && col == 0))
    ensures m in ScanBefore(c, b, row, col) <==>
            exists r, k :: 0 <= r < 8 && 0 <= k < 8 && Before(r, k, row, col) && m in MovesAt(c, b, r, k)
    decreases row, col
  {
    if col > 0 {
      ScanMembers(c, b, row, col - 1, m);
      if m in MovesAt(c, b, row, col - 1) {
        assert Before(row, col - 1, row, col);
      }
    } else if row > 0 {
      ScanMembers(c, b, row - 1, 8, m);
    }
  }

  /** A move is a candidate exactly when some black piece on the board has it
      in its move list. */
  lemma CandidateMembers<B>(c: Collaborators<B>, b: B, m: Move)
    ensures m in Candidates(c, b) <==>
            exists row, col :: 0 <= row < 8 && 0 <= col < 8 && m in MovesAt(c, b, row, col)
  {
    ScanMembers(c, b, 8, 0, m);
  }

  /** Candidates come only from squares holding a black piece. */
  lemma CandidatesFromBlackPieces<B>(c: Collaborators<B>, b: B, m: Move)
    requires m in Candidates(c, b)
    ensures exists row, col, p :: 0 <= row < 8 && 0 <= col < 8 &&
              c.pieceAt(b, Square(row, col)) == Some(p) && p.color == Black &&
              m in c.calcMoves(b, p, row, col)
  {
    CandidateMembers(c, b, m);
    var row, col :| 0 <= row < 8 && 0 <= col < 8 && m in MovesAt(c, b, row, col);
    var p := c.pieceAt(b, Square(row, col)).value;
    assert c.pieceAt(b, Square(row, col)) == Some(p) && p.color == Black && m in c.calcMoves(b, p, row, col);
  }

  /** The candidate list is empty exactly when no square contributes a move. */
  lemma NoCandidates<B>(c: Collaborators<B>, b: B)
    ensures Candidates(c, b) == [] <==>
            forall row, col :: 0 <= row < 8 && 0 <= col < 8 ==> MovesAt(c, b, row, col) == []
  {
    if Candidates(c, b) != [] {
      CandidateMembers(c, b, Candidates(c, b)[0]);
    } else {
      forall row, col | 0 <= row < 8 && 0 <= col < 8
        ensures MovesAt(c, b, row, col) == []
      {
        if MovesAt(c, b, row, col) != [] {
          CandidateMembers(c, b, MovesAt(c, b, row, col)[0]);
        }
      }
    }
  }

  /** The scan as the program writes it: two nested loops over rows and
      columns, extending one list. */
  method CollectCandidates<B>(c: Collaborators<B>, b: B) returns (moves: seq<Move>)
    ensures moves == RowsFrom(c, b, 0)
  {
    moves := [];
    var row := 0;
    while row < 8
      invariant 0 <= row <= 8
      invariant moves == ScanBefore(c, b, row, 0)
    {
      var col := 0;
      while col < 8
        invariant 0 <= col <= 8
        invariant moves == ScanBefore(c, b, row, col)
      {
        moves := moves + MovesAt(c, b, row, col);
        col := col + 1;
      }
      row := row + 1;
    }
    RowMajorOrder(c, b);
  }

  /** The origin feature of a move: its initial (row, col). */
  function Origin(m: Move): (int, int)
  {
    (m.initial.row, m.initial.col)
  }

  /** The destination feature of a move: its final (row, col). */
  function Destination(m: Move): (int, int)
  {
    (m.final.row, m.final.col)
  }

  /** The origin feature matrix, one row per candidate. */
  function FromFeatures(moves: seq<Move>): seq<(int, int)>
  {
    seq(|moves|, i requires 0 <= i < |moves| => Origin(moves[i]))
  }

  /** The destination feature matrix, one row per candidate. */
  function ToFeatures(moves: seq<Move>): seq<(int, int)>
  {
    seq(|moves|, i requires 0 <= i < |moves| => Destination(moves[i]))
  }

  /** A batched call of a scoring model: one score per input row, in input
      order. */
  function Predict(model: ((int, int)) -> int, xs: seq<(int, int)>): (scores: seq<int>)
    ensures |scores| == |xs|
    ensures forall i :: 0 <= i < |xs| ==> scores[i] == model(xs[i])
  {
    if xs == [] then [] else [model(xs[0])] + Predict(model, xs[1..])
  }

  /** Element-wise sum of two score columns of equal length. */
  function Add(a: seq<int>, b: seq<int>): seq<int>
    requires |a| == |b|
  {
    seq(|a|, i requires 0 <= i < |a| => a[i] + b[i])
  }

  /** The total a candidate receives: origin score plus destination score. */
  function Score<B>(c: Collaborators<B>, m: Move): int
  {
    c.scoreFrom(Origin(m)) + c.scoreTo(Destination(m))
  }

  /** The summed score column the program computes from the two batches. */
  function CombinedScores<B>(c: Collaborators<B>, moves: seq<Move>): seq<int>
  {
    Add(Predict(c.scoreFrom, FromFeatures(moves)), Predict(c.scoreTo, ToFeatures(moves)))
  }

  /** The feature rows, the two batches and their sum stay index-aligned with
      the candidate list: entry i is the total of candidate i. */
  lemma ScoresAligned<B>(c: Collaborators<B>, moves: seq<Move>)
    ensures |FromFeatures(moves)| == |ToFeatures(moves)| == |CombinedScores(c, moves)| == |moves|
    ensures forall i :: 0 <= i < |moves| ==>
              FromFeatures(moves)[i] == (moves[i].initial.row, moves[i].initial.col) &&
              ToFeatures(moves)[i] == (moves[i].final.row, moves[i].final.col) &&
              CombinedScores(c, moves)[i] == Score(c, moves[i])
  {
  }

  /** Index of the first maximal entry (numpy's argmax over a column). */
  function ArgMax(s: seq<int>): (i: nat)
    requires |s| > 0
    ensures i < |s|
    ensures forall j :: 0 <= j < |s| ==> s[j] <= s[i]
    ensures forall j :: 0 <= j < i ==> s[j] < s[i]
  {
    if |s| == 1 then 0
    else
      var k := ArgMax(s[..|s| - 1]);
      if s[|s| - 1] > s[k] then |s| - 1 else k
  }

  /** The first maximum is unique, so the choice is determined by the scores
      alone. */
  lemma ArgMaxUnique(s: seq<int>, i: int)
    requires |s| > 0
    requires 0 <= i < |s|
    requires forall j :: 0 <= j < |s| ==> s[j] <= s[i]
    requires forall j :: 0 <= j < i ==> s[j] < s[i]
    ensures i == ArgMax(s)
  {
  }

  /** A left-to-right scan keeping the first strict maximum. */
  method ArgMaxScan(s: seq<int>) returns (best: nat)
    requires |s| > 0
    ensures best < |s|
    ensures forall j :: 0 <= j < |s| ==> s[j] <= s[best]
    ensures forall j :: 0 <= j < best ==> s[j] < s[best]
  {
    best := 0;
    var i := 1;
    while i < |s|
      invariant 1 <= i <= |s|
      invariant best < i
      invariant forall j :: 0 <= j < i ==> s[j] <= s[best]
      invariant forall j :: 0 <= j < best ==> s[j] < s[best]
    {
      if s[i] > s[best] {
        best := i;
      }
      i := i + 1;
    }
  }

  /** Candidate `i` has the maximal total and no earlier candidate ties it. */
  ghost predicate FirstBest<B>(c: Collaborators<B>, moves: seq<Move>, i: int)
  {
    0 <= i < |moves| &&
    (forall j :: 0 <= j < |moves| ==> Score(c, moves[j]) <= Score(c, moves[i])) &&
    (forall j :: 0 <= j < i ==> Score(c, moves[j]) < Score(c, moves[i]))
  }

  /** The index the selector picks: none for an empty list, otherwise the
      first candidate of maximal total, which lies inside the list. */
  function SelectIndex<B>(c: Collaborators<B>, moves: seq<Move>): (r: Option<nat>)
    ensures r.None? <==> |moves| == 0
    ensures r.Some? ==> r.value < |moves| && FirstBest(c, moves, r.value)
  {
    if |moves| == 0 then None
    else
      ScoresAligned(c, moves);
      Some(ArgMax(CombinedScores(c, moves)))
  }

  /** Only one index is the first best, so the selection is deterministic
      for a fixed board and fixed scores. */
  lemma SelectionUnique<B>(c: Collaborators<B>, moves: seq<Move>, i: int)
    requires FirstBest(c, moves, i)
    ensures SelectIndex(c, moves) == Some(i)
  {
    ScoresAligned(c, moves);
    ArgMaxUnique(CombinedScores(c, moves), i);
  }
}
