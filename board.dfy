/** The 3x3 board: cells, the eight winning lines, win detection and the
    full-board test. */
module Board {

  /** An optional value (the source's Optional). */
  datatype Option<T> = None | Some(value: T)

  /** A player mark. */
  datatype Mark = X | O

  /** A cell of the board: empty (null on the wire) or holding a mark. */
  datatype Cell = Empty | Marked(mark: Mark)

  /** The other player. */
  function Other(m: Mark): (r: Mark)
    ensures r != m
  {
    if m == X then O else X
  }

  /** A board index, 0..8, row-major. */
  type Position = i: int | 0 <= i < 9

  /** A board always has exactly nine cells. */
  type Grid = b: seq<Cell> | |b| == 9
    witness [Empty, Empty, Empty, Empty, Empty, Empty, Empty, Empty, Empty]

  const EmptyGrid: Grid := [Empty, Empty, Empty, Empty, Empty, Empty, Empty, Empty, Empty]

  /** The winning lines in the order they are scanned: three rows, three
      columns, two diagonals. */
  const WinLines: seq<(Position, Position, Position)> :=
    [(0, 1, 2), (3, 4, 5), (6, 7, 8),
     (0, 3, 6), (1, 4, 7), (2, 5, 8),
     (0, 4, 8), (2, 4, 6)]

  /** The test the scan applies to one line: the first cell is non-empty and
      all three cells are equal. It holds exactly when one mark fills the
      line, and that mark is the one in the line's first cell. */
  predicate LineComplete(b: Grid, line: (Position, Position, Position)): (r: bool)
    ensures r ==> b[line.0].Marked? && LineOwnedBy(b, line, b[line.0].mark)
    ensures forall m :: LineOwnedBy(b, line, m) ==> r
  {
    b[line.0] != Empty && b[line.0] == b[line.1] && b[line.1] == b[line.2]
  }

  /** All three cells of the line hold mark m. */
  predicate LineOwnedBy(b: Grid, line: (Position, Position, Position), m: Mark) {
    b[line.0] == Marked(m) && b[line.1] == Marked(m) && b[line.2] == Marked(m)
  }

  /** Mark m fills some winning line. */
  ghost predicate Wins(b: Grid, m: Mark) {
    exists k :: 0 <= k < |WinLines| && LineOwnedBy(b, WinLines[k], m)
  }

  lemma CompleteIsOwned(b: Grid, line: (Position, Position, Position))
    ensures LineComplete(b, line) <==> exists m :: LineOwnedBy(b, line, m)
  {
    if LineComplete(b, line) {
      assert LineOwnedBy(b, line, b[line.0].mark);
    }
  }

  /** The scan of lines i.. with early return: the mark of the first complete
      line, or None when no line from i on is complete. */
  function WinnerFrom(b: Grid, i: nat): (r: Option<Mark>)
    requires i <= |WinLines|
    ensures r.None? <==> forall k :: i <= k < |WinLines| ==> !LineComplete(b, WinLines[k])
    ensures r.Some? ==> exists k :: i <= k < |WinLines| && LineOwnedBy(b, WinLines[k], r.value)
                          && forall j :: i <= j < k ==> !LineComplete(b, WinLines[j])
    decreases |WinLines| - i
  {
    if i == |WinLines| then None
    else if LineComplete(b, WinLines[i]) then Some(b[WinLines[i].0].mark)
    else WinnerFrom(b, i + 1)
  }

  /** The winner of a board: the mark of the first line, in the order of
      WinLines, whose three cells hold one mark; None when there is none. */
  function CalculateWinner(b: Grid): (r: Option<Mark>)
    ensures r.None? <==> forall k :: 0 <= k < |WinLines| ==> !LineComplete(b, WinLines[k])
    ensures r.Some? ==> exists k :: 0 <= k < |WinLines| && LineOwnedBy(b, WinLines[k], r.value)
                          && forall j :: 0 <= j < k ==> !LineComplete(b, WinLines[j])
  {
    WinnerFrom(b, 0)
  }

  /** The winner, read in terms of marks: None exactly when neither mark fills
      a line, and a returned mark always fills one. */
  lemma CalculateWinnerWins(b: Grid)
    ensures CalculateWinner(b).None? <==> !Wins(b, X) && !Wins(b, O)
    ensures CalculateWinner(b).Some? ==> Wins(b, CalculateWinner(b).value)
  {
    if CalculateWinner(b).None? {
      forall m: Mark, k | 0 <= k < |WinLines| ensures !LineOwnedBy(b, WinLines[k], m) {
        CompleteIsOwned(b, WinLines[k]);
      }
    } else {
      var k :| 0 <= k < |WinLines| && LineOwnedBy(b, WinLines[k], CalculateWinner(b).value);
      assert Wins(b, CalculateWinner(b).value);
      assert Wins(b, X) || Wins(b, O) by {
        match CalculateWinner(b).value
        case X =>
        case O =>
      }
    }
  }

  /** A board on which only mark m fills a line has winner m. */
  lemma OnlyWinnerIsCalculated(b: Grid, m: Mark)
    requires Wins(b, m) && !Wins(b, Other(m))
    ensures CalculateWinner(b) == Some(m)
  {
    CalculateWinnerWins(b);
    var w := CalculateWinner(b).value;
    assert Wins(b, w);
    assert w == m || w == Other(m) by {
      match w
      case X =>
      case O =>
    }
  }

  /** Every cell of the sequence holds a mark (the draw test of the source,
      which looks only at the cells). */
  function IsFull(cells: seq<Cell>): (r: bool)
    ensures r <==> forall i :: 0 <= i < |cells| ==> cells[i] != Empty
  {
    if cells == [] then true
    else cells[0] != Empty && IsFull(cells[1..])
  }

  /** The number of non-empty cells. */
  function Occupied(cells: seq<Cell>): (r: nat)
    ensures r <= |cells|
  {
    if cells == [] then 0
    else (if cells[0] != Empty then 1 else 0) + Occupied(cells[1..])
  }

  /** The number of cells holding mark m. */
  function MarksOf(cells: seq<Cell>, m: Mark): (r: nat)
    ensures r <= Occupied(cells)
  {
    if cells == [] then 0
    else (if cells[0] == Marked(m) then 1 else 0) + MarksOf(cells[1..], m)
  }

  /** Every occupied cell holds one of the two marks. */
  lemma {:induction false} OccupiedIsSumOfMarks(cells: seq<Cell>)
    ensures Occupied(cells) == MarksOf(cells, X) + MarksOf(cells, O)
  {
    if cells != [] {
      OccupiedIsSumOfMarks(cells[1..]);
      match cells[0]
      case Empty =>
      case Marked(m) => assert m == X || m == O;
    }
  }

  /** The sequence is full exactly when every cell is counted as occupied. */
  lemma {:induction false} FullIffAllOccupied(cells: seq<Cell>)
    ensures IsFull(cells) <==> Occupied(cells) == |cells|
  {
    if cells != [] {
      FullIffAllOccupied(cells[1..]);
    }
  }

  /** The empty board has no mark, no winner and is not full. */
  lemma EmptyGridFacts()
    ensures Occupied(EmptyGrid) == 0
    ensures MarksOf(EmptyGrid, X) == 0 && MarksOf(EmptyGrid, O) == 0
    ensures CalculateWinner(EmptyGrid) == None
    ensures !IsFull(EmptyGrid)
  {
    assert EmptyGrid[0] == Empty;
    forall m: Mark ensures !Wins(EmptyGrid, m) {
      forall k | 0 <= k < |WinLines| ensures !LineOwnedBy(EmptyGrid, WinLines[k], m) {
        assert EmptyGrid[WinLines[k].0] == Empty;
      }
    }
  }

  /** Writing mark m into an empty cell raises the occupied count and m's
      count by one and leaves the other mark's count alone. */
  lemma {:induction false} PlaceCounts(cells: seq<Cell>, pos: nat, m: Mark)
    requires pos < |cells| && cells[pos] == Empty
    ensures Occupied(cells[pos := Marked(m)]) == Occupied(cells) + 1
    ensures MarksOf(cells[pos := Marked(m)], m) == MarksOf(cells, m) + 1
    ensures MarksOf(cells[pos := Marked(m)], Other(m)) == MarksOf(cells, Other(m))
  {
    var after := cells[pos := Marked(m)];
    if pos > 0 {
      PlaceCounts(cells[1..], pos - 1, m);
      assert after[1..] == cells[1..][pos - 1 := Marked(m)];
    } else {
      assert after[1..] == cells[1..];
    }
  }

  /** If no line was complete before mark m is written into an empty cell,
      any line complete afterwards is filled by m. */
  lemma PlaceOnlyCompletesOwnLines(b: Grid, pos: Position, m: Mark)
    requires b[pos] == Empty
    requires CalculateWinner(b) == None
    ensures !Wins(b[pos := Marked(m)], Other(m))
  {
  }
}
