/**
 * The board value of src/board.js: colours, coordinates, the position itself,
 * adjacency on the board, and the edits that ignore the rules of Go
 * (removeStone(s), placeStone(s)) together with `difference`.
 */
module GoBoard {
  import opened Wrappers
  import opened Exceptions

  datatype Color = Black | White

  /** What a point holds: `EMPTY` (a missing key) or a stone. */
  datatype Cell = Empty | Stone(color: Color)

  datatype Coord = Coord(x: int, y: int)

  /** `dimensions` and the map from coordinates to colours; an empty point has no key. */
  datatype Board = Board(dimensions: nat, moves: map<Coord, Color>)

  const NOT_EMPTY_FORCE := "There is already a stone there.  Pass force=true to override."
  const SIZES_DIFFER := "board sizes do not match"

  /** `oppositeColor` on a colour. */
  function Opposite(c: Color): (o: Color)
    ensures o != c
  {
    if c == Black then White else Black
  }

  /** `oppositeColor` on anything a point can hold: `EMPTY` maps to `EMPTY`. */
  function OppositeColor(s: Cell): (r: Cell)
    ensures r.Empty? <==> s.Empty?
    ensures s.Stone? ==> r.color != s.color
  {
    match s
    case Empty => Empty
    case Stone(c) => Stone(Opposite(c))
  }

  lemma OppositeInvolutive(c: Color)
    ensures Opposite(Opposite(c)) == c
  {
  }

  /** `board.moves.get(c, EMPTY)`. */
  function CellAt(b: Board, c: Coord): Cell {
    if c in b.moves then Stone(b.moves[c]) else Empty
  }

  /** lodash `inRange(n, dimensions)` for both components of `c`. */
  predicate OnBoard(b: Board, c: Coord) {
    0 <= c.x < b.dimensions && 0 <= c.y < b.dimensions
  }

  /** Every stone lies on the board. The source documents this but never checks it. */
  ghost predicate WellFormed(b: Board) {
    forall c :: c in b.moves ==> OnBoard(b, c)
  }

  /** `c` and `n` are one step apart, horizontally or vertically. */
  predicate Touching(c: Coord, n: Coord) {
    || (c.x == n.x && (c.y - n.y == 1 || n.y - c.y == 1))
    || (c.y == n.y && (c.x - n.x == 1 || n.x - c.x == 1))
  }

  /** `adjacentCoordinates`: the four orthogonal neighbours of `c`, clipped to the board. */
  function Adjacent(b: Board, c: Coord): (r: set<Coord>)
    ensures forall n :: n in r <==> OnBoard(b, n) && Touching(c, n)
  {
    var around := {Coord(c.x, c.y + 1), Coord(c.x, c.y - 1), Coord(c.x + 1, c.y), Coord(c.x - 1, c.y)};
    set n | n in around && OnBoard(b, n)
  }

  function Indicator(p: bool): nat {
    if p then 1 else 0
  }

  /** The singleton `{n}` when `p` holds, otherwise the empty set. */
  function SideIf(p: bool, n: Coord): (r: set<Coord>)
    ensures forall m :: m in r <==> p && m == n
  {
    if p then {n} else {}
  }

  lemma SideIfSize(p: bool, n: Coord)
    ensures |SideIf(p, n)| == Indicator(p)
  {
  }

  /** The sides of `c` that lie on the board, as singletons. */
  function Sides(b: Board, c: Coord): set<Coord> {
    SideIf(c.y + 1 < b.dimensions, Coord(c.x, c.y + 1)) + SideIf(0 < c.y, Coord(c.x, c.y - 1)) +
    SideIf(c.x + 1 < b.dimensions, Coord(c.x + 1, c.y)) + SideIf(0 < c.x, Coord(c.x - 1, c.y))
  }

  lemma AdjacentSide(b: Board, c: Coord, n: Coord)
    requires OnBoard(b, c)
    ensures n in Adjacent(b, c) <==> n in Sides(b, c)
  {
    var up, down, right, left := Coord(c.x, c.y + 1), Coord(c.x, c.y - 1), Coord(c.x + 1, c.y), Coord(c.x - 1, c.y);
    if n.x == c.x && n.y == c.y + 1 {
      assert n == up;
    } else if n.x == c.x && n.y == c.y - 1 {
      assert n == down;
    } else if n.y == c.y && n.x == c.x + 1 {
      assert n == right;
    } else if n.y == c.y && n.x == c.x - 1 {
      assert n == left;
    } else {
      assert !Touching(c, n);
      assert n != up && n != down && n != right && n != left;
    }
  }

  lemma AdjacentAsSides(b: Board, c: Coord)
    requires OnBoard(b, c)
    ensures Adjacent(b, c) == Sides(b, c)
  {
    forall n
      ensures n in Adjacent(b, c) <==> n in Sides(b, c)
    {
      AdjacentSide(b, c, n);
    }
  }

  /** A point on the board has one neighbour per side that is not an edge. */
  lemma AdjacentCount(b: Board, c: Coord)
    requires OnBoard(b, c)
    ensures |Adjacent(b, c)| ==
      Indicator(c.y + 1 < b.dimensions) + Indicator(0 < c.y) +
      Indicator(c.x + 1 < b.dimensions) + Indicator(0 < c.x)
  {
    var s1 := SideIf(c.y + 1 < b.dimensions, Coord(c.x, c.y + 1));
    var s2 := SideIf(0 < c.y, Coord(c.x, c.y - 1));
    var s3 := SideIf(c.x + 1 < b.dimensions, Coord(c.x + 1, c.y));
    var s4 := SideIf(0 < c.x, Coord(c.x - 1, c.y));
    SideIfSize(c.y + 1 < b.dimensions, Coord(c.x, c.y + 1));
    SideIfSize(0 < c.y, Coord(c.x, c.y - 1));
    SideIfSize(c.x + 1 < b.dimensions, Coord(c.x + 1, c.y));
    SideIfSize(0 < c.x, Coord(c.x - 1, c.y));
    AdjacentAsSides(b, c);
    assert s1 !! s2 && s1 !! s3 && s1 !! s4 && s2 !! s3 && s2 !! s4 && s3 !! s4;
    DisjointFourSize(s1, s2, s3, s4);
  }

  lemma DisjointFourSize(s1: set<Coord>, s2: set<Coord>, s3: set<Coord>, s4: set<Coord>)
    requires s1 !! s2 && s1 !! s3 && s1 !! s4 && s2 !! s3 && s2 !! s4 && s3 !! s4
    ensures |s1 + s2 + s3 + s4| == |s1| + |s2| + |s3| + |s4|
  {
    assert |s1 + s2| == |s1| + |s2|;
    assert (s1 + s2) !! s3;
    assert |s1 + s2 + s3| == |s1| + |s2| + |s3|;
    assert (s1 + s2 + s3) !! s4;
  }

  /** Four neighbours in the centre, three on any of the four edges away from
      the corners, two in a corner. */
  lemma AdjacentCountCentreEdgeCorner(b: Board, c: Coord)
    requires OnBoard(b, c) && b.dimensions >= 3
    ensures 0 < c.x < b.dimensions - 1 && 0 < c.y < b.dimensions - 1 ==> |Adjacent(b, c)| == 4
    ensures (c.x == 0 || c.x == b.dimensions - 1) != (c.y == 0 || c.y == b.dimensions - 1) ==> |Adjacent(b, c)| == 3
    ensures (c.x == 0 || c.x == b.dimensions - 1) && (c.y == 0 || c.y == b.dimensions - 1) ==> |Adjacent(b, c)| == 2
  {
    AdjacentCount(b, c);
  }

  /** Adjacency between two points of the board goes both ways. */
  lemma AdjacentSymmetric(b: Board, c: Coord, n: Coord)
    requires OnBoard(b, c) && n in Adjacent(b, c)
    ensures c in Adjacent(b, n)
  {
  }

  /** `matchingAdjacentCoordinates(board, c, s)`: the neighbours of `c` holding `s`. */
  function MatchingAdjacent(b: Board, c: Coord, s: Cell): set<Coord> {
    set n | n in Adjacent(b, c) && CellAt(b, n) == s
  }

  /** `matchingAdjacentCoordinates(board, c)`: the neighbours in the same state as `c`. */
  function Neighbours(b: Board, c: Coord): set<Coord> {
    MatchingAdjacent(b, c, CellAt(b, c))
  }

  /** `board.setIn(['moves', c], col)`. */
  function SetStone(b: Board, c: Coord, col: Color): Board {
    b.(moves := b.moves[c := col])
  }

  /** `removeStone`: clear one point; nothing else changes. */
  function RemoveStone(b: Board, c: Coord): (r: Board)
    ensures r.dimensions == b.dimensions && CellAt(r, c) == Empty
    ensures forall p :: p != c ==> CellAt(r, p) == CellAt(b, p)
  {
    b.(moves := b.moves - {c})
  }

  /** Removing a point that holds no stone is a no-op, not an error. */
  lemma RemoveAbsentIsNoOp(b: Board, c: Coord)
    requires c !in b.moves
    ensures RemoveStone(b, c) == b
  {
    assert RemoveStone(b, c).moves == b.moves;
  }

  /** `removeStones`: clear every given point (the fold order does not matter); nothing else changes. */
  function RemoveStones(b: Board, cs: set<Coord>): (r: Board)
    ensures r.dimensions == b.dimensions
    ensures forall p :: CellAt(r, p) == if p in cs then Empty else CellAt(b, p)
  {
    b.(moves := b.moves - cs)
  }

  /** Removing a set of points one at a time gives the same board. */
  lemma RemoveStonesOneMore(b: Board, cs: set<Coord>, c: Coord)
    ensures RemoveStones(b, cs + {c}) == RemoveStone(RemoveStones(b, cs), c)
  {
    assert RemoveStones(b, cs + {c}).moves == RemoveStone(RemoveStones(b, cs), c).moves;
  }

  /** `placeStone`: refuses, unless forced, only a point holding the opposite colour. */
  function PlaceStone(b: Board, c: Coord, col: Color, force: bool): (r: Result<Board, Thrown>)
    ensures r.Failure? <==> !force && CellAt(b, c) == Stone(Opposite(col))
    ensures r.Failure? ==> r.error == Text(NOT_EMPTY_FORCE)
    ensures r.Success? ==> r.value.dimensions == b.dimensions && CellAt(r.value, c) == Stone(col)
    ensures r.Success? ==> forall p :: p != c ==> CellAt(r.value, p) == CellAt(b, p)
  {
    if !force && OppositeColor(CellAt(b, c)) == Stone(col) then
      Failure(Text(NOT_EMPTY_FORCE))
    else
      Success(SetStone(b, c, col))
  }

  /** `placeStones`: `placeStone` folded over the coordinates; the first refusal propagates. */
  function PlaceStones(b: Board, cs: seq<Coord>, col: Color, force: bool): (r: Result<Board, Thrown>)
    ensures r.Success? <==> force || forall i :: 0 <= i < |cs| ==> CellAt(b, cs[i]) != Stone(Opposite(col))
    ensures r.Failure? ==> r.error == Text(NOT_EMPTY_FORCE)
    ensures r.Success? ==> r.value.dimensions == b.dimensions
    ensures r.Success? ==> forall p :: CellAt(r.value, p) == if p in cs then Stone(col) else CellAt(b, p)
    decreases |cs|
  {
    if cs == [] then
      Success(b)
    else
      var next :- PlaceStone(b, cs[0], col, force);
      PlaceStones(next, cs[1..], col, force)
  }

  /** `difference`: the (coordinate, colour) pairs of `b1` that `b2` does not have. */
  function Difference(b1: Board, b2: Board): (r: Result<set<(Coord, Color)>, Thrown>)
    ensures r.Failure? <==> b1.dimensions != b2.dimensions
    ensures r.Failure? ==> r.error == Text(SIZES_DIFFER)
    ensures r.Success? ==> forall c, col :: (c, col) in r.value <==> CellAt(b1, c) == Stone(col) && CellAt(b2, c) != Stone(col)
  {
    if b1.dimensions != b2.dimensions then
      Failure(Text(SIZES_DIFFER))
    else
      Success(b1.moves.Items - b2.moves.Items)
  }

  /** The difference is empty exactly when every stone of `b1` is also on `b2`. */
  lemma DifferenceEmptyIffContained(b1: Board, b2: Board)
    requires b1.dimensions == b2.dimensions
    ensures Difference(b1, b2).value == {} <==> forall c :: c in b1.moves ==> CellAt(b2, c) == CellAt(b1, c)
  {
    var d := Difference(b1, b2).value;
    if d == {} {
      forall c | c in b1.moves
        ensures CellAt(b2, c) == CellAt(b1, c)
      {
        assert (c, b1.moves[c]) !in d;
      }
    } else {
      var e :| e in d;
      assert CellAt(b1, e.0) == Stone(e.1);
    }
  }

  /** Equal boards have an empty difference. */
  lemma DifferenceSelf(b: Board)
    ensures Difference(b, b) == Success({})
  {
    DifferenceEmptyIffContained(b, b);
  }

  /** The character `toAsciiBoard` writes for a point: `O` black, `X` white, `+` empty. */
  function Symbol(s: Cell): char {
    match s
    case Stone(Black) => 'O'
    case Stone(White) => 'X'
    case Empty => '+'
  }

  /** Distinct point states are drawn with distinct characters. */
  lemma SymbolInjective(s: Cell, t: Cell)
    ensures Symbol(s) == Symbol(t) <==> s == t
  {
  }

  /** Row `i` of the picture: the points `Coordinate(i, j)` for `j` below `dimensions`, then a newline. */
  function AsciiRow(b: Board, i: int): (r: string)
    ensures |r| == b.dimensions + 1
  {
    seq(b.dimensions, j requires 0 <= j < b.dimensions => Symbol(CellAt(b, Coord(i, j)))) + ['\n']
  }

  /** The first `n` rows of the picture, in order. */
  function AsciiRows(b: Board, n: nat): (r: string)
    ensures |r| == n * (b.dimensions + 1)
  {
    if n == 0 then [] else AsciiRows(b, n - 1) + AsciiRow(b, n - 1)
  }

  /** `toAsciiBoard`'s whole picture: one row per `x`. */
  function AsciiBoard(b: Board): string {
    AsciiRows(b, b.dimensions)
  }

  /**
   * Where each point lands: character `j` of row `i` is the symbol of
   * `Coordinate(i, j)`, and the last character of each row is a newline.
   */
  lemma {:induction false} AsciiRowsAt(b: Board, n: nat, i: nat, j: nat)
    requires i < n && j <= b.dimensions
    ensures i * (b.dimensions + 1) + j < |AsciiRows(b, n)|
    ensures AsciiRows(b, n)[i * (b.dimensions + 1) + j] ==
      (if j < b.dimensions then Symbol(CellAt(b, Coord(i, j))) else '\n')
  {
    var w := b.dimensions + 1;
    var prefix := AsciiRows(b, n - 1);
    assert AsciiRows(b, n) == prefix + AsciiRow(b, n - 1);
    if i < n - 1 {
      AsciiRowsAt(b, n - 1, i, j);
    } else {
      assert |prefix| == i * w;
    }
  }

  /** The picture of an on-board point is its symbol. */
  lemma AsciiBoardAt(b: Board, c: Coord)
    requires OnBoard(b, c)
    ensures var k := c.x * (b.dimensions + 1) + c.y;
      k < |AsciiBoard(b)| && AsciiBoard(b)[k] == Symbol(CellAt(b, c))
  {
    AsciiRowsAt(b, b.dimensions, c.x, c.y);
  }

  /** Two boards of one size with the same picture hold the same thing on every point. */
  lemma AsciiBoardDetermines(b1: Board, b2: Board)
    requires b1.dimensions == b2.dimensions && AsciiBoard(b1) == AsciiBoard(b2)
    ensures forall c :: OnBoard(b1, c) ==> CellAt(b1, c) == CellAt(b2, c)
  {
    forall c | OnBoard(b1, c)
      ensures CellAt(b1, c) == CellAt(b2, c)
    {
      AsciiBoardAt(b1, c);
      AsciiBoardAt(b2, c);
      SymbolInjective(CellAt(b1, c), CellAt(b2, c));
    }
  }

  /** `toAsciiBoard`: the nested loops append one symbol per point and a newline per row. */
  method ToAsciiBoard(b: Board) returns (pretty: string)
    ensures pretty == AsciiBoard(b)
  {
    var dimensions := b.dimensions;
    pretty := "";
    var i := 0;
    while i < dimensions
      invariant 0 <= i <= dimensions
      invariant pretty == AsciiRows(b, i)
    {
      var j := 0;
      while j < dimensions
        invariant 0 <= j <= dimensions
        invariant pretty == AsciiRows(b, i) + AsciiRow(b, i)[..j]
      {
        var ch := Symbol(CellAt(b, Coord(i, j)));
        assert AsciiRow(b, i)[..j + 1] == AsciiRow(b, i)[..j] + [ch];
        pretty := pretty + [ch];
        j := j + 1;
      }
      assert AsciiRow(b, i) == AsciiRow(b, i)[..dimensions] + ['\n'];
      pretty := pretty + ['\n'];
      i := i + 1;
    }
  }
}
