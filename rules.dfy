/**
 * The rules of play in src/board.js: `isLegalMove`, `addMove`, `followupKo`
 * and `constructBoard`. Ko is not part of legality; `followupKo` detects a
 * simple ko after the fact.
 */
module Rules {
  import opened Wrappers
  import opened Exceptions
  import opened GoBoard
  import opened Groups

  const NOT_VALID := "Not a valid position"
  const OCCUPIED := "There is already a stone there"

  /** `isLegalMove`: after writing the stone (before any capture) its group has a
      liberty, or some adjacent enemy group is down to its last liberty. Neither
      occupancy nor bounds are checked. */
  predicate IsLegalMove(b: Board, c: Coord, col: Color) {
    || LibertyCount(SetStone(b, c, col), c) > 0
    || exists n :: n in MatchingAdjacent(b, c, Stone(Opposite(col))) && LibertyCount(b, n) == 1
  }

  /** A move next to an empty point of the board is legal. */
  lemma EmptyNeighbourMakesLegal(b: Board, c: Coord, col: Color, n: Coord)
    requires n in Adjacent(b, c) && CellAt(b, n) == Empty
    ensures IsLegalMove(b, c, col)
  {
    var b' := SetStone(b, c, col);
    assert CellAt(b', n) == Empty;
    LibertyOfMember(b', c, c, n);
  }

  /** A move whose every in-board neighbour is an enemy stone that would keep a
      liberty is suicide, hence illegal. */
  lemma SuicideIsIllegal(b: Board, c: Coord, col: Color)
    requires forall n :: n in Adjacent(b, c) ==> CellAt(b, n) == Stone(Opposite(col)) && LibertyCount(b, n) != 1
    ensures !IsLegalMove(b, c, col)
  {
    var b' := SetStone(b, c, col);
    assert Adjacent(b', c) == Adjacent(b, c);
    forall n | n in Adjacent(b, c) ensures CellAt(b', n) == Stone(Opposite(col)) {
      assert n != c;
    }
    assert Neighbours(b', c) == {};
    SingletonGroup(b', c);
    assert Liberties(b', c) == {};
  }

  /** A point more than one step outside the board touches nothing, so it is illegal. */
  lemma FarOffBoardIsIllegal(b: Board, c: Coord, col: Color)
    requires c.x < -1 || c.x > b.dimensions || c.y < -1 || c.y > b.dimensions
    ensures !IsLegalMove(b, c, col)
  {
    assert Adjacent(b, c) == {};
    SuicideIsIllegal(b, c, col);
  }

  /** The stones `addMove` removes: the groups of the adjacent enemy stones whose
      group has exactly one liberty. */
  function Captured(b: Board, c: Coord, col: Color): (r: set<Coord>)
    ensures forall p :: p in r ==> CellAt(b, p) == Stone(Opposite(col))
  {
    set n, p | n in MatchingAdjacent(b, c, Stone(Opposite(col))) && LibertyCount(b, n) == 1 && p in GroupOf(b, n) :: p
  }

  /** `addMove`: legality first, then occupancy; on success the captured stones
      are removed, the stone is placed, and nothing else changes. */
  function AddMove(b: Board, c: Coord, col: Color): (r: Result<Board, Thrown>)
    ensures r.Failure? <==> !IsLegalMove(b, c, col) || CellAt(b, c) != Empty
    ensures !IsLegalMove(b, c, col) ==> r == Failure(Text(NOT_VALID))
    ensures IsLegalMove(b, c, col) && CellAt(b, c) != Empty ==> r == Failure(Text(OCCUPIED))
    ensures r.Success? ==> r.value.dimensions == b.dimensions && CellAt(r.value, c) == Stone(col)
    ensures r.Success? ==> forall p :: p != c ==>
      CellAt(r.value, p) == if p in Captured(b, c, col) then Empty else CellAt(b, p)
  {
    if !IsLegalMove(b, c, col) then
      Failure(Text(NOT_VALID))
    else if c in b.moves then
      Failure(Text(OCCUPIED))
    else
      Success(SetStone(RemoveStones(b, Captured(b, c, col)), c, col))
  }

  /** On an empty point of the board, a stone is captured exactly when it is an
      enemy stone whose group's only liberty is the point played. */
  lemma CapturedIffLastLiberty(b: Board, c: Coord, col: Color, p: Coord)
    requires WellFormed(b) && OnBoard(b, c) && CellAt(b, c) == Empty
    ensures p in Captured(b, c, col) <==> CellAt(b, p) == Stone(Opposite(col)) && Liberties(b, p) == {c}
  {
    var enemy := Stone(Opposite(col));
    if p in Captured(b, c, col) {
      var n :| n in MatchingAdjacent(b, c, enemy) && LibertyCount(b, n) == 1 && p in GroupOf(b, n);
      assert c in Liberties(b, n) by {
        assert n in GroupOf(b, n) && Touching(n, c);
      }
      SingletonOfSize1(Liberties(b, n), c);
      LibertiesShared(b, n, p);
    }
    if CellAt(b, p) == enemy && Liberties(b, p) == {c} {
      assert c in Liberties(b, p);
      var q :| q in GroupOf(b, p) && Touching(q, c);
      assert OnBoard(b, q) by {
        assert CellAt(b, q) == enemy;
      }
      assert q in MatchingAdjacent(b, c, enemy);
      assert OnBoard(b, p);
      GroupOfMember(b, p, q);
      assert LibertyCount(b, q) == 1;
      assert p in GroupOf(b, q);
    }
  }

  lemma SingletonOfSize1<T>(s: set<T>, x: T)
    requires x in s && |s| == 1
    ensures s == {x}
  {
    assert |s - {x}| == 0;
  }

  /** On a well-formed board, a successful move on the board keeps it well formed. */
  lemma AddMovePreservesWellFormed(b: Board, c: Coord, col: Color)
    requires WellFormed(b) && OnBoard(b, c) && AddMove(b, c, col).Success?
    ensures WellFormed(AddMove(b, c, col).value)
  {
    var r := AddMove(b, c, col).value;
    forall p | p in r.moves ensures OnBoard(r, p) {
      assert p == c || CellAt(b, p) == CellAt(r, p);
    }
  }

  /** The position cannot be played twice: the second attempt always fails. */
  lemma AddMoveTwiceFails(b: Board, c: Coord, col: Color, col2: Color)
    requires AddMove(b, c, col).Success?
    ensures AddMove(AddMove(b, c, col).value, c, col2).Failure?
  {
  }

  /** A point next to the edge but off the board is legal, and `addMove` puts a
      stone there: the board stops being well formed. */
  lemma OffBoardEdgeMoveIsPlaced()
    ensures IsLegalMove(Board(3, map[]), Coord(-1, 0), Black)
    ensures AddMove(Board(3, map[]), Coord(-1, 0), Black).Success?
    ensures !WellFormed(AddMove(Board(3, map[]), Coord(-1, 0), Black).value)
  {
    var b := Board(3, map[]);
    assert Coord(0, 0) in Adjacent(b, Coord(-1, 0));
    EmptyNeighbourMakesLegal(b, Coord(-1, 0), Black, Coord(0, 0));
  }

  /** The stones a move captures, paired with their colour. */
  function CapturedPairs(b: Board, c: Coord, col: Color): set<(Coord, Color)> {
    set p | p in Captured(b, c, col) :: (p, Opposite(col))
  }

  /** What `difference(board, addMove(board, c, col))` holds: the captured stones. */
  lemma AddMoveDifference(b: Board, c: Coord, col: Color)
    requires AddMove(b, c, col).Success?
    ensures Difference(b, AddMove(b, c, col).value) == Success(CapturedPairs(b, c, col))
  {
    var post := AddMove(b, c, col).value;
    var d := Difference(b, post).value;
    var pairs := CapturedPairs(b, c, col);
    forall e | e in d ensures e in pairs {
      assert e.0 != c;
      assert CellAt(b, e.0) == Stone(e.1) && CellAt(post, e.0) != Stone(e.1);
      assert e.0 in Captured(b, c, col);
      assert e == (e.0, Opposite(col));
    }
    forall e | e in pairs ensures e in d {
      var p :| p in Captured(b, c, col) && e == (p, Opposite(col));
      assert p != c;
      assert CellAt(b, p) == Stone(Opposite(col)) && CellAt(post, p) == Empty;
    }
    assert d == pairs;
  }

  /** The captured pairs form one element exactly when one stone is captured. */
  lemma CapturedPairsSingleton(b: Board, c: Coord, col: Color, k: Coord, kcol: Color)
    ensures CapturedPairs(b, c, col) == {(k, kcol)} <==> Captured(b, c, col) == {k} && kcol == Opposite(col)
  {
    var pairs := CapturedPairs(b, c, col);
    if pairs == {(k, kcol)} {
      assert (k, kcol) in pairs;
      forall p | p in Captured(b, c, col) ensures p == k {
        assert (p, Opposite(col)) in pairs;
      }
    }
  }

  /** The only element of a one-element set. */
  function TheElement<T(==)>(s: set<T>): (x: T)
    requires |s| == 1
    ensures s == {x}
  {
    var x :| x in s;
    SingletonOfSize1(s, x);
    x
  }

  /** The second half of `followupKo`: whether retaking the captured stone at `k`
      with colour `kcol` is legal and removes exactly one stone, at `c`. */
  function RetakeTest(post: Board, c: Coord, k: Coord, kcol: Color): (r: Option<Coord>)
    requires CellAt(post, k) == Empty
    ensures r.Some? ==> r.value == k
  {
    if IsLegalMove(post, k, kcol) then
      var retaken := AddMove(post, k, kcol).value;
      var koTest := Difference(post, retaken).value;
      if |koTest| == 1 && TheElement(koTest).0 == c then Some(k) else None
    else
      None
  }

  /** The retake test succeeds exactly when the retake is played and captures only `c`. */
  lemma RetakeTestIff(post: Board, c: Coord, k: Coord, kcol: Color)
    requires CellAt(post, k) == Empty
    ensures RetakeTest(post, c, k, kcol) == Some(k) <==>
      AddMove(post, k, kcol).Success? && Captured(post, k, kcol) == {c}
  {
    if AddMove(post, k, kcol).Success? {
      AddMoveDifference(post, k, kcol);
      var koTest := Difference(post, AddMove(post, k, kcol).value).value;
      assert koTest == CapturedPairs(post, k, kcol);
      if |koTest| == 1 && TheElement(koTest).0 == c {
        var e := TheElement(koTest);
        CapturedPairsSingleton(post, k, kcol, c, e.1);
      }
      if Captured(post, k, kcol) == {c} {
        CapturedPairsSingleton(post, k, kcol, c, Opposite(kcol));
      }
    }
  }

  /** `followupKo`: the point where the opponent could immediately retake a
      single stone, recapturing exactly the stone just played; `None` otherwise.
      Only the coordinate of the recaptured stone is compared. */
  function FollowupKo(b: Board, c: Coord, col: Color): (r: Result<Option<Coord>, Thrown>)
    ensures r.Failure? <==> IsLegalMove(b, c, col) && CellAt(b, c) != Empty
    ensures r.Failure? ==> r.error == Text(OCCUPIED)
  {
    if !IsLegalMove(b, c, col) then
      Success(None)
    else
      var post :- AddMove(b, c, col);
      AddMoveDifference(b, c, col);
      var captured := Difference(b, post).value;
      if |captured| != 1 then
        Success(None)
      else
        var (capturedCoord, capturedColor) := TheElement(captured);
        assert capturedCoord in Captured(b, c, col) && capturedCoord != c;
        Success(RetakeTest(post, c, capturedCoord, capturedColor))
  }

  /** Two boards of one size that agree on every point are equal. */
  lemma BoardsEqualByCells(b1: Board, b2: Board)
    requires b1.dimensions == b2.dimensions && forall p :: CellAt(b1, p) == CellAt(b2, p)
    ensures b1 == b2
  {
    assert forall p :: p in b1.moves <==> p in b2.moves by {
      forall p ensures p in b1.moves <==> p in b2.moves {
        assert CellAt(b1, p) == CellAt(b2, p);
      }
    }
    forall p | p in b1.moves ensures b1.moves[p] == b2.moves[p] {
      assert CellAt(b1, p) == CellAt(b2, p);
    }
  }

  /** The point-by-point core of `RetakeRestores`: `post` is `b` with `c` played
      and `k` captured, `retaken` is `post` with `k` played and `removed` captured. */
  lemma RetakeCells(b: Board, post: Board, retaken: Board, c: Coord, k: Coord, col: Color, removed: set<Coord>)
    requires b.dimensions == post.dimensions == retaken.dimensions
    requires CellAt(b, c) == Empty && CellAt(b, k) == Stone(Opposite(col))
    requires CellAt(post, c) == Stone(col)
    requires forall p :: p != c ==> CellAt(post, p) == if p == k then Empty else CellAt(b, p)
    requires CellAt(retaken, k) == Stone(Opposite(col))
    requires forall p :: p != k ==> CellAt(retaken, p) == if p in removed then Empty else CellAt(post, p)
    requires forall p :: p in removed ==> CellAt(post, p) == Stone(col)
    ensures removed == {c} <==> retaken == b
  {
    if removed == {c} {
      forall p ensures CellAt(retaken, p) == CellAt(b, p) {
        if p != k && p != c {
          assert CellAt(post, p) == CellAt(b, p);
        }
      }
      BoardsEqualByCells(retaken, b);
    }
    if retaken == b {
      forall p ensures p in removed <==> p == c {
      }
    }
  }

  /** Playing `c` then retaking at `k` gives back the starting board exactly when
      the retake removes only the stone at `c`. */
  lemma RetakeRestores(b: Board, c: Coord, col: Color, k: Coord)
    requires AddMove(b, c, col).Success? && Captured(b, c, col) == {k}
    requires AddMove(AddMove(b, c, col).value, k, Opposite(col)).Success?
    ensures Captured(AddMove(b, c, col).value, k, Opposite(col)) == {c} <==>
      AddMove(AddMove(b, c, col).value, k, Opposite(col)) == Success(b)
  {
    var post := AddMove(b, c, col).value;
    var retaken := AddMove(post, k, Opposite(col)).value;
    OppositeInvolutive(col);
    assert k in Captured(b, c, col);
    RetakeCells(b, post, retaken, c, k, col, Captured(post, k, Opposite(col)));
  }

  /** `followupKo` names `k` exactly when the move captures the single stone at
      `k` and retaking at `k` restores the starting board: comparing only the
      recaptured coordinate agrees with comparing whole boards. */
  lemma FollowupKoIsSimpleKo(b: Board, c: Coord, col: Color, k: Coord)
    ensures FollowupKo(b, c, col) == Success(Some(k)) <==>
      && AddMove(b, c, col).Success?
      && Captured(b, c, col) == {k}
      && AddMove(AddMove(b, c, col).value, k, Opposite(col)) == Success(b)
  {
    if AddMove(b, c, col).Success? {
      var post := AddMove(b, c, col).value;
      AddMoveDifference(b, c, col);
      var captured := Difference(b, post).value;
      assert captured == CapturedPairs(b, c, col);
      if |captured| == 1 {
        var (kc, kcol) := TheElement(captured);
        CapturedPairsSingleton(b, c, col, kc, kcol);
        assert kc != c;
        assert FollowupKo(b, c, col) == Success(RetakeTest(post, c, kc, kcol));
        RetakeTestIff(post, c, kc, kcol);
        if AddMove(post, kc, kcol).Success? {
          RetakeRestores(b, c, col, kc);
        }
        if Captured(b, c, col) == {k} {
          assert kc == k;
        }
      } else {
        if Captured(b, c, col) == {k} {
          CapturedPairsSingleton(b, c, col, k, Opposite(col));
          assert false;
        }
      }
    }
  }

  /** The colour of the `i`th move when `start` plays first. */
  function MoveColor(start: Color, i: nat): (c: Color)
    ensures c == start <==> i % 2 == 0
  {
    if i % 2 == 0 then start else Opposite(start)
  }

  /** A move-playing callback such as `addMove`. */
  type Step = (Board, Coord, Color) -> Result<Board, Thrown>

  /** `step` on the board a previous step produced, if it produced one. */
  function StepAfter(step: Step, acc: Result<Board, Thrown>, c: Coord, col: Color): Result<Board, Thrown> {
    if acc.Failure? then Failure(acc.error) else step(acc.value, c, col)
  }

  /** The `reduce` of `constructBoard` after its first `n` moves. */
  function ReplayPrefix(step: Step, cs: seq<Coord>, b: Board, start: Color, n: nat): Result<Board, Thrown>
    requires n <= |cs|
  {
    if n == 0 then
      Success(b)
    else
      StepAfter(step, ReplayPrefix(step, cs, b, start, n - 1), cs[n - 1], MoveColor(start, n - 1))
  }

  /** `constructBoard`: `addMove` each coordinate in turn, alternating colours
      from `start`, on the given board or an empty 19x19 one. */
  function ConstructBoard(cs: seq<Coord>, board: Option<Board>, start: Color): Result<Board, Thrown> {
    var initial := if board.Some? then board.value else Board(19, map[]);
    ReplayPrefix(AddMove, cs, initial, start, |cs|)
  }

  /** Play the moves one after the other, the colour changing every move. */
  function PlayAlternating(step: Step, b: Board, cs: seq<Coord>, col: Color): Result<Board, Thrown>
    decreases |cs|
  {
    if cs == [] then
      Success(b)
    else
      var first := step(b, cs[0], col);
      if first.Failure? then first else PlayAlternating(step, first.value, cs[1..], Opposite(col))
  }

  lemma {:induction false} PlayAlternatingSnoc(step: Step, b: Board, cs: seq<Coord>, c: Coord, col: Color)
    ensures PlayAlternating(step, b, cs + [c], col) ==
      StepAfter(step, PlayAlternating(step, b, cs, col), c, MoveColor(col, |cs|))
    decreases |cs|
  {
    if cs == [] {
      assert [c] == cs + [c];
    } else {
      assert (cs + [c])[0] == cs[0];
      assert (cs + [c])[1..] == cs[1..] + [c];
      var first := step(b, cs[0], col);
      if first.Success? {
        PlayAlternatingSnoc(step, first.value, cs[1..], c, Opposite(col));
        OppositeInvolutive(col);
        assert MoveColor(Opposite(col), |cs[1..]|) == MoveColor(col, |cs|);
      }
    }
  }

  lemma {:induction false} ReplayPrefixIsAlternating(step: Step, cs: seq<Coord>, b: Board, start: Color, n: nat)
    requires n <= |cs|
    ensures ReplayPrefix(step, cs, b, start, n) == PlayAlternating(step, b, cs[..n], start)
  {
    if n > 0 {
      ReplayPrefixIsAlternating(step, cs, b, start, n - 1);
      assert cs[..n] == cs[..n - 1] + [cs[n - 1]];
      PlayAlternatingSnoc(step, b, cs[..n - 1], cs[n - 1], start);
    }
  }

  /** With no board given, `constructBoard` starts from an empty 19x19 board. */
  lemma ConstructBoardDefault(cs: seq<Coord>, start: Color)
    ensures ConstructBoard(cs, None, start) == PlayAlternating(AddMove, Board(19, map[]), cs, start)
    ensures ConstructBoard([], None, start) == Success(Board(19, map[]))
  {
    ReplayPrefixIsAlternating(AddMove, cs, Board(19, map[]), start, |cs|);
    assert cs[..|cs|] == cs;
  }

  /** `constructBoard` plays the first move with `start` and then alternates. */
  lemma ConstructBoardAlternates(cs: seq<Coord>, b: Board, start: Color)
    ensures ConstructBoard(cs, Some(b), start) == PlayAlternating(AddMove, b, cs, start)
  {
    ReplayPrefixIsAlternating(AddMove, cs, b, start, |cs|);
    assert cs[..|cs|] == cs;
  }

  // -------------------------------------------------------------- examples

  /** A white stone at (1, 1) with black stones on three sides; the point
      (2, 1) is its last liberty. */
  function CaptureBoard(): Board {
    Board(3, map[Coord(1, 0) := Black, Coord(0, 1) := Black, Coord(1, 2) := Black, Coord(1, 1) := White])
  }

  /** The white stone of `CaptureBoard` has the single liberty (2, 1). */
  lemma CaptureBoardLiberty()
    ensures Liberties(CaptureBoard(), Coord(1, 1)) == {Coord(2, 1)}
  {
    var b, w := CaptureBoard(), Coord(1, 1);
    assert Neighbours(b, w) == {} by {
      forall n | n in Adjacent(b, w) ensures CellAt(b, n) != Stone(White) {
      }
    }
    LoneStoneLibertySet(b, w);
    forall n ensures n in MatchingAdjacent(b, w, Empty) <==> n == Coord(2, 1) {
    }
  }

  /** Black playing (2, 1) on `CaptureBoard` captures exactly the white stone. */
  lemma CaptureBoardCaptured()
    ensures Captured(CaptureBoard(), Coord(2, 1), Black) == {Coord(1, 1)}
  {
    var b, w, c := CaptureBoard(), Coord(1, 1), Coord(2, 1);
    CaptureBoardTakes();
    forall p | p in Captured(b, c, Black) ensures p == w {
      CaptureBoardOneWhite(p);
    }
  }

  /** `KoBoard` is well formed and (2, 1) is empty on it. */
  lemma KoBoardShape()
    ensures WellFormed(KoBoard()) && OnBoard(KoBoard(), Coord(2, 1)) && CellAt(KoBoard(), Coord(2, 1)) == Empty
  {
  }

  /** The white stone is among the stones Black's move at (2, 1) captures. */
  lemma CaptureBoardTakes()
    ensures Coord(1, 1) in Captured(CaptureBoard(), Coord(2, 1), Black)
  {
    var b, w, c := CaptureBoard(), Coord(1, 1), Coord(2, 1);
    CaptureBoardLiberty();
    assert WellFormed(b) && c !in b.moves;
    CapturedIffLastLiberty(b, c, Black, w);
  }

  /** (1, 1) is the only white stone of `CaptureBoard`. */
  lemma CaptureBoardOneWhite(p: Coord)
    requires CellAt(CaptureBoard(), p) == Stone(White)
    ensures p == Coord(1, 1)
  {
  }

  /** The stones left after the capture at (2, 1). */
  lemma CaptureBoardAfter()
    ensures (CaptureBoard().moves - {Coord(1, 1)})[Coord(2, 1) := Black] ==
      map[Coord(1, 0) := Black, Coord(0, 1) := Black, Coord(1, 2) := Black, Coord(2, 1) := Black]
  {
  }

  /** Black fills the last liberty at (2, 1): the white stone is captured and
      only the four black stones remain. */
  lemma CaptureExample()
    ensures LibertyCount(CaptureBoard(), Coord(1, 1)) == 1
    ensures AddMove(CaptureBoard(), Coord(2, 1), Black) ==
      Success(Board(3, map[Coord(1, 0) := Black, Coord(0, 1) := Black, Coord(1, 2) := Black, Coord(2, 1) := Black]))
  {
    var b, w, c := CaptureBoard(), Coord(1, 1), Coord(2, 1);
    CaptureBoardLiberty();
    assert LibertyCount(b, w) == 1;
    assert w in MatchingAdjacent(b, c, Stone(Opposite(Black)));
    assert IsLegalMove(b, c, Black);
    CaptureBoardCaptured();
    CaptureBoardAfter();
  }

  /** A 4x4 ko shape: the white stone at (1, 1) sits in a black mouth whose
      open side (2, 1) is itself surrounded by white. */
  function KoBoard(): Board {
    Board(4, map[Coord(1, 0) := Black, Coord(0, 1) := Black, Coord(1, 2) := Black,
                 Coord(1, 1) := White, Coord(2, 0) := White, Coord(2, 2) := White, Coord(3, 1) := White])
  }

  /** `KoBoard` after Black plays (2, 1) and takes the stone at (1, 1). */
  function KoTaken(): Board {
    Board(4, map[Coord(1, 0) := Black, Coord(0, 1) := Black, Coord(1, 2) := Black, Coord(2, 1) := Black,
                 Coord(2, 0) := White, Coord(2, 2) := White, Coord(3, 1) := White])
  }

  /** Each white stone of `KoBoard` other than (1, 1) has a liberty besides (2, 1). */
  lemma KoOtherWhitesBreathe(p: Coord)
    requires CellAt(KoBoard(), p) == Stone(White) && p != Coord(1, 1)
    ensures Liberties(KoBoard(), p) != {Coord(2, 1)}
  {
    var b := KoBoard();
    var free := if p == Coord(2, 2) then Coord(3, 2) else Coord(3, 0);
    assert free in Adjacent(b, p) && free !in b.moves;
    assert p in GroupOf(b, p);
    LibertyOfMember(b, p, p, free);
  }

  /** Each black stone of `KoTaken` other than (2, 1) has a liberty besides (1, 1). */
  lemma KoOtherBlacksBreathe(p: Coord)
    requires CellAt(KoTaken(), p) == Stone(Black) && p != Coord(2, 1)
    ensures Liberties(KoTaken(), p) != {Coord(1, 1)}
  {
    var b := KoTaken();
    var free := if p == Coord(1, 2) then Coord(0, 2) else Coord(0, 0);
    assert free in Adjacent(b, p) && free !in b.moves;
    assert p in GroupOf(b, p);
    LibertyOfMember(b, p, p, free);
  }

  /** (2, 1) is the only empty point next to (1, 1) on `KoBoard`. */
  lemma KoMouthBeforeTake(n: Coord)
    requires n in Adjacent(KoBoard(), Coord(1, 1)) && CellAt(KoBoard(), n) == Empty
    ensures n == Coord(2, 1)
  {
  }

  /** (1, 1) is the only empty point next to (2, 1) on `KoTaken`. */
  lemma KoMouthAfterTake(n: Coord)
    requires n in Adjacent(KoTaken(), Coord(2, 1)) && CellAt(KoTaken(), n) == Empty
    ensures n == Coord(1, 1)
  {
  }

  /** On `KoBoard` the white stone at (1, 1) has the single liberty (2, 1). */
  lemma KoWhiteLastLiberty()
    ensures Liberties(KoBoard(), Coord(1, 1)) == {Coord(2, 1)}
  {
    var b, k, c := KoBoard(), Coord(1, 1), Coord(2, 1);
    assert Neighbours(b, k) == {} by {
      forall n | n in Adjacent(b, k) ensures CellAt(b, n) != Stone(White) {
      }
    }
    LoneStoneLibertySet(b, k);
    forall n ensures n in MatchingAdjacent(b, k, Empty) <==> n == c {
      if n in MatchingAdjacent(b, k, Empty) {
        KoMouthBeforeTake(n);
      }
    }
  }

  /** Black's move at (2, 1) would capture exactly the white stone at (1, 1). */
  lemma KoTakeCaptures()
    ensures Captured(KoBoard(), Coord(2, 1), Black) == {Coord(1, 1)}
  {
    KoTakeMember();
    forall p | p in Captured(KoBoard(), Coord(2, 1), Black) ensures p == Coord(1, 1) {
      KoTakeOnly(p);
    }
  }

  /** The white stone is among the stones taken. */
  lemma KoTakeMember()
    ensures Coord(1, 1) in Captured(KoBoard(), Coord(2, 1), Black)
  {
    KoWhiteLastLiberty();
    KoBoardShape();
    CapturedIffLastLiberty(KoBoard(), Coord(2, 1), Black, Coord(1, 1));
  }

  /** No other stone is taken. */
  lemma KoTakeOnly(p: Coord)
    requires p in Captured(KoBoard(), Coord(2, 1), Black)
    ensures p == Coord(1, 1)
  {
    KoBoardShape();
    CapturedIffLastLiberty(KoBoard(), Coord(2, 1), Black, p);
    if p != Coord(1, 1) {
      KoOtherWhitesBreathe(p);
    }
  }

  /** Black plays (2, 1) on `KoBoard` and takes the stone at (1, 1). */
  lemma KoTake()
    ensures AddMove(KoBoard(), Coord(2, 1), Black) == Success(KoTaken())
  {
    var b, k, c := KoBoard(), Coord(1, 1), Coord(2, 1);
    KoWhiteLastLiberty();
    KoTakeCaptures();
    assert k in MatchingAdjacent(b, c, Stone(Opposite(Black))) && LibertyCount(b, k) == 1;
    assert IsLegalMove(b, c, Black);
    KoTakenMoves();
  }

  /** The stones of `KoTaken`, computed from those of `KoBoard`. */
  lemma KoTakenMoves()
    ensures (KoBoard().moves - {Coord(1, 1)})[Coord(2, 1) := Black] == KoTaken().moves
  {
  }

  /** On `KoTaken` the black stone at (2, 1) has the single liberty (1, 1). */
  lemma KoBlackLastLiberty()
    ensures Liberties(KoTaken(), Coord(2, 1)) == {Coord(1, 1)}
  {
    var a, k, c := KoTaken(), Coord(1, 1), Coord(2, 1);
    assert Neighbours(a, c) == {} by {
      forall n | n in Adjacent(a, c) ensures CellAt(a, n) != Stone(Black) {
      }
    }
    LoneStoneLibertySet(a, c);
    forall n ensures n in MatchingAdjacent(a, c, Empty) <==> n == k {
      if n in MatchingAdjacent(a, c, Empty) {
        KoMouthAfterTake(n);
      }
    }
  }

  /** White's immediate retake at (1, 1) would capture exactly the black stone
      at (2, 1). */
  lemma KoRetakeCaptures()
    ensures Captured(KoTaken(), Coord(1, 1), White) == {Coord(2, 1)}
  {
    KoRetakeMember();
    forall p | p in Captured(KoTaken(), Coord(1, 1), White) ensures p == Coord(2, 1) {
      KoRetakeOnly(p);
    }
  }

  /** `KoTaken` is well formed and (1, 1) is empty on it. */
  lemma KoTakenShape()
    ensures WellFormed(KoTaken()) && OnBoard(KoTaken(), Coord(1, 1)) && CellAt(KoTaken(), Coord(1, 1)) == Empty
  {
  }

  /** The black stone is among the stones taken. */
  lemma KoRetakeMember()
    ensures Coord(2, 1) in Captured(KoTaken(), Coord(1, 1), White)
  {
    KoBlackLastLiberty();
    KoTakenShape();
    CapturedIffLastLiberty(KoTaken(), Coord(1, 1), White, Coord(2, 1));
  }

  /** No other stone is taken. */
  lemma KoRetakeOnly(p: Coord)
    requires p in Captured(KoTaken(), Coord(1, 1), White)
    ensures p == Coord(2, 1)
  {
    KoTakenShape();
    CapturedIffLastLiberty(KoTaken(), Coord(1, 1), White, p);
    if p != Coord(2, 1) {
      KoOtherBlacksBreathe(p);
    }
  }

  /** White retakes at (1, 1) on `KoTaken`: the result is `KoBoard` again. */
  lemma KoRetake()
    ensures AddMove(KoTaken(), Coord(1, 1), White) == Success(KoBoard())
  {
    var a, k, c := KoTaken(), Coord(1, 1), Coord(2, 1);
    KoBlackLastLiberty();
    KoRetakeCaptures();
    assert c in MatchingAdjacent(a, k, Stone(Opposite(White))) && LibertyCount(a, c) == 1;
    assert IsLegalMove(a, k, White);
    KoRetakeMoves();
  }

  /** The stones after the retake, computed from those of `KoTaken`. */
  lemma KoRetakeMoves()
    ensures (KoTaken().moves - {Coord(2, 1)})[Coord(1, 1) := White] == KoBoard().moves
  {
  }

  /** `followupKo(KoBoard, (2, 1), Black)` is the point (1, 1). */
  lemma KoExample()
    ensures FollowupKo(KoBoard(), Coord(2, 1), Black) == Success(Some(Coord(1, 1)))
  {
    KoTakeCaptures();
    KoTake();
    KoRetake();
    FollowupKoIsSimpleKo(KoBoard(), Coord(2, 1), Black, Coord(1, 1));
  }
}
