/**
 * Connected groups and their liberties (src/board.js `group`, `liberties`,
 * `libertyCount`). A group is the least set that contains the seed and is
 * closed under moving to an in-board neighbour in the same state.
 */
module Groups {
  import opened GoBoard

  /** Every point of the board, plus the seed (which may lie off the board). */
  function Region(b: Board, seed: Coord): (r: set<Coord>)
    ensures forall p :: p in r <==> p == seed || OnBoard(b, p)
  {
    var d := b.dimensions;
    (set x: int, y: int | 0 <= x < d && 0 <= y < d :: Coord(x, y)) + {seed}
  }

  /** Stepping from a member to a same-state neighbour never leaves `h`. */
  ghost predicate Closed(b: Board, h: set<Coord>) {
    forall p, n :: p in h && n in Neighbours(b, p) ==> n in h
  }

  /** `g` is the group of `seed`: it holds the seed, only points in the seed's
      state, is closed, and lies inside every closed set that holds the seed. */
  ghost predicate IsGroup(b: Board, seed: Coord, g: set<Coord>) {
    && seed in g
    && (forall p :: p in g ==> CellAt(b, p) == CellAt(b, seed))
    && Closed(b, g)
    && (forall h: set<Coord> :: seed in h && Closed(b, h) ==> g <= h)
  }

  /** A seed has exactly one group. */
  lemma GroupUnique(b: Board, seed: Coord, g1: set<Coord>, g2: set<Coord>)
    requires IsGroup(b, seed, g1) && IsGroup(b, seed, g2)
    ensures g1 == g2
  {
    assert g1 <= g2 && g2 <= g1;
  }

  /** An in-board neighbour in the same state is itself a same-state neighbour back. */
  lemma NeighboursSymmetric(b: Board, p: Coord, n: Coord)
    requires OnBoard(b, p) && n in Neighbours(b, p)
    ensures p in Neighbours(b, n)
  {
    assert p in Adjacent(b, n);
  }

  /** The same-state neighbours of every point of `frontier`. */
  function Expand(b: Board, frontier: set<Coord>): (r: set<Coord>)
    ensures forall n :: n in r ==> OnBoard(b, n)
  {
    set p, n | p in frontier && n in Neighbours(b, p) :: n
  }

  /** What a flood from `seed` keeps true between two layers. */
  ghost predicate FloodInvariant(b: Board, seed: Coord, found: set<Coord>, frontier: set<Coord>) {
    && found !! frontier
    && found + frontier <= Region(b, seed)
    && seed in found + frontier
    && (forall p :: p in found + frontier ==> CellAt(b, p) == CellAt(b, seed))
    && (forall p :: p in found ==> Neighbours(b, p) <= found + frontier)
    && (forall h: set<Coord> :: seed in h && Closed(b, h) ==> found + frontier <= h)
  }

  /** Breadth-first flood: absorb the frontier and move on to its new neighbours. */
  function Flood(b: Board, seed: Coord, found: set<Coord>, frontier: set<Coord>): set<Coord>
    requires found !! frontier && found + frontier <= Region(b, seed)
    decreases Region(b, seed) - found
  {
    if frontier == {} then
      found
    else
      var absorbed := found + frontier;
      assert Region(b, seed) - absorbed < Region(b, seed) - found by {
        var p :| p in frontier;
        assert p in Region(b, seed) - found && p !in Region(b, seed) - absorbed;
      }
      Flood(b, seed, absorbed, Expand(b, frontier) - absorbed)
  }

  lemma {:induction false} FloodIsGroup(b: Board, seed: Coord, found: set<Coord>, frontier: set<Coord>)
    requires FloodInvariant(b, seed, found, frontier)
    ensures IsGroup(b, seed, Flood(b, seed, found, frontier))
    ensures Flood(b, seed, found, frontier) <= Region(b, seed)
    decreases Region(b, seed) - found
  {
    if frontier == {} {
      assert Closed(b, found);
    } else {
      var absorbed := found + frontier;
      var next := Expand(b, frontier) - absorbed;
      assert Region(b, seed) - absorbed < Region(b, seed) - found by {
        var p :| p in frontier;
        assert p in Region(b, seed) - found && p !in Region(b, seed) - absorbed;
      }
      forall p | p in absorbed + next
        ensures CellAt(b, p) == CellAt(b, seed)
      {
        if p in next {
          var q :| q in frontier && p in Neighbours(b, q);
        }
      }
      forall h: set<Coord> | seed in h && Closed(b, h)
        ensures absorbed + next <= h
      {
        forall n | n in next ensures n in h {
          var q :| q in frontier && n in Neighbours(b, q);
        }
      }
      FloodIsGroup(b, seed, absorbed, next);
    }
  }

  /** `group(board, c)` as a value: the flood from `c`. */
  function GroupOf(b: Board, c: Coord): (g: set<Coord>)
    ensures IsGroup(b, c, g)
    ensures g <= Region(b, c)
  {
    FloodIsGroup(b, c, {}, {c});
    Flood(b, c, {}, {c})
  }

  /** One turn of the work-list loop keeps the flood invariant. */
  lemma GroupStep(b: Board, seed: Coord, found: set<Coord>, queue: set<Coord>, current: Coord)
    requires FloodInvariant(b, seed, found, queue) && current in queue
    ensures FloodInvariant(b, seed, found + {current},
      (queue - {current}) + (Neighbours(b, current) - (found + {current})))
  {
    var ns := Neighbours(b, current);
    var found' := found + {current};
    var queue' := (queue - {current}) + (ns - found');
    assert found' + queue' == found + queue + ns;
    assert found' + queue' <= Region(b, seed) by {
      forall n | n in ns
        ensures n in Region(b, seed)
      {
        assert n in Adjacent(b, current);
      }
    }
    assert forall p :: p in found' + queue' ==> CellAt(b, p) == CellAt(b, seed) by {
      assert forall n :: n in ns ==> CellAt(b, n) == CellAt(b, current);
    }
    forall h: set<Coord> | seed in h && Closed(b, h)
      ensures found' + queue' <= h
    {
      assert found + queue <= h;
    }
  }

  /** The loop has finished: an empty queue leaves exactly the group. */
  lemma GroupDone(b: Board, seed: Coord, found: set<Coord>)
    requires FloodInvariant(b, seed, found, {})
    ensures found == GroupOf(b, seed)
  {
    assert Closed(b, found);
    GroupUnique(b, seed, found, GroupOf(b, seed));
  }

  /** `group`: the source's work-list loop. Any member of the queue may be taken next. */
  method Group(b: Board, seed: Coord) returns (found: set<Coord>)
    ensures found == GroupOf(b, seed)
  {
    found := {};
    var queue := {seed};
    while queue != {}
      invariant FloodInvariant(b, seed, found, queue)
      decreases Region(b, seed) - found
    {
      var current :| current in queue;
      var moreMatching := Neighbours(b, current);
      GroupStep(b, seed, found, queue, current);
      assert current in Region(b, seed) - found;
      found := found + {current};
      queue := (queue - {current}) + (moreMatching - found);
    }
    GroupDone(b, seed, found);
  }

  /** Every member of an in-board group has that same group. */
  lemma GroupOfMember(b: Board, c: Coord, p: Coord)
    requires OnBoard(b, c) && p in GroupOf(b, c)
    ensures GroupOf(b, p) == GroupOf(b, c)
  {
    var gc, gp := GroupOf(b, c), GroupOf(b, p);
    assert gp <= gc;
    if c !in gp {
      var w := gc - gp;
      forall q, n | q in w && n in Neighbours(b, q)
        ensures n in w
      {
        if n in gp {
          NeighboursSymmetric(b, q, n);
        }
      }
      assert Closed(b, w);
      assert false;
    }
  }

  /** A point with no same-state neighbour is a group on its own. */
  lemma SingletonGroup(b: Board, c: Coord)
    requires Neighbours(b, c) == {}
    ensures GroupOf(b, c) == {c}
  {
    assert Closed(b, {c});
  }

  /** `liberties`: the empty neighbours of the group of `c`, each counted once. */
  function Liberties(b: Board, c: Coord): (r: set<Coord>)
    ensures forall n :: n in r <==>
      OnBoard(b, n) && CellAt(b, n) == Empty && exists p :: p in GroupOf(b, c) && Touching(p, n)
  {
    var r := set p, n | p in GroupOf(b, c) && n in MatchingAdjacent(b, p, Empty) :: n;
    assert forall n :: n in r <==>
      OnBoard(b, n) && CellAt(b, n) == Empty && exists p :: p in GroupOf(b, c) && Touching(p, n)
    by {
      forall n | OnBoard(b, n) && CellAt(b, n) == Empty && exists p :: p in GroupOf(b, c) && Touching(p, n)
        ensures n in r
      {
        var p :| p in GroupOf(b, c) && Touching(p, n);
        assert n in MatchingAdjacent(b, p, Empty);
      }
    }
    r
  }

  /** `libertyCount`: how many distinct liberties the group of `c` has. */
  function LibertyCount(b: Board, c: Coord): nat {
    |Liberties(b, c)|
  }

  /** All stones of one in-board group share one set of liberties. */
  lemma LibertiesShared(b: Board, c: Coord, p: Coord)
    requires OnBoard(b, c) && p in GroupOf(b, c)
    ensures Liberties(b, p) == Liberties(b, c)
  {
    GroupOfMember(b, c, p);
  }

  /** An empty point next to a member of the group is one of its liberties. */
  lemma LibertyOfMember(b: Board, c: Coord, p: Coord, n: Coord)
    requires p in GroupOf(b, c) && n in Adjacent(b, p) && CellAt(b, n) == Empty
    ensures n in Liberties(b, c) && LibertyCount(b, c) > 0
  {
  }

  /** A point with no neighbour in its own state has its empty neighbours as
      liberties. */
  lemma LoneStoneLibertySet(b: Board, c: Coord)
    requires Neighbours(b, c) == {}
    ensures Liberties(b, c) == MatchingAdjacent(b, c, Empty)
  {
    SingletonGroup(b, c);
  }

  /** A lone stone in the centre of an empty 3x3 board has four liberties. */
  lemma LoneStoneLiberties()
    ensures LibertyCount(Board(3, map[Coord(1, 1) := Black]), Coord(1, 1)) == 4
  {
    var b := Board(3, map[Coord(1, 1) := Black]);
    var c := Coord(1, 1);
    assert Neighbours(b, c) == {} by {
      forall n | n in Adjacent(b, c) ensures CellAt(b, n) == Empty {
      }
    }
    SingletonGroup(b, c);
    assert Liberties(b, c) == Adjacent(b, c);
    AdjacentCount(b, c);
  }
}
