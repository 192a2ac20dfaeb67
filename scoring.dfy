/** Area counting of src/board.rs: empty regions ("islands"), the colour
    that owns each, territory, and the final result with captures and komi. */
module Scoring {
  import opened Locs
  import opened Rules
  import opened GroupTheory

  /** Every orthogonal neighbour of an interior cell is a cell of the matrix. */
  lemma NeighboursInRange(f: Fields, x: Loc)
    requires WellFormed(f) && IsOnBoard(x, Size(f))
    ensures forall y | y in Neighbours(x) :: InRange(f, y)
  {
  }

  /** Some cell of `g` touches a cell of colour `c`. */
  ghost predicate Borders(f: Fields, g: set<Loc>, c: Color)
  {
    exists x, y :: x in g && Adjacent(x, y) && HasColour(f, c, y)
  }

  /** `r` holds exactly the colours that `g` touches. */
  ghost predicate BorderSet(f: Fields, g: set<Loc>, r: set<Color>)
  {
    forall c :: c in r <==> Borders(f, g, c)
  }

  /** `get_bordering_colors`: the colours of the four neighbours of every
      cell of the island, which are exactly the colours the island touches. */
  function BorderingColors(f: Fields, island: set<Loc>): (r: set<Color>)
    requires WellFormed(f)
    requires forall x | x in island :: IsOnBoard(x, Size(f))
    ensures BorderSet(f, island, r)
  {
    var r := set x, y | x in island && IsOnBoard(x, Size(f)) && y in Neighbours(x) && InRange(f, y) :: Get(f, y);
    BorderingCells(f, island, r);
    r
  }

  lemma BorderingCells(f: Fields, g: set<Loc>, r: set<Color>)
    requires WellFormed(f)
    requires forall x | x in g :: IsOnBoard(x, Size(f))
    requires r == set x, y | x in g && IsOnBoard(x, Size(f)) && y in Neighbours(x) && InRange(f, y) :: Get(f, y)
    ensures BorderSet(f, g, r)
  {
    forall c
      ensures c in r <==> Borders(f, g, c)
    {
      if c in r {
        var x, y :| x in g && IsOnBoard(x, Size(f)) && y in Neighbours(x) && InRange(f, y) && Get(f, y) == c;
        NeighboursAreAdjacent(x, y);
        assert HasColour(f, c, y);
      }
      if Borders(f, g, c) {
        var x, y :| x in g && Adjacent(x, y) && HasColour(f, c, y);
        NeighboursAreAdjacent(x, y);
        NeighboursInRange(f, x);
        assert Get(f, y) in r;
      }
    }
  }

  /** The colour an empty region counts for: the one stone colour it touches
      when it touches exactly one, Empty (dame) otherwise. */
  ghost function Owner(f: Fields, g: set<Loc>): (c: Color)
    ensures c != Color.Invalid
    ensures c != Color.Empty ==> Borders(f, g, c)
    ensures c == Color.Empty <==> (Borders(f, g, Color.Black) <==> Borders(f, g, Color.White))
  {
    if Borders(f, g, Color.Black) && !Borders(f, g, Color.White) then Color.Black
    else if Borders(f, g, Color.White) && !Borders(f, g, Color.Black) then Color.White
    else Color.Empty
  }

  /** `count_potential_points`: (Invalid, 0) on a non-empty cell; otherwise
      the owner of the cell's empty region with its size, or (Empty, 0) when
      the region is dame. */
  function CountPotentialPoints(f: Fields, l: Loc): (r: (Color, int))
    requires WellFormed(f) && InRange(f, l)
    ensures Get(f, l) != Color.Empty ==> r == (Color.Invalid, 0)
    ensures Get(f, l) == Color.Empty ==>
              IsOnBoard(l, Size(f)) && r.0 == Owner(f, Group(f, l)) &&
              r.1 == (if r.0 == Color.Empty then 0 else |Group(f, l)|)
  {
    if Get(f, l) != Color.Empty then (Color.Invalid, 0)
    else
      var group := GroupList(f, l);
      var bordering := BorderingColors(f, Elems(group));
      var bothColors := Color.Black in bordering && Color.White in bordering;
      var boardIsEmpty := |bordering| == 1 && Color.Invalid in bordering;
      OnlyMember(bordering, Color.Invalid);
      var dame := bothColors || boardIsEmpty;
      if dame then (Color.Empty, 0)
      else
        var points := |group|;
        var afterBlack := if Color.Black in bordering then (Color.Black, points) else (Color.Empty, 0);
        if Color.White in bordering then (Color.White, points) else afterBlack
  }

  lemma OnlyMember(s: set<Color>, a: Color)
    ensures |s| == 1 && a in s ==> s == {a}
  {
    if |s| == 1 && a in s {
      var t := s - {a};
      assert s == t + {a};
      assert |t| == 0;
    }
  }

  /** Every cell of an empty region gets the same answer. */
  lemma PotentialPointsPerRegion(f: Fields, l: Loc, x: Loc)
    requires WellFormed(f) && InRange(f, l) && Get(f, l) == Color.Empty
    requires x in Group(f, l)
    ensures InRange(f, x) && CountPotentialPoints(f, x) == CountPotentialPoints(f, l)
  {
    GroupCanonical(f, l, x);
  }

  /** The empty cells of the matrix. */
  ghost function EmptyCells(f: Fields): set<Loc>
    requires WellFormed(f)
  {
    set l | l in Cells(|f|, |f[0]|) && InRange(f, l) && Get(f, l) == Color.Empty
  }

  /** As a set of location sets, what `empty_islands` collects: the group of
      every empty cell. */
  ghost function Islands(f: Fields): set<set<Loc>>
    requires WellFormed(f)
  {
    set l | l in EmptyCells(f) :: Group(f, l)
  }

  /** The islands partition the empty cells. */
  lemma IslandsPartition(f: Fields)
    requires WellFormed(f)
    ensures forall g | g in Islands(f) :: g != {} && g <= EmptyCells(f)
    ensures forall l | l in EmptyCells(f) :: l in Group(f, l) && Group(f, l) in Islands(f)
    ensures forall g, h | g in Islands(f) && h in Islands(f) :: g == h || g !! h
  {
    forall g | g in Islands(f)
      ensures g != {} && g <= EmptyCells(f)
    {
      var l :| l in EmptyCells(f) && g == Group(f, l);
      GroupHasSeed(f, l);
      forall x | x in g
        ensures x in EmptyCells(f)
      {
        InCells(x, |f|, |f[0]|);
      }
    }
    forall l | l in EmptyCells(f)
      ensures l in Group(f, l)
    {
      GroupHasSeed(f, l);
    }
    forall g, h | g in Islands(f) && h in Islands(f)
      ensures g == h || g !! h
    {
      var a :| a in EmptyCells(f) && g == Group(f, a);
      var b :| b in EmptyCells(f) && h == Group(f, b);
      GroupsDisjointOrEqual(f, a, b);
    }
  }

  /** The empty cells counted for `c`. */
  ghost function Territory(f: Fields, c: Color): (t: set<Loc>)
    requires WellFormed(f)
    ensures t <= EmptyCells(f)
    ensures IsStone(c) ==> forall l | l in t :: Borders(f, Group(f, l), c)
  {
    set l | l in EmptyCells(f) && Owner(f, Group(f, l)) == c
  }

  /** An island is entirely in `c`'s territory or entirely outside it, as its
      owner decides. */
  lemma IslandTerritory(f: Fields, l: Loc, c: Color)
    requires WellFormed(f) && l in EmptyCells(f)
    ensures Owner(f, Group(f, l)) == c ==> Group(f, l) <= Territory(f, c)
    ensures Owner(f, Group(f, l)) != c ==> Group(f, l) * Territory(f, c) == {}
  {
    forall x | x in Group(f, l)
      ensures x in EmptyCells(f) && Group(f, x) == Group(f, l)
    {
      GroupCanonical(f, l, x);
      InCells(x, |f|, |f[0]|);
    }
  }

  /** Adding a whole island to a set of cells disjoint from it adds its
      size to that set's share of `c`'s territory exactly when `c` owns it. */
  lemma TerritoryStep(f: Fields, covered: set<Loc>, l: Loc, c: Color)
    requires WellFormed(f) && l in EmptyCells(f) && covered !! Group(f, l)
    ensures |(covered + Group(f, l)) * Territory(f, c)| ==
      |covered * Territory(f, c)| + (if Owner(f, Group(f, l)) == c then |Group(f, l)| else 0)
  {
    var g := Group(f, l);
    var t := Territory(f, c);
    IslandTerritory(f, l, c);
    DisjointShare(covered, g, t);
    if Owner(f, g) == c {
      InsideShare(g, t);
    }
  }

  /** The share of `t` in a union of disjoint sets is the sum of the shares. */
  lemma DisjointShare(a: set<Loc>, b: set<Loc>, t: set<Loc>)
    requires a !! b
    ensures |(a + b) * t| == |a * t| + |b * t|
  {
    assert (a + b) * t == (a * t) + (b * t);
    assert (a * t) !! (b * t);
  }

  lemma InsideShare(g: set<Loc>, t: set<Loc>)
    requires g <= t
    ensures |g * t| == |g|
  {
    assert g * t == g;
  }

  /** `GameResult`. */
  datatype GameResult = Winner(player: Player, margin: real) | Draw

  /** The decision at the end of `count_score`. */
  function Decide(black: real, white: real): (r: GameResult)
    ensures r == Draw <==> black == white
    ensures r.Winner? ==> (r.player == Player.Black <==> black > white)
    ensures r.Winner? ==>
              r.margin > 0.0 && r.margin == (if black > white then black - white else white - black)
  {
    if black - white == 0.0 then Draw
    else if black > white then Winner(Player.Black, black - white)
    else Winner(Player.White, white - black)
  }

  /** `count_score` after the interactive dead-stone removal: territory plus
      captures for Black, territory plus captures plus komi for White. */
  ghost function Score(s: Snapshot): (r: GameResult)
    requires Valid(s)
    ensures var black := |Territory(s.fields, Color.Black)| as real + s.blackCaptures as real;
      var white := |Territory(s.fields, Color.White)| as real + s.whiteCaptures as real + s.komi;
      (r == Draw <==> black == white) &&
      (r.Winner? ==> (r.player == Player.Black <==> black > white) &&
                     r.margin == (if black > white then black - white else white - black))
  {
    var black := |Territory(s.fields, Color.Black)| as real + s.blackCaptures as real;
    var white := |Territory(s.fields, Color.White)| as real + s.whiteCaptures as real + s.komi;
    Decide(black, white)
  }
}
