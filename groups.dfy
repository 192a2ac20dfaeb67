/** What the flood fill of src/board.rs computes: the group of a cell is the
    connected component of that cell's colour, so every member of a group
    names the same group and has the same liberties. */
module GroupTheory {
  import opened Locs
  import opened Rules

  predicate HasColour(f: Fields, c: Color, x: Loc)
  {
    InRange(f, x) && Get(f, x) == c
  }

  /** `S` is closed under stepping to an adjacent cell of colour `c`. */
  ghost predicate Closed(f: Fields, c: Color, S: set<Loc>)
  {
    forall x, y | x in S && Adjacent(x, y) && HasColour(f, c, y) :: y in S
  }

  /** Every cell of `r` that is not in `v` has all its `c`-coloured
      neighbours in `r`. */
  ghost predicate ClosedBeyond(f: Fields, c: Color, v: seq<Loc>, r: seq<Loc>)
  {
    forall x, y | x in r && x !in v && Adjacent(x, y) && HasColour(f, c, y) :: y in r
  }

  lemma ClosedBeyondTrans(f: Fields, c: Color, a: seq<Loc>, b: seq<Loc>, d: seq<Loc>)
    requires Elems(a) <= Elems(b) <= Elems(d)
    requires ClosedBeyond(f, c, a, b) && ClosedBeyond(f, c, b, d)
    ensures ClosedBeyond(f, c, a, d)
  {
    forall x, y | x in d && x !in a && Adjacent(x, y) && HasColour(f, c, y)
      ensures y in d
    {
      if x in b {
        assert y in Elems(b);
      }
    }
  }

  /** The fill reaches its start cell when it has the colour. */
  lemma FillHasSeed(f: Fields, l: Loc, c: Color, v: seq<Loc>)
    requires WellFormed(f) && c != Color.Invalid && InRange(f, l)
    ensures HasColour(f, c, l) ==> l in Fill(f, l, c, v)
  {
    if l !in v && Get(f, l) == c {
      var v1 := v + [l];
      ExtendsOne(f, c, v, l);
      var v2 := Fill(f, Up(l), c, v1);
      ExtendsTrans(f, c, v, v1, v2);
      var v3 := Fill(f, Down(l), c, v2);
      ExtendsTrans(f, c, v, v2, v3);
      var v4 := Fill(f, Left(l), c, v3);
      ExtendsTrans(f, c, v, v3, v4);
      var r := Fill(f, Right(l), c, v4);
      ExtendsTrans(f, c, v, v4, r);
      assert l in Elems(v1);
      assert l in Elems(r);
    }
  }

  /** Closure past `v + [l]` extends to closure past `v` once the
      `c`-coloured neighbours of `l` are in. */
  lemma ClosedBeyondSeed(f: Fields, c: Color, v: seq<Loc>, l: Loc, r: seq<Loc>)
    requires l.row > 0 && l.col > 0
    requires ClosedBeyond(f, c, v + [l], r)
    requires forall y | y in Neighbours(l) && HasColour(f, c, y) :: y in r
    ensures ClosedBeyond(f, c, v, r)
  {
    forall x, y | x in r && x !in v && Adjacent(x, y) && HasColour(f, c, y)
      ensures y in r
    {
      if x == l {
        NeighboursAreAdjacent(l, y);
      } else {
        assert x !in v + [l];
      }
    }
  }

  /** One step of `flood_fill` from a new cell of colour `c`: the cell is
      interior, and the result is the four fills from its neighbours, each
      started from the cells the one before visited. */
  lemma FillStep(f: Fields, l: Loc, c: Color, v: seq<Loc>)
    requires WellFormed(f) && c != Color.Invalid && InRange(f, l)
    requires l !in v && Get(f, l) == c
    ensures l.row > 0 && l.col > 0
    ensures InRange(f, Up(l)) && InRange(f, Down(l)) && InRange(f, Left(l)) && InRange(f, Right(l))
    ensures Fill(f, l, c, v) ==
      Fill(f, Right(l), c, Fill(f, Left(l), c, Fill(f, Down(l), c, Fill(f, Up(l), c, v + [l]))))
  {
  }

  /** Those four fills only add cells, so each leaves fewer cells unvisited
      than there were before the step. */
  lemma FillChain(f: Fields, l: Loc, c: Color, v: seq<Loc>,
                  v2: seq<Loc>, v3: seq<Loc>, v4: seq<Loc>, r: seq<Loc>)
    requires WellFormed(f) && c != Color.Invalid && InRange(f, l)
    requires l !in v && Get(f, l) == c && l.row > 0 && l.col > 0
    requires InRange(f, Up(l)) && InRange(f, Down(l)) && InRange(f, Left(l)) && InRange(f, Right(l))
    requires v2 == Fill(f, Up(l), c, v + [l]) && v3 == Fill(f, Down(l), c, v2)
    requires v4 == Fill(f, Left(l), c, v3) && r == Fill(f, Right(l), c, v4)
    ensures Elems(v + [l]) <= Elems(v2) <= Elems(v3) <= Elems(v4) <= Elems(r)
    ensures Cells(|f|, |f[0]|) - Elems(v + [l]) < Cells(|f|, |f[0]|) - Elems(v)
    ensures Cells(|f|, |f[0]|) - Elems(v2) < Cells(|f|, |f[0]|) - Elems(v)
    ensures Cells(|f|, |f[0]|) - Elems(v3) < Cells(|f|, |f[0]|) - Elems(v)
    ensures Cells(|f|, |f[0]|) - Elems(v4) < Cells(|f|, |f[0]|) - Elems(v)
  {
    InCells(l, |f|, |f[0]|);
    var v1 := v + [l];
    ExtendsOne(f, c, v, l);
    ExtendsTrans(f, c, v1, v1, v2);
    ExtendsTrans(f, c, v1, v2, v3);
    ExtendsTrans(f, c, v1, v3, v4);
    ExtendsTrans(f, c, v1, v4, r);
  }

  /** Those four fills reach every `c`-coloured neighbour of the cell. */
  lemma NeighboursReached(f: Fields, l: Loc, c: Color,
                          v1: seq<Loc>, v2: seq<Loc>, v3: seq<Loc>, v4: seq<Loc>, r: seq<Loc>)
    requires WellFormed(f) && c != Color.Invalid && l.row > 0 && l.col > 0
    requires InRange(f, Up(l)) && InRange(f, Down(l)) && InRange(f, Left(l)) && InRange(f, Right(l))
    requires v2 == Fill(f, Up(l), c, v1) && v3 == Fill(f, Down(l), c, v2)
    requires v4 == Fill(f, Left(l), c, v3) && r == Fill(f, Right(l), c, v4)
    requires Elems(v2) <= Elems(v3) <= Elems(v4) <= Elems(r)
    ensures forall y | y in Neighbours(l) && HasColour(f, c, y) :: y in r
  {
    assert HasColour(f, c, Up(l)) ==> Up(l) in r by {
      FillHasSeed(f, Up(l), c, v1);
      assert Up(l) in v2 ==> Up(l) in Elems(v2);
    }
    assert HasColour(f, c, Down(l)) ==> Down(l) in r by {
      FillHasSeed(f, Down(l), c, v2);
      assert Down(l) in v3 ==> Down(l) in Elems(v3);
    }
    assert HasColour(f, c, Left(l)) ==> Left(l) in r by {
      FillHasSeed(f, Left(l), c, v3);
      assert Left(l) in v4 ==> Left(l) in Elems(v4);
    }
    assert HasColour(f, c, Right(l)) ==> Right(l) in r by {
      FillHasSeed(f, Right(l), c, v4);
    }
  }

  /** Every cell the fill itself added has all its `c`-coloured neighbours
      in the result. */
  lemma {:induction false} FillExplores(f: Fields, l: Loc, c: Color, v: seq<Loc>)
    requires WellFormed(f) && c != Color.Invalid && InRange(f, l)
    ensures ClosedBeyond(f, c, v, Fill(f, l, c, v))
    decreases Cells(|f|, |f[0]|) - Elems(v)
  {
    if l !in v && Get(f, l) == c {
      FillStep(f, l, c, v);
      var v1 := v + [l];
      var v2 := Fill(f, Up(l), c, v1);
      var v3 := Fill(f, Down(l), c, v2);
      var v4 := Fill(f, Left(l), c, v3);
      var r := Fill(f, Right(l), c, v4);
      FillChain(f, l, c, v, v2, v3, v4, r);
      FillExplores(f, Up(l), c, v1);
      FillExplores(f, Down(l), c, v2);
      FillExplores(f, Left(l), c, v3);
      FillExplores(f, Right(l), c, v4);
      ClosedBeyondTrans(f, c, v1, v2, v3);
      ClosedBeyondTrans(f, c, v1, v3, v4);
      ClosedBeyondTrans(f, c, v1, v4, r);
      NeighboursReached(f, l, c, v1, v2, v3, v4, r);
      ClosedBeyondSeed(f, c, v, l, r);
    }
  }

  /** The fill never leaves a closed set containing its start. */
  lemma {:induction false} FillWithin(f: Fields, l: Loc, c: Color, v: seq<Loc>, S: set<Loc>)
    requires WellFormed(f) && c != Color.Invalid && InRange(f, l)
    requires Closed(f, c, S) && Elems(v) <= S && (HasColour(f, c, l) ==> l in S)
    ensures Elems(Fill(f, l, c, v)) <= S
    decreases Cells(|f|, |f[0]|) - Elems(v)
  {
    if l !in v && Get(f, l) == c {
      FillStep(f, l, c, v);
      var v1 := v + [l];
      var v2 := Fill(f, Up(l), c, v1);
      var v3 := Fill(f, Down(l), c, v2);
      var v4 := Fill(f, Left(l), c, v3);
      var r := Fill(f, Right(l), c, v4);
      FillChain(f, l, c, v, v2, v3, v4, r);
      assert Adjacent(l, Up(l)) && Adjacent(l, Down(l)) && Adjacent(l, Left(l)) && Adjacent(l, Right(l));
      FillWithin(f, Up(l), c, v1, S);
      FillWithin(f, Down(l), c, v2, S);
      FillWithin(f, Left(l), c, v3, S);
      FillWithin(f, Right(l), c, v4, S);
    }
  }

  /** The start cell belongs to its own group. */
  lemma GroupHasSeed(f: Fields, a: Loc)
    requires WellFormed(f) && IsOnBoard(a, Size(f))
    ensures a in Group(f, a)
  {
    InteriorInRange(f, a);
    FillHasSeed(f, a, Get(f, a), []);
  }

  /** A group is closed under same-coloured adjacency. */
  lemma GroupClosed(f: Fields, a: Loc)
    requires WellFormed(f) && IsOnBoard(a, Size(f))
    ensures Closed(f, Get(f, a), Group(f, a))
  {
    InteriorInRange(f, a);
    FillExplores(f, a, Get(f, a), []);
  }

  /** A group lies inside every closed set that contains its start cell:
      with `GroupClosed`, the group is the connected component. */
  lemma GroupLeast(f: Fields, a: Loc, S: set<Loc>)
    requires WellFormed(f) && IsOnBoard(a, Size(f))
    requires Closed(f, Get(f, a), S) && a in S
    ensures Group(f, a) <= S
  {
    InteriorInRange(f, a);
    FillWithin(f, a, Get(f, a), [], S);
  }

  /** Every member names the same group: the flood fill from any stone of a
      group finds exactly that group. */
  lemma GroupCanonical(f: Fields, a: Loc, b: Loc)
    requires WellFormed(f) && IsOnBoard(a, Size(f))
    requires b in Group(f, a)
    ensures IsOnBoard(b, Size(f)) && Get(f, b) == Get(f, a)
    ensures Group(f, b) == Group(f, a)
  {
    var c := Get(f, a);
    GroupClosed(f, a);
    GroupLeast(f, b, Group(f, a));
    GroupClosed(f, b);
    GroupHasSeed(f, b);
    // the cells of a's group outside b's group form a closed set
    var d := Group(f, a) - Group(f, b);
    GroupHasSeed(f, a);
    if a in d {
      assert Closed(f, c, d) by {
        forall x, y | x in d && Adjacent(x, y) && HasColour(f, c, y)
          ensures y in d
        {
          assert y in Group(f, a);
          // were y in b's group, closure would put x there too
          assert Adjacent(y, x) && HasColour(f, c, x);
        }
      }
      GroupLeast(f, a, d);
      assert false;
    }
    GroupLeast(f, a, Group(f, b));
  }

  /** Two groups either coincide or share no cell. */
  lemma GroupsDisjointOrEqual(f: Fields, a: Loc, b: Loc)
    requires WellFormed(f) && IsOnBoard(a, Size(f)) && IsOnBoard(b, Size(f))
    ensures Group(f, a) == Group(f, b) || Group(f, a) !! Group(f, b)
  {
    if x :| x in Group(f, a) && x in Group(f, b) {
      GroupCanonical(f, a, x);
      GroupCanonical(f, b, x);
    }
  }

  /** `count_liberties` gives the same count for every stone of a group. */
  lemma GroupSharesLiberties(f: Fields, a: Loc, b: Loc)
    requires WellFormed(f) && IsOnBoard(a, Size(f))
    requires b in Group(f, a)
    ensures IsOnBoard(b, Size(f)) && Liberties(f, b) == Liberties(f, a)
  {
    GroupCanonical(f, a, b);
  }

  /** Adding one cell to a set of interior cells adds that cell's Empty
      neighbours to the liberties: the step of the `count_liberties` loop. */
  lemma LibertySetAdd(f: Fields, g: set<Loc>, x: Loc)
    requires WellFormed(f) && IsOnBoard(x, Size(f))
    requires forall y | y in g :: IsOnBoard(y, Size(f))
    ensures LibertySet(f, g + {x}) ==
      LibertySet(f, g) + (set y | y in Neighbours(x) && InRange(f, y) && Get(f, y) == Color.Empty)
  {
  }
}
