/** What the capture step of `play` in src/board.rs achieves. Removing a dead
    group leaves every other stone group as it was, so after a stone move no
    stone next to it is left without a liberty, and an opposing group that the
    new stone took the last liberty from is taken off and counted. */
module CaptureFacts {
  import opened Locs
  import opened Rules
  import opened GroupTheory
  import opened PlayFacts

  /** The stones `q` has captured: White's stones go to `black_captures`. */
  function Captures(s: Snapshot, q: Player): int
  {
    if q == Player.Black then s.blackCaptures else s.whiteCaptures
  }

  /** The cell `n` holds no stone, or a stone whose group has a liberty. */
  ghost predicate Alive(f: Fields, n: Loc)
    requires WellFormed(f)
  {
    InRange(f, n) && (IsStone(Get(f, n)) ==> IsOnBoard(n, Size(f)) && Liberties(f, n) > 0)
  }

  /** Emptying the group of the stone at `m` leaves the group of any stone
      `n` outside it unchanged and fills none of its liberties; when the two
      groups have one colour, the liberties stay exactly the same. */
  lemma ClearOtherGroup(f: Fields, m: Loc, n: Loc)
    requires WellFormed(f) && IsOnBoard(m, Size(f)) && IsOnBoard(n, Size(f))
    requires IsStone(Get(f, m)) && IsStone(Get(f, n)) && n !in Group(f, m)
    ensures WellFormed(Clear(f, Group(f, m))) && Size(Clear(f, Group(f, m))) == Size(f)
    ensures Get(Clear(f, Group(f, m)), n) == Get(f, n)
    ensures Group(Clear(f, Group(f, m)), n) == Group(f, n)
    ensures LibertySet(f, Group(f, n)) <= LibertySet(Clear(f, Group(f, m)), Group(f, n))
    ensures Get(f, m) == Get(f, n) ==>
      LibertySet(Clear(f, Group(f, m)), Group(f, n)) == LibertySet(f, Group(f, n))
  {
    ClearKeepsGroup(f, m, n);
    ClearKeepsLiberties(f, m, n);
  }

  lemma ClearKeepsGroup(f: Fields, m: Loc, n: Loc)
    requires WellFormed(f) && IsOnBoard(m, Size(f)) && IsOnBoard(n, Size(f))
    requires IsStone(Get(f, m)) && IsStone(Get(f, n)) && n !in Group(f, m)
    ensures WellFormed(Clear(f, Group(f, m))) && Size(Clear(f, Group(f, m))) == Size(f)
    ensures Get(Clear(f, Group(f, m)), n) == Get(f, n)
    ensures Group(Clear(f, Group(f, m)), n) == Group(f, n)
  {
    var G := Group(f, m);
    var g := Group(f, n);
    var r := Clear(f, G);
    var c := Get(f, n);
    GroupClosed(f, m);
    GroupClosed(f, n);
    GroupHasSeed(f, n);
    GroupsDisjointOrEqual(f, m, n);
    assert g !! G;
    assert Closed(r, c, g) by {
      forall x, y | x in g && Adjacent(x, y) && HasColour(r, c, y)
        ensures y in g
      {
        assert HasColour(f, c, y);
      }
    }
    GroupLeast(r, n, g);
    var h := Group(r, n);
    GroupClosed(r, n);
    assert Closed(f, c, h) by {
      forall x, y | x in h && Adjacent(x, y) && HasColour(f, c, y)
        ensures y in h
      {
        if y in G {
          // the removed group would have reached x
          assert false;
        }
        assert HasColour(r, c, y);
      }
    }
    GroupHasSeed(r, n);
    GroupLeast(f, n, h);
  }

  lemma ClearKeepsLiberties(f: Fields, m: Loc, n: Loc)
    requires WellFormed(f) && IsOnBoard(m, Size(f)) && IsOnBoard(n, Size(f))
    requires IsStone(Get(f, m)) && IsStone(Get(f, n)) && n !in Group(f, m)
    ensures WellFormed(Clear(f, Group(f, m))) && Size(Clear(f, Group(f, m))) == Size(f)
    ensures LibertySet(f, Group(f, n)) <= LibertySet(Clear(f, Group(f, m)), Group(f, n))
    ensures Get(f, m) == Get(f, n) ==>
      LibertySet(Clear(f, Group(f, m)), Group(f, n)) == LibertySet(f, Group(f, n))
  {
    var G := Group(f, m);
    var g := Group(f, n);
    var r := Clear(f, G);
    var c := Get(f, n);
    GroupClosed(f, n);
    GroupHasSeed(f, n);
    GroupsDisjointOrEqual(f, m, n);
    assert g !! G;
    forall x | x in G
      ensures InRange(f, x) && Get(f, x) != Color.Invalid
    {
      GroupCanonical(f, m, x);
    }
    forall y | y in LibertySet(f, g)
      ensures y in LibertySet(r, g)
    {
      var x :| x in g && IsOnBoard(x, Size(f)) && y in Neighbours(x) && InRange(f, y) && Get(f, y) == Color.Empty;
      assert InRange(r, y) && Get(r, y) == Color.Empty;
    }
    if Get(f, m) == c {
      forall y | y in LibertySet(r, g)
        ensures y in LibertySet(f, g)
      {
        var x :| x in g && IsOnBoard(x, Size(r)) && y in Neighbours(x) && InRange(r, y) && Get(r, y) == Color.Empty;
        NeighboursAreAdjacent(x, y);
        if y in G {
          // the removed group has the colour of g and touches it
          GroupCanonical(f, m, y);
          assert HasColour(f, c, y);
          assert false;
        }
      }
    }
  }

  /** A stone group with a liberty survives the capture step at any cell,
      with the same stones and at least the liberties it had. */
  lemma LivingGroupSurvives(s: Snapshot, l: Loc, n: Loc)
    requires Valid(s) && InRange(s.fields, l) && IsOnBoard(n, Size(s.fields))
    requires IsStone(Get(s.fields, n)) && Liberties(s.fields, n) > 0
    ensures Get(CheckRemove(s, l).fields, n) == Get(s.fields, n)
    ensures Group(CheckRemove(s, l).fields, n) == Group(s.fields, n)
    ensures Liberties(CheckRemove(s, l).fields, n) >= Liberties(s.fields, n)
  {
    var f := s.fields;
    if Dead(f, l) {
      if n in Group(f, l) {
        GroupSharesLiberties(f, l, n);
        assert false;
      }
      RemoveGroupIs(s, l);
      ClearOtherGroup(f, l, n);
      var r := Clear(f, Group(f, l));
      SubsetCard(LibertySet(f, Group(f, n)), LibertySet(r, Group(r, n)));
    }
  }

  lemma SubsetCard(a: set<Loc>, b: set<Loc>)
    requires a <= b
    ensures |a| <= |b|
  {
    assert b == a + (b - a);
  }

  /** After the capture step at `l`, the cell `l` is alive. */
  lemma CheckRemoveSettles(s: Snapshot, l: Loc)
    requires Valid(s) && InRange(s.fields, l)
    ensures Alive(CheckRemove(s, l).fields, l)
  {
    if Dead(s.fields, l) {
      GroupHasSeed(s.fields, l);
    }
  }

  /** The capture step at any cell keeps an alive cell alive. */
  lemma CheckRemoveKeepsAlive(s: Snapshot, l: Loc, n: Loc)
    requires Valid(s) && InRange(s.fields, l) && Alive(s.fields, n)
    ensures Alive(CheckRemove(s, l).fields, n)
  {
    if IsStone(Get(s.fields, n)) {
      LivingGroupSurvives(s, l, n);
    }
  }

  /** After a stone move every neighbouring stone, of either colour, has a
      liberty: the capture step leaves no dead group next to the new stone. */
  lemma PlayLeavesNeighboursAlive(s: Snapshot, mv: Move)
    requires Valid(s) && IsOnBoard(mv.loc, Size(s.fields)) && !IsPass(mv.loc)
    ensures forall n | n in Neighbours(mv.loc) :: Alive(Play(s, mv).fields, n)
  {
    PlayIsFourSteps(s, mv);
    RunIsFourSteps(Placed(s, mv), mv.loc);
    AroundInRange(Placed(s, mv).fields, mv.loc);
    RunSettles(Placed(s, mv), Neighbours(mv.loc));
  }

  /** The capture steps at the cells of `ls`, in order: the state after
      them. */
  ghost function Run(b: Snapshot, ls: seq<Loc>): (r: Snapshot)
    requires Valid(b)
    ensures Valid(r) && SameShape(r.fields, b.fields) && Size(r.fields) == Size(b.fields)
    decreases |ls|
  {
    if ls == [] then b
    else if InRange(b.fields, ls[0]) then Run(CheckRemove(b, ls[0]), ls[1..])
    else Run(b, ls[1..])
  }

  /** The cells still to visit stay in the matrix after a capture step. */
  lemma RangeCarries(b: Snapshot, b1: Snapshot, ls: seq<Loc>)
    requires ls != [] && SameShape(b1.fields, b.fields)
    requires forall x | x in ls :: InRange(b.fields, x)
    ensures forall x | x in ls[1..] :: InRange(b1.fields, x)
  {
    forall x | x in ls[1..]
      ensures InRange(b1.fields, x)
    {
      assert x in ls;
    }
  }

  /** The run over the four neighbours of `l` is the four capture steps of
      `play`. */
  lemma RunIsFourSteps(b: Snapshot, l: Loc)
    requires Valid(b) && IsOnBoard(l, Size(b.fields))
    ensures Run(b, Neighbours(l)) ==
      CheckRemove(CheckRemove(CheckRemove(CheckRemove(b, Up(l)), Down(l)), Left(l)), Right(l))
  {
    AroundInRange(b.fields, l);
    assert Neighbours(l) == [Up(l)] + [Down(l), Left(l), Right(l)];
    RunCons(b, Up(l), [Down(l), Left(l), Right(l)]);
    RunLastThree(CheckRemove(b, Up(l)), l);
  }

  lemma RunLastThree(b: Snapshot, l: Loc)
    requires Valid(b) && IsOnBoard(l, Size(b.fields))
    ensures Run(b, [Down(l), Left(l), Right(l)]) ==
      CheckRemove(CheckRemove(CheckRemove(b, Down(l)), Left(l)), Right(l))
  {
    AroundInRange(b.fields, l);
    assert [Down(l), Left(l), Right(l)] == [Down(l)] + [Left(l), Right(l)];
    RunCons(b, Down(l), [Left(l), Right(l)]);
    RunLastTwo(CheckRemove(b, Down(l)), l);
  }

  lemma RunLastTwo(b: Snapshot, l: Loc)
    requires Valid(b) && IsOnBoard(l, Size(b.fields))
    ensures Run(b, [Left(l), Right(l)]) == CheckRemove(CheckRemove(b, Left(l)), Right(l))
  {
    AroundInRange(b.fields, l);
    assert [Left(l), Right(l)] == [Left(l)] + [Right(l)];
    RunCons(b, Left(l), [Right(l)]);
    var b1 := CheckRemove(b, Left(l));
    AroundInRange(b1.fields, l);
    assert [Right(l)] == [Right(l)] + [];
    RunCons(b1, Right(l), []);
  }

  /** The four neighbours of an interior cell are cells of the matrix. */
  lemma AroundInRange(f: Fields, l: Loc)
    requires Rect(f) && IsOnBoard(l, Size(f))
    ensures InRange(f, Up(l)) && InRange(f, Down(l)) && InRange(f, Left(l)) && InRange(f, Right(l))
    ensures forall x | x in Neighbours(l) :: InRange(f, x)
  {
  }

  /** A run starts with the capture step at its first cell. */
  lemma RunCons(b: Snapshot, x: Loc, rest: seq<Loc>)
    requires Valid(b) && InRange(b.fields, x)
    ensures Run(b, [x] + rest) == Run(CheckRemove(b, x), rest)
  {
    var ls := [x] + rest;
    assert ls[0] == x && ls[1..] == rest;
  }

  /** The capture steps at the cells of `ls` keep an alive cell alive. */
  lemma {:induction false} RunKeepsAlive(b: Snapshot, ls: seq<Loc>, n: Loc)
    requires Valid(b) && (forall x | x in ls :: InRange(b.fields, x)) && Alive(b.fields, n)
    ensures Alive(Run(b, ls).fields, n)
    decreases |ls|
  {
    if ls != [] {
      CheckRemoveKeepsAlive(b, ls[0], n);
      RangeCarries(b, CheckRemove(b, ls[0]), ls);
      RunKeepsAlive(CheckRemove(b, ls[0]), ls[1..], n);
    }
  }

  /** After the capture steps at the cells of `ls`, every one of them is
      alive: each is settled by its own step and kept alive by the later
      ones. */
  lemma {:induction false} RunSettles(b: Snapshot, ls: seq<Loc>)
    requires Valid(b) && forall x | x in ls :: InRange(b.fields, x)
    ensures forall n | n in ls :: Alive(Run(b, ls).fields, n)
    decreases |ls|
  {
    if ls != [] {
      var b1 := CheckRemove(b, ls[0]);
      CheckRemoveSettles(b, ls[0]);
      RangeCarries(b, b1, ls);
      RunKeepsAlive(b1, ls[1..], ls[0]);
      RunSettles(b1, ls[1..]);
    }
  }

  /** The cells of `g` are all Empty and `q` has captured at least `base`
      plus their number. */
  ghost predicate Taken(b: Snapshot, g: set<Loc>, q: Player, base: int)
  {
    (forall x | x in g :: InRange(b.fields, x) && Get(b.fields, x) == Color.Empty) &&
    Captures(b, q) >= base + |g|
  }

  /** The new stone at `p` is gone, or the group `g` has been taken. */
  ghost predicate Settled(b: Snapshot, p: Loc, g: set<Loc>, q: Player, base: int)
  {
    (InRange(b.fields, p) && Get(b.fields, p) == Color.Empty) || Taken(b, g, q, base)
  }

  /** The new stone of `q` at `p` is in place and `g`, the group of the
      opposing stone at `n`, is still on the board without a liberty. */
  ghost predicate Pending(b: Snapshot, p: Loc, n: Loc, g: set<Loc>, q: Player, base: int)
    requires Valid(b)
  {
    InRange(b.fields, p) && Get(b.fields, p) == ToColor(q) &&
    IsOnBoard(n, Size(b.fields)) && Get(b.fields, n) == ToColor(Opponent(q)) &&
    Group(b.fields, n) == g && Liberties(b.fields, n) == 0 && Captures(b, q) >= base
  }

  /** One capture step next to the new stone at `p`: a settled group stays
      settled, and a pending group stays pending or is settled; the step at
      `n` itself settles it. */
  lemma TrackStep(b: Snapshot, l: Loc, p: Loc, n: Loc, g: set<Loc>, q: Player, base: int)
    requires Valid(b) && InRange(b.fields, l) && InRange(b.fields, p) && Adjacent(p, l)
    requires Settled(b, p, g, q, base) || Pending(b, p, n, g, q, base)
    ensures Settled(CheckRemove(b, l), p, g, q, base) || Pending(CheckRemove(b, l), p, n, g, q, base)
    ensures Settled(b, p, g, q, base) || l == n ==> Settled(CheckRemove(b, l), p, g, q, base)
  {
    if Settled(b, p, g, q, base) {
      SettledStays(b, l, p, g, q, base);
    } else {
      PendingStep(b, l, p, n, g, q, base);
    }
  }

  /** The capture step at any cell keeps a settled group settled. */
  lemma SettledStays(b: Snapshot, l: Loc, p: Loc, g: set<Loc>, q: Player, base: int)
    requires Valid(b) && InRange(b.fields, l) && Settled(b, p, g, q, base)
    ensures Settled(CheckRemove(b, l), p, g, q, base)
  {
    var r := CheckRemove(b, l);
    CheckRemoveOnlyEmpties(b, l);
    if InRange(b.fields, p) && Get(b.fields, p) == Color.Empty {
      assert InRange(r.fields, p);
    } else {
      forall x | x in g
        ensures InRange(r.fields, x) && Get(r.fields, x) == Color.Empty
      {
        assert InRange(b.fields, x);
      }
    }
  }

  /** The capture step at a cell next to the new stone, while the opposing
      group is pending: it leaves the group pending or settles it, and the
      step at `n` settles it. */
  lemma PendingStep(b: Snapshot, l: Loc, p: Loc, n: Loc, g: set<Loc>, q: Player, base: int)
    requires Valid(b) && InRange(b.fields, l) && Adjacent(p, l) && Pending(b, p, n, g, q, base)
    ensures Settled(CheckRemove(b, l), p, g, q, base) || Pending(CheckRemove(b, l), p, n, g, q, base)
    ensures l == n ==> Settled(CheckRemove(b, l), p, g, q, base)
  {
    var f := b.fields;
    assert Dead(f, n);
    if !Dead(f, l) {
      assert CheckRemove(b, l) == b;
    } else if n in Group(f, l) {
      PendingCaptured(b, l, p, n, g, q, base);
    } else if Get(f, l) == Get(f, n) {
      PendingKept(b, l, p, n, g, q, base);
    } else {
      PendingOwnGroup(b, l, p, n, g, q, base);
    }
  }

  /** The dead group at `l` is the pending group: it is taken. */
  lemma PendingCaptured(b: Snapshot, l: Loc, p: Loc, n: Loc, g: set<Loc>, q: Player, base: int)
    requires Valid(b) && InRange(b.fields, l) && Pending(b, p, n, g, q, base)
    requires Dead(b.fields, l) && n in Group(b.fields, l)
    ensures Taken(CheckRemove(b, l), g, q, base)
  {
    var f := b.fields;
    var r := CheckRemove(b, l);
    GroupCanonical(f, l, n);
    forall x | x in g
      ensures InRange(r.fields, x) && Get(r.fields, x) == Color.Empty
    {
      GroupCanonical(f, l, x);
    }
    assert Captures(r, q) == Captures(b, q) + |g| by {
      if q == Player.Black {} else {}
    }
  }

  /** The dead group at `l` is another group of the opposing colour: the
      pending group keeps its stones and stays without a liberty. */
  lemma PendingKept(b: Snapshot, l: Loc, p: Loc, n: Loc, g: set<Loc>, q: Player, base: int)
    requires Valid(b) && InRange(b.fields, l) && Pending(b, p, n, g, q, base)
    requires Dead(b.fields, l) && n !in Group(b.fields, l) && Get(b.fields, l) == Get(b.fields, n)
    ensures Pending(CheckRemove(b, l), p, n, g, q, base) && l != n
  {
    var f := b.fields;
    var r := CheckRemove(b, l);
    RemoveGroupIs(b, l);
    ClearOtherGroup(f, l, n);
    GroupHasSeed(f, l);
    if q == Player.Black {
      if p in Group(f, l) {
        GroupCanonical(f, l, p);
        assert false;
      }
    } else {
      if p in Group(f, l) {
        GroupCanonical(f, l, p);
        assert false;
      }
    }
    assert Get(r.fields, p) == ToColor(q);
    assert Captures(r, q) >= Captures(b, q) by {
      if q == Player.Black {} else {}
    }
  }

  /** The dead group at `l` has the mover's colour: it holds the new stone,
      which is emptied with it. */
  lemma PendingOwnGroup(b: Snapshot, l: Loc, p: Loc, n: Loc, g: set<Loc>, q: Player, base: int)
    requires Valid(b) && InRange(b.fields, l) && Adjacent(p, l) && Pending(b, p, n, g, q, base)
    requires Dead(b.fields, l) && Get(b.fields, l) != Get(b.fields, n)
    ensures InRange(CheckRemove(b, l).fields, p) && Get(CheckRemove(b, l).fields, p) == Color.Empty
    ensures l != n
  {
    var f := b.fields;
    GroupClosed(f, l);
    GroupHasSeed(f, l);
    assert Get(f, l) == Get(f, p) by {
      if q == Player.Black {} else {}
    }
    assert Adjacent(l, p) && HasColour(f, Get(f, l), p);
    assert p in Group(f, l);
  }

  /** The capture rule: an opposing group next to the new stone that has no
      liberty once the stone is placed is taken off the board, and its stones
      are added to the mover's captures. This holds whenever the new stone is
      still in place afterwards; it is not when the capture step visits a
      dead group of the mover's own colour first, which takes the new stone
      with it and gives the opposing group a liberty. */
  lemma PlayCapturesDeadOpponent(s: Snapshot, mv: Move, n: Loc)
    requires Valid(s) && IsOnBoard(mv.loc, Size(s.fields)) && !IsPass(mv.loc)
    requires n in Neighbours(mv.loc)
    requires var f := Set(s.fields, mv.loc, ToColor(mv.player));
      IsOnBoard(n, Size(f)) && Get(f, n) == ToColor(Opponent(mv.player)) && Liberties(f, n) == 0
    ensures var f := Set(s.fields, mv.loc, ToColor(mv.player));
      Get(Play(s, mv).fields, mv.loc) == ToColor(mv.player) ==>
        (forall x | x in Group(f, n) :: InRange(Play(s, mv).fields, x) && Get(Play(s, mv).fields, x) == Color.Empty) &&
        Captures(Play(s, mv), mv.player) >= Captures(s, mv.player) + |Group(f, n)|
  {
    var l := mv.loc;
    var q := mv.player;
    var placed := Placed(s, mv);
    PlayIsFourSteps(s, mv);
    RunIsFourSteps(placed, l);
    var r := Play(s, mv);
    var g := Group(placed.fields, n);
    var base := Captures(s, q);
    assert Pending(placed, l, n, g, q, base);
    PlacedCaptures(placed, l, n, g, q, base);
    if Get(r.fields, l) == ToColor(q) {
      StoneKeptMeansTaken(r, l, g, q, base);
    }
  }

  /** The run of capture steps over the neighbours of the new stone at `l`
      settles a pending group next to it. */
  lemma PlacedCaptures(b: Snapshot, l: Loc, n: Loc, g: set<Loc>, q: Player, base: int)
    requires Valid(b) && IsOnBoard(l, Size(b.fields)) && n in Neighbours(l)
    requires Pending(b, l, n, g, q, base)
    ensures Settled(Run(b, Neighbours(l)), l, g, q, base)
  {
    AroundInRange(b.fields, l);
    forall x | x in Neighbours(l)
      ensures Adjacent(l, x)
    {
      NeighboursAreAdjacent(l, x);
    }
    RunTracks(b, Neighbours(l), l, n, g, q, base);
  }

  /** When the new stone is still in place, a settled group has been taken. */
  lemma StoneKeptMeansTaken(b: Snapshot, p: Loc, g: set<Loc>, q: Player, base: int)
    requires Settled(b, p, g, q, base) && InRange(b.fields, p) && Get(b.fields, p) == ToColor(q)
    ensures Taken(b, g, q, base)
  {
    assert ToColor(q) != Color.Empty by {
      if q == Player.Black {} else {}
    }
  }

  /** One track per neighbour: the capture steps at the cells of `ls`, next
      to the new stone at `p`, keep the group tracked, and settle it once the
      step at `n` is among them. */
  lemma {:induction false} RunTracks(b: Snapshot, ls: seq<Loc>, p: Loc, n: Loc, g: set<Loc>, q: Player, base: int)
    requires Valid(b) && InRange(b.fields, p)
    requires forall x | x in ls :: InRange(b.fields, x) && Adjacent(p, x)
    requires Settled(b, p, g, q, base) || Pending(b, p, n, g, q, base)
    ensures Settled(Run(b, ls), p, g, q, base) || Pending(Run(b, ls), p, n, g, q, base)
    ensures Settled(b, p, g, q, base) || n in ls ==> Settled(Run(b, ls), p, g, q, base)
    decreases |ls|
  {
    if ls != [] {
      TrackStep(b, ls[0], p, n, g, q, base);
      RangeCarries(b, CheckRemove(b, ls[0]), ls);
      RunTracks(CheckRemove(b, ls[0]), ls[1..], p, n, g, q, base);
    }
  }

  /** A stone group one of whose cells has an Empty neighbour has a liberty. */
  lemma EmptyNeighbourIsLiberty(f: Fields, a: Loc, x: Loc, y: Loc)
    requires WellFormed(f) && IsOnBoard(a, Size(f)) && x in Group(f, a)
    requires IsOnBoard(x, Size(f)) && y in Neighbours(x) && InRange(f, y) && Get(f, y) == Color.Empty
    ensures Liberties(f, a) > 0
  {
    assert y in LibertySet(f, Group(f, a));
  }

  /** A 3 by 5 board, whose only points are (1,1), (1,2) and (1,3), holding
      the colours `a`, `b` and `c` there. */
  ghost predicate Row(f: Fields, a: Color, b: Color, c: Color)
  {
    WellFormed(f) && Size(f) == (3, 5) &&
    Get(f, Loc(1, 1)) == a && Get(f, Loc(1, 2)) == b && Get(f, Loc(1, 3)) == c
  }

  /** Black (1,1)-(1,2) against White (1,3): the Black pair is a group
      without a liberty. */
  lemma PairDead(f: Fields)
    requires Row(f, Color.Black, Color.Black, Color.White)
    ensures Group(f, Loc(1, 1)) == {Loc(1, 1), Loc(1, 2)} && Liberties(f, Loc(1, 1)) == 0
  {
    var a := Loc(1, 1);
    var S := {Loc(1, 1), Loc(1, 2)};
    assert Closed(f, Color.Black, S) by {
      forall x, y | x in S && Adjacent(x, y) && y !in S
        ensures !HasColour(f, Color.Black, y)
      {
        assert y == Loc(1, 3) || !IsOnBoard(y, Size(f));
      }
    }
    GroupLeast(f, a, S);
    GroupHasSeed(f, a);
    GroupClosed(f, a);
    assert Adjacent(a, Loc(1, 2)) && HasColour(f, Color.Black, Loc(1, 2));
    assert LibertySet(f, S) == {} by {
      forall x, y | x in S && IsOnBoard(x, Size(f)) && y in Neighbours(x) && InRange(f, y)
        ensures Get(f, y) != Color.Empty
      {
        assert y == Loc(1, 1) || y == Loc(1, 2) || y == Loc(1, 3) || !IsOnBoard(y, Size(f));
      }
    }
  }

  /** Black (1,1)-(1,2) against White (1,3): the White stone is a group
      without a liberty. */
  lemma LoneDead(f: Fields)
    requires Row(f, Color.Black, Color.Black, Color.White)
    ensures Group(f, Loc(1, 3)) == {Loc(1, 3)} && Liberties(f, Loc(1, 3)) == 0
  {
    var a := Loc(1, 3);
    var S := {a};
    assert Closed(f, Color.White, S) by {
      forall y | Adjacent(a, y)
        ensures !HasColour(f, Color.White, y)
      {
        assert y == Loc(1, 2) || !IsOnBoard(y, Size(f));
      }
    }
    GroupLeast(f, a, S);
    GroupHasSeed(f, a);
    assert LibertySet(f, S) == {} by {
      forall x, y | x in S && IsOnBoard(x, Size(f)) && y in Neighbours(x) && InRange(f, y)
        ensures Get(f, y) != Color.Empty
      {
        assert y == Loc(1, 2) || !IsOnBoard(y, Size(f));
      }
    }
  }

  /** The order of the capture checks decides which of two groups that have
      both lost their last liberty is taken: checking the Black pair first
      empties it and gives the White stone a liberty back, and checking the
      White stone first does the reverse. */
  lemma CaptureOrderMatters(b: Snapshot)
    requires Valid(b) && Row(b.fields, Color.Black, Color.Black, Color.White)
    ensures var r := CheckRemove(CheckRemove(b, Loc(1, 1)), Loc(1, 3));
      Row(r.fields, Color.Empty, Color.Empty, Color.White) &&
      r.whiteCaptures == b.whiteCaptures + 2 && r.blackCaptures == b.blackCaptures
    ensures var r := CheckRemove(CheckRemove(b, Loc(1, 3)), Loc(1, 1));
      Row(r.fields, Color.Black, Color.Black, Color.Empty) &&
      r.blackCaptures == b.blackCaptures + 1 && r.whiteCaptures == b.whiteCaptures
  {
    OwnPairFirst(b);
    WhiteStoneFirst(b);
  }

  lemma OwnPairFirst(b: Snapshot)
    requires Valid(b) && Row(b.fields, Color.Black, Color.Black, Color.White)
    ensures var r := CheckRemove(CheckRemove(b, Loc(1, 1)), Loc(1, 3));
      Row(r.fields, Color.Empty, Color.Empty, Color.White) &&
      r.whiteCaptures == b.whiteCaptures + 2 && r.blackCaptures == b.blackCaptures
  {
    PairDead(b.fields);
    assert Dead(b.fields, Loc(1, 1));
    var b1 := CheckRemove(b, Loc(1, 1));
    assert InRange(b.fields, Loc(1, 2)) && InRange(b.fields, Loc(1, 3));
    assert Row(b1.fields, Color.Empty, Color.Empty, Color.White);
    GroupHasSeed(b1.fields, Loc(1, 3));
    EmptyNeighbourIsLiberty(b1.fields, Loc(1, 3), Loc(1, 3), Loc(1, 2));
    assert !Dead(b1.fields, Loc(1, 3));
  }

  lemma WhiteStoneFirst(b: Snapshot)
    requires Valid(b) && Row(b.fields, Color.Black, Color.Black, Color.White)
    ensures var r := CheckRemove(CheckRemove(b, Loc(1, 3)), Loc(1, 1));
      Row(r.fields, Color.Black, Color.Black, Color.Empty) &&
      r.blackCaptures == b.blackCaptures + 1 && r.whiteCaptures == b.whiteCaptures
  {
    LoneDead(b.fields);
    assert Dead(b.fields, Loc(1, 3));
    var b1 := CheckRemove(b, Loc(1, 3));
    assert InRange(b.fields, Loc(1, 1)) && InRange(b.fields, Loc(1, 2));
    assert Row(b1.fields, Color.Black, Color.Black, Color.Empty);
    var a := Loc(1, 1);
    GroupClosed(b1.fields, a);
    GroupHasSeed(b1.fields, a);
    assert Adjacent(a, Loc(1, 2)) && HasColour(b1.fields, Color.Black, Loc(1, 2));
    EmptyNeighbourIsLiberty(b1.fields, a, Loc(1, 2), Loc(1, 3));
    assert !Dead(b1.fields, a);
  }

  /** Why `PlayCapturesDeadOpponent` needs the new stone to stay: Black
      playing (1,2) between its stone at (1,1) and White's at (1,3) takes
      the last liberty of both groups. The check to the left comes first and
      removes Black's own pair, new stone included, so the White stone,
      which had no liberty once the stone was placed, stays on the board. */
  lemma OwnGroupFirstSavesOpponent(s: Snapshot)
    requires Valid(s) && Row(s.fields, Color.Black, Color.Empty, Color.White)
    ensures IsOnBoard(Loc(1, 2), Size(s.fields))
    ensures Liberties(Set(s.fields, Loc(1, 2), Color.Black), Loc(1, 3)) == 0
    ensures var r := Play(s, Move(Player.Black, Loc(1, 2)));
      Row(r.fields, Color.Empty, Color.Empty, Color.White) &&
      r.whiteCaptures == s.whiteCaptures + 2 && r.blackCaptures == s.blackCaptures
  {
    var l := Loc(1, 2);
    var mv := Move(Player.Black, l);
    var placed := Placed(s, mv);
    assert InRange(s.fields, Loc(1, 1)) && InRange(s.fields, Loc(1, 3));
    assert Row(placed.fields, Color.Black, Color.Black, Color.White);
    LoneDead(placed.fields);
    PlayIsFourSteps(s, mv);
    AroundInRange(placed.fields, l);
    assert !IsOnBoard(Up(l), Size(placed.fields)) && !IsOnBoard(Down(l), Size(placed.fields));
    assert CheckRemove(placed, Up(l)) == placed;
    assert CheckRemove(placed, Down(l)) == placed;
    OwnPairFirst(placed);
  }
}
