/** `Board` of src/board.rs as an object updated in place. Each method is
    proved to leave the object in the state the value model of rules.dfy
    and scoring.dfy prescribes. */
module Engine {
  import opened Locs
  import opened Rules
  import opened GroupTheory
  import opened Scoring
  import PlayFacts

  class Board {
    var fields: Fields
    var history: seq<Move>
    var current: Player
    var komi: real
    var blackCaptures: int
    var whiteCaptures: int

    /** The object's state as a value. */
    function Snap(): Snapshot
      reads this
    {
      Snapshot(fields, history, current, komi, blackCaptures, whiteCaptures)
    }

    ghost predicate Valid()
      reads this
    {
      Rules.Valid(Snap())
    }

    /** `Board::new`: an Empty matrix whose first and last rows, then first
        and last columns, are overwritten with sentinels. */
    constructor (rows: nat, cols: nat, startingPlayer: Player, komi: real)
      requires rows > 0 && cols > 0
      ensures Valid() && Snap() == New(rows, cols, startingPlayer, komi)
    {
      var f: Fields := seq(rows, _ => seq(cols, _ => Color.Empty));
      for i := 0 to cols
        invariant |f| == rows && forall r | 0 <= r < rows :: |f[r]| == cols
        invariant forall l | InRange(f, l) ::
          Get(f, l) == if (l.row == 0 || l.row == rows - 1) && l.col < i then Color.Invalid else Color.Empty
      {
        f := f[0 := f[0][i := Color.Invalid]];
        f := f[rows - 1 := f[rows - 1][i := Color.Invalid]];
      }
      for i := 0 to rows
        invariant |f| == rows && forall r | 0 <= r < rows :: |f[r]| == cols
        invariant forall l | InRange(f, l) ::
          Get(f, l) ==
            if l.row == 0 || l.row == rows - 1 || ((l.col == 0 || l.col == cols - 1) && l.row < i)
            then Color.Invalid else Color.Empty
      {
        f := f[i := f[i][0 := Color.Invalid]];
        f := f[i := f[i][cols - 1 := Color.Invalid]];
      }
      FieldsExt(f, NewFields(rows, cols));
      fields := f;
      history := [];
      current := startingPlayer;
      this.komi := komi;
      blackCaptures := 0;
      whiteCaptures := 0;
    }

    /** The derived `clone`. */
    constructor Copy(s: Snapshot)
      ensures Snap() == s
    {
      fields := s.fields;
      history := s.history;
      current := s.current;
      komi := s.komi;
      blackCaptures := s.blackCaptures;
      whiteCaptures := s.whiteCaptures;
    }

    /** `Board::reset`. */
    method Reset() returns (b: Board)
      requires Valid() && |history| > 0
      ensures fresh(b) && b.Valid() && b.Snap() == Rules.Reset(Snap())
    {
      b := new Board(|fields|, |fields[0]|, history[0].player, komi);
    }

    /** `Board::set`. */
    method SetCell(l: Loc, c: Color)
      requires InRange(fields, l)
      modifies this
      ensures Snap() == old(Snap()).(fields := Set(old(fields), l, c))
    {
      fields := fields[l.row := fields[l.row][l.col := c]];
      FieldsExt(fields, Set(old(fields), l, c));
    }

    /** `flood_fill`, with the `visited` vector passed in and handed back. */
    method FloodFill(l: Loc, color: Color, visited: seq<Loc>) returns (out: seq<Loc>)
      requires WellFormed(fields) && color != Color.Invalid && InRange(fields, l)
      ensures out == Fill(fields, l, color, visited)
      decreases Cells(|fields|, |fields[0]|) - Elems(visited)
    {
      if l in visited {
        return visited;
      }
      if fields[l.row][l.col] != color {
        return visited;
      }
      InCells(l, |fields|, |fields[0]|);
      ExtendsOne(fields, color, visited, l);
      var v1 := visited + [l];
      out := FloodFill(Up(l), color, v1);
      ExtendsTrans(fields, color, visited, v1, out);
      var v2 := out;
      out := FloodFill(Down(l), color, v2);
      ExtendsTrans(fields, color, visited, v2, out);
      var v3 := out;
      out := FloodFill(Left(l), color, v3);
      ExtendsTrans(fields, color, visited, v3, out);
      out := FloodFill(Right(l), color, out);
    }

    /** `group_stones`: the flood fill from `l` with `l`'s colour, sorted. */
    method GroupStones(l: Loc) returns (group: seq<Loc>)
      requires Valid() && IsOnBoard(l, Size(fields))
      ensures StrictlySorted(group) && Elems(group) == Group(fields, l)
      ensures |group| == |Group(fields, l)|
    {
      InteriorInRange(fields, l);
      var color := fields[l.row][l.col];
      var visited := FloodFill(l, color, []);
      group := SortLocs(visited);
    }

    /** `count_liberties`: collect the Empty neighbours of every stone of the
        group in a set and count them. */
    method CountLiberties(l: Loc) returns (n: nat)
      requires Valid() && IsOnBoard(l, Size(fields))
      ensures n == Liberties(fields, l)
    {
      var group := GroupStones(l);
      var liberties: set<Loc> := {};
      for i := 0 to |group|
        invariant forall x | x in Elems(group[..i]) :: IsOnBoard(x, Size(fields))
        invariant liberties == LibertySet(fields, Elems(group[..i]))
      {
        var stone := group[i];
        assert stone in Elems(group);
        PrefixStep(group, i);
        LibertySetAdd(fields, Elems(group[..i]), stone);
        liberties := AddLiberties(stone, liberties);
      }
      assert group[..|group|] == group;
      n := |liberties|;
    }

    /** The body of the `count_liberties` loop: the Empty neighbours of one
        stone join the set. */
    method AddLiberties(stone: Loc, liberties: set<Loc>) returns (r: set<Loc>)
      requires WellFormed(fields) && IsOnBoard(stone, Size(fields))
      ensures r == liberties + (set y | y in Neighbours(stone) && InRange(fields, y) && Get(fields, y) == Color.Empty)
    {
      NeighboursInRange(fields, stone);
      r := InsertIfEmpty(Up(stone), liberties);
      r := InsertIfEmpty(Down(stone), r);
      r := InsertIfEmpty(Left(stone), r);
      r := InsertIfEmpty(Right(stone), r);
    }

    /** The helper `get_check_empty_insert_combo` of `count_liberties`. */
    method InsertIfEmpty(l: Loc, liberties: set<Loc>) returns (r: set<Loc>)
      requires InRange(fields, l)
      ensures r == if Get(fields, l) == Color.Empty then liberties + {l} else liberties
    {
      r := liberties;
      if fields[l.row][l.col] == Color.Empty {
        r := r + {l};
      }
    }

    /** `remove_group`: credit the group's size to the opposite colour, then
        empty its cells one by one. */
    method RemoveGroup(l: Loc)
      requires Valid() && IsOnBoard(l, Size(fields))
      modifies this
      ensures Valid() && Snap() == Rules.RemoveGroup(old(Snap()), l)
    {
      var group := GroupStones(l);
      var stoneCount := |group|;
      match fields[l.row][l.col] {
        case White => blackCaptures := blackCaptures + stoneCount;
        case Black => whiteCaptures := whiteCaptures + stoneCount;
        case _ =>
      }
      EmptyAll(group);
      RemoveGroupIs(old(Snap()), l);
    }

    /** The loop of `remove_group` that sets every cell of the group Empty. */
    method EmptyAll(group: seq<Loc>)
      requires forall x | x in group :: InRange(fields, x)
      modifies this
      ensures Snap() == old(Snap()).(fields := Clear(old(fields), Elems(group)))
    {
      assert Elems(group[..0]) == {};
      FieldsExt(fields, Clear(fields, {}));
      for i := 0 to |group|
        invariant Snap() == old(Snap()).(fields := Clear(old(fields), Elems(group[..i])))
      {
        assert group[i] in group;
        assert Elems(group[..i + 1]) == Elems(group[..i]) + {group[i]} by {
          assert group[..i + 1] == group[..i] + [group[i]];
        }
        SetCell(group[i], Color.Empty);
        FieldsExt(fields, Clear(old(fields), Elems(group[..i + 1])));
      }
      assert group[..|group|] == group;
    }

    /** The helper `get_check_invalid_remove_group_combo` of `play`. */
    method CheckRemove(l: Loc)
      requires Valid() && InRange(fields, l)
      modifies this
      ensures Valid() && Snap() == Rules.CheckRemove(old(Snap()), l)
    {
      var color := fields[l.row][l.col];
      if color != Color.Invalid && color != Color.Empty {
        var liberties := CountLiberties(l);
        if liberties == 0 {
          RemoveGroup(l);
        }
      }
    }

    /** `Board::play`. */
    method Play(mv: Move)
      requires Valid() && Playable(Size(fields), mv)
      modifies this
      ensures Valid() && Snap() == Rules.Play(old(Snap()), mv)
    {
      history := history + [mv];
      if IsPass(mv.loc) {
        current := Opponent(current);
        return;
      }
      InteriorInRange(fields, mv.loc);
      SetCell(mv.loc, ToColor(mv.player));
      current := Opponent(current);
      CheckRemove(Up(mv.loc));
      CheckRemove(Down(mv.loc));
      CheckRemove(Left(mv.loc));
      CheckRemove(Right(mv.loc));
    }

    /** `move_is_valid`: play the move on a clone, rebuild the position
        before the last move by replaying the history without it, and
        compare. The object itself is left untouched. */
    method MoveIsValid(mv: Move) returns (ok: bool)
      requires Valid() && MoveIsValidDefined(Snap(), mv)
      ensures ok == Rules.MoveIsValid(Snap(), mv)
    {
      var size := (|fields|, |fields[0]|);
      if !IsOnBoard(mv.loc, size) && !IsPass(mv.loc) {
        return false;
      }
      if fields[mv.loc.row][mv.loc.col] != Color.Empty {
        return false;
      }
      var potential := new Board.Copy(Snap());
      potential.Play(mv);
      var historyCopy := history[..|history| - 1];
      var previous := Reset();
      PlayFacts.HistoryButLastPlayable(Snap());
      previous.PlayAll(historyCopy);
      var suicidal := potential.fields[mv.loc.row][mv.loc.col] == Color.Empty;
      // `board_position_is_reapated`
      var repeated := previous.fields == potential.fields;
      ok := !suicidal && !repeated;
    }

    /** `play_if_move_is_valid`. */
    method PlayIfMoveIsValid(mv: Move)
      requires Valid() && MoveIsValidDefined(Snap(), mv)
      modifies this
      ensures Valid() && Snap() == Rules.PlayIfMoveIsValid(old(Snap()), mv)
    {
      var ok := MoveIsValid(mv);
      if ok {
        Play(mv);
      }
    }

    /** `Board::undo`: this board itself on an empty history, otherwise a
        fresh board replayed with all history but the last move. */
    method Undo() returns (b: Board)
      requires Valid()
      ensures b.Valid() && b.Snap() == Rules.Undo(Snap())
      ensures |history| == 0 ==> b == this
      ensures |history| > 0 ==> fresh(b)
    {
      if |history| == 0 {
        return this;
      }
      b := Reset();
      var remaining := history[..|history| - 1];
      PlayFacts.HistoryButLastPlayable(Snap());
      b.PlayAll(remaining);
    }

    /** Playing the moves of a history one after the other, as `undo` and
        `move_is_valid` do after a reset. */
    method PlayAll(ms: seq<Move>)
      requires Valid() && AllPlayable(Size(fields), ms)
      modifies this
      ensures Valid() && Snap() == Replay(old(Snap()), ms)
    {
      ghost var start := Snap();
      assert ms[..0] == [];
      for i := 0 to |ms|
        invariant Valid() && Snap() == Replay(start, ms[..i])
      {
        PlayFacts.ReplayPrefixStep(start, ms, i);
        Play(ms[i]);
      }
      assert ms[..|ms|] == ms;
    }

    /** `empty_islands`: walk every cell in row-major order and add the
        sorted group of each Empty cell not yet in a collected island. As
        sets of cells, the result is exactly the set of islands. */
    method EmptyIslands() returns (islands: set<seq<Loc>>)
      requires Valid()
      ensures forall g | g in islands :: StrictlySorted(g)
      ensures ElemsOf(islands) == Islands(fields)
    {
      islands := {};
      var all := GetAll(|fields|, |fields[0]|);
      ghost var f := fields;
      for i := 0 to |all|
        invariant forall g | g in islands :: StrictlySorted(g)
        invariant ElemsOf(islands) <= Islands(f)
        invariant SeenUpTo(f, all, i, ElemsOf(islands))
      {
        ghost var before := ElemsOf(islands);
        islands := CollectIsland(all[i], islands);
        SeenStep(f, all, i, before, ElemsOf(islands));
      }
      EveryIslandSeen(f, all, ElemsOf(islands));
    }

    /** One step of the `empty_islands` loop: an Empty cell outside every
        collected island contributes its sorted group. */
    method CollectIsland(loc: Loc, islands: set<seq<Loc>>) returns (r: set<seq<Loc>>)
      requires Valid() && loc.row < |fields| && loc.col < |fields[0]|
      requires forall g | g in islands :: StrictlySorted(g)
      requires ElemsOf(islands) <= Islands(fields)
      ensures forall g | g in r :: StrictlySorted(g)
      ensures ElemsOf(islands) <= ElemsOf(r) <= Islands(fields)
      ensures loc in EmptyCells(fields) ==> Group(fields, loc) in ElemsOf(r)
    {
      r := islands;
      InCells(loc, |fields|, |fields[0]|);
      if fields[loc.row][loc.col] == Color.Empty {
        assert loc in EmptyCells(fields);
        if g :| g in islands && loc in g {
          KnownIsland(fields, islands, g, loc);
        } else {
          var group := GroupStones(loc);
          AddIsland(fields, islands, group, loc);
          r := islands + {group};
        }
      }
    }

    /** `count_board_points`: add up `count_potential_points` of each
        island's first cell, per colour. */
    method CountBoardPoints() returns (black: int, white: int)
      requires Valid()
      ensures black == |Territory(fields, Color.Black)| && white == |Territory(fields, Color.White)|
    {
      var islands := EmptyIslands();
      var f := fields;
      black, white := 0, 0;
      var todo := islands;
      ghost var covered: set<Loc> := {};
      while todo != {}
        invariant todo <= islands
        invariant AllWithin(islands - todo, covered)
        invariant AllApart(todo, covered)
        invariant black == |covered * Territory(f, Color.Black)|
        invariant white == |covered * Territory(f, Color.White)|
        decreases todo
      {
        var island :| island in todo;
        CountStep(f, islands, todo, covered, island);
        var colorAndPoints := CountPotentialPoints(f, island[0]);
        match colorAndPoints.0 {
          case Black => black := black + colorAndPoints.1;
          case White => white := white + colorAndPoints.1;
          case _ =>
        }
        covered := covered + Elems(island);
        todo := todo - {island};
      }
      AllEmptyCovered(f, islands, covered);
    }

    /** `count_score` after dead-stone removal: board points plus captures,
        komi for White, and the decision. */
    method CountScore() returns (result: GameResult)
      requires Valid()
      ensures result == Score(Snap())
    {
      var blackPoints, whitePoints := CountBoardPoints();
      var blackTotal := blackPoints as real + blackCaptures as real;
      var whiteTotal := whitePoints as real + whiteCaptures as real + komi;
      if blackTotal - whiteTotal == 0.0 {
        return Draw;
      }
      var blackWon := blackTotal > whiteTotal;
      if blackWon {
        result := Winner(Player.Black, blackTotal - whiteTotal);
      } else {
        result := Winner(Player.White, whiteTotal - blackTotal);
      }
    }
  }

  lemma PrefixStep(s: seq<Loc>, i: nat)
    requires i < |s|
    ensures Elems(s[..i + 1]) == Elems(s[..i]) + {s[i]}
  {
    assert s[..i + 1] == s[..i] + [s[i]];
  }

  /** The cell sets of a collection of cell lists. */
  ghost function ElemsOf(gs: set<seq<Loc>>): set<set<Loc>>
  {
    set g | g in gs :: Elems(g)
  }

  /** Every list of `gs` has its cells in `S`. */
  ghost predicate AllWithin(gs: set<seq<Loc>>, S: set<Loc>)
  {
    forall g | g in gs :: Elems(g) <= S
  }

  /** No list of `gs` has a cell in `S`. */
  ghost predicate AllApart(gs: set<seq<Loc>>, S: set<Loc>)
  {
    forall g | g in gs :: Elems(g) !! S
  }

  /** What counting one island from its first cell adds to each side's share
      of the covered territory. */
  lemma IslandPoints(f: Fields, covered: set<Loc>, island: seq<Loc>)
    requires WellFormed(f) && island != [] && island[0] in EmptyCells(f)
    requires Elems(island) == Group(f, island[0]) && covered !! Elems(island)
    ensures InRange(f, island[0])
    ensures var r := CountPotentialPoints(f, island[0]);
      |(covered + Elems(island)) * Territory(f, Color.Black)| ==
        |covered * Territory(f, Color.Black)| + (if r.0 == Color.Black then r.1 else 0) &&
      |(covered + Elems(island)) * Territory(f, Color.White)| ==
        |covered * Territory(f, Color.White)| + (if r.0 == Color.White then r.1 else 0)
  {
    InCells(island[0], |f|, |f[0]|);
    TerritoryStep(f, covered, island[0], Color.Black);
    TerritoryStep(f, covered, island[0], Color.White);
  }

  /** One round of the `count_board_points` loop: the island taken from the
      pending lists starts at an Empty cell, moving it to the covered cells
      keeps the loop's bookkeeping, and counting it adds its points to the
      covered share of its owner's territory. */
  lemma CountStep(f: Fields, islands: set<seq<Loc>>, todo: set<seq<Loc>>, covered: set<Loc>, island: seq<Loc>)
    requires WellFormed(f) && ElemsOf(islands) == Islands(f)
    requires forall g | g in islands :: StrictlySorted(g)
    requires island in todo && todo <= islands
    requires AllWithin(islands - todo, covered) && AllApart(todo, covered)
    ensures island != [] && InRange(f, island[0])
    ensures AllWithin(islands - (todo - {island}), covered + Elems(island))
    ensures AllApart(todo - {island}, covered + Elems(island))
    ensures var r := CountPotentialPoints(f, island[0]);
      |(covered + Elems(island)) * Territory(f, Color.Black)| ==
        |covered * Territory(f, Color.Black)| + (if r.0 == Color.Black then r.1 else 0) &&
      |(covered + Elems(island)) * Territory(f, Color.White)| ==
        |covered * Territory(f, Color.White)| + (if r.0 == Color.White then r.1 else 0)
  {
    FirstOfIsland(f, islands, island);
    assert Elems(island) !! covered;
    IslandPoints(f, covered, island);
    OtherIslandsDisjoint(f, islands, island);
    CoverStep(islands, todo, covered, island);
  }

  /** Moving one island from the pending lists to the covered cells. */
  lemma CoverStep(islands: set<seq<Loc>>, todo: set<seq<Loc>>, covered: set<Loc>, island: seq<Loc>)
    requires island in todo && todo <= islands
    requires AllWithin(islands - todo, covered) && AllApart(todo, covered)
    requires forall g | g in islands && g != island :: Elems(g) !! Elems(island)
    ensures AllWithin(islands - (todo - {island}), covered + Elems(island))
    ensures AllApart(todo - {island}, covered + Elems(island))
  {
  }

  /** A collected island is non-empty and is the group of its first cell. */
  lemma FirstOfIsland(f: Fields, islands: set<seq<Loc>>, island: seq<Loc>)
    requires WellFormed(f) && ElemsOf(islands) == Islands(f) && island in islands
    ensures island != [] && island[0] in EmptyCells(f)
    ensures IsOnBoard(island[0], Size(f)) && Elems(island) == Group(f, island[0])
  {
    assert Elems(island) in Islands(f);
    var a :| a in EmptyCells(f) && Elems(island) == Group(f, a);
    GroupHasSeed(f, a);
    assert island != [];
    assert island[0] in Elems(island);
    GroupCanonical(f, a, island[0]);
    InCells(island[0], |f|, |f[0]|);
  }

  /** Two different sorted islands share no cell. */
  lemma OtherIslandsDisjoint(f: Fields, islands: set<seq<Loc>>, island: seq<Loc>)
    requires WellFormed(f) && ElemsOf(islands) == Islands(f) && island in islands
    requires forall g | g in islands :: StrictlySorted(g)
    ensures forall g | g in islands && g != island :: Elems(g) !! Elems(island)
  {
    forall g | g in islands && g != island
      ensures Elems(g) !! Elems(island)
    {
      assert Elems(g) in Islands(f) && Elems(island) in Islands(f);
      var a :| a in EmptyCells(f) && Elems(g) == Group(f, a);
      var b :| b in EmptyCells(f) && Elems(island) == Group(f, b);
      InCells(a, |f|, |f[0]|);
      InCells(b, |f|, |f[0]|);
      GroupsDisjointOrEqual(f, a, b);
      SortedDistinctSets(g, island);
    }
  }

  lemma SortedDistinctSets(a: seq<Loc>, b: seq<Loc>)
    requires StrictlySorted(a) && StrictlySorted(b) && a != b
    ensures Elems(a) != Elems(b)
  {
    if Elems(a) == Elems(b) {
      SortedUnique(a, b);
    }
  }

  /** Once every island is inside `covered`, so is every Empty cell. */
  lemma AllEmptyCovered(f: Fields, islands: set<seq<Loc>>, covered: set<Loc>)
    requires WellFormed(f) && ElemsOf(islands) == Islands(f)
    requires AllWithin(islands, covered)
    ensures EmptyCells(f) <= covered
    ensures covered * Territory(f, Color.Black) == Territory(f, Color.Black)
    ensures covered * Territory(f, Color.White) == Territory(f, Color.White)
  {
    forall x | x in EmptyCells(f)
      ensures x in covered
    {
      assert IsOnBoard(x, Size(f));
      GroupHasSeed(f, x);
      assert Group(f, x) in Islands(f);
      var g :| g in islands && Elems(g) == Group(f, x);
      assert Elems(g) <= covered;
    }
  }

  /** The group of every Empty cell among the first `i` listed is in `seen`. */
  ghost predicate SeenUpTo(f: Fields, all: seq<Loc>, i: nat, seen: set<set<Loc>>)
    requires WellFormed(f)
  {
    forall j | 0 <= j < i && j < |all| && all[j] in EmptyCells(f) :: Group(f, all[j]) in seen
  }

  lemma SeenStep(f: Fields, all: seq<Loc>, i: nat, before: set<set<Loc>>, after: set<set<Loc>>)
    requires WellFormed(f) && i < |all|
    requires SeenUpTo(f, all, i, before) && before <= after
    requires all[i] in EmptyCells(f) ==> Group(f, all[i]) in after
    ensures SeenUpTo(f, all, i + 1, after)
  {
  }

  /** When the group of every Empty cell listed has been seen and every cell
      is listed, every island has been seen. */
  lemma EveryIslandSeen(f: Fields, all: seq<Loc>, seen: set<set<Loc>>)
    requires WellFormed(f)
    requires forall l :: l in all <==> l.row < |f| && l.col < |f[0]|
    requires SeenUpTo(f, all, |all|, seen)
    ensures Islands(f) <= seen
  {
    forall h | h in Islands(f)
      ensures h in seen
    {
      var l :| l in EmptyCells(f) && h == Group(f, l);
      InCells(l, |f|, |f[0]|);
      var j :| 0 <= j < |all| && all[j] == l;
    }
  }

  /** Collecting the group of an Empty cell. */
  lemma AddIsland(f: Fields, islands: set<seq<Loc>>, group: seq<Loc>, loc: Loc)
    requires WellFormed(f) && loc in EmptyCells(f) && IsOnBoard(loc, Size(f))
    requires Elems(group) == Group(f, loc)
    ensures ElemsOf(islands + {group}) == ElemsOf(islands) + {Group(f, loc)}
    ensures Group(f, loc) in Islands(f)
  {
  }

  /** A collected island that contains an Empty cell is that cell's group. */
  lemma KnownIsland(f: Fields, islands: set<seq<Loc>>, g: seq<Loc>, loc: Loc)
    requires WellFormed(f) && ElemsOf(islands) <= Islands(f)
    requires g in islands && loc in g && loc in EmptyCells(f)
    ensures Elems(g) == Group(f, loc)
  {
    assert Elems(g) in Islands(f);
    var a :| a in EmptyCells(f) && Elems(g) == Group(f, a);
    assert loc in Elems(g);
    GroupCanonical(f, a, loc);
  }
}
