/** The rules engine of src/board.rs as functions over a board value.
    `Snapshot` is `Board` as a value: validity checking and undo work on clones
    and replays, so every operation is stated here as a function from one
    value to the next; the class in engine.dfy updates its fields in place and
    is proved to follow these functions. */
module Rules {
  import opened Locs

  datatype Color = White | Black | Empty | Invalid
  datatype Player = White | Black

  /** `Player::to_color`. */
  function ToColor(p: Player): (c: Color)
    ensures c == Color.White || c == Color.Black
    ensures (c == Color.White) == (p == Player.White)
  {
    match p
    case White => Color.White
    case Black => Color.Black
  }

  /** `Player::opponent`. */
  function Opponent(p: Player): (q: Player)
    ensures q != p
  {
    match p
    case Black => Player.White
    case White => Player.Black
  }

  datatype Move = Move(player: Player, loc: Loc)

  /** `Move::pass`: the same player, at the pass sentinel. */
  function AsPass(mv: Move): (r: Move)
    ensures r.player == mv.player && IsPass(r.loc)
  {
    Move(mv.player, PassLoc)
  }

  /** The cell matrix, `Vec<Vec<Color>>`, row by row. */
  type Fields = seq<seq<Color>>

  predicate InRange(f: Fields, l: Loc)
  {
    l.row < |f| && l.col < |f[l.row]|
  }

  /** `Board::get`. Out-of-range indexing panics in the source. */
  function Get(f: Fields, l: Loc): Color
    requires InRange(f, l)
  {
    f[l.row][l.col]
  }

  /** Two matrices with rows of the same lengths. */
  predicate SameShape(a: Fields, b: Fields)
  {
    |a| == |b| && forall i | 0 <= i < |a| :: |a[i]| == |b[i]|
  }

  /** A non-empty rectangular matrix. */
  predicate Rect(f: Fields)
  {
    |f| > 0 && |f[0]| > 0 && forall i | 0 <= i < |f| :: |f[i]| == |f[0]|
  }

  /** `Board::board_size`. */
  function Size(f: Fields): (nat, nat)
    requires |f| > 0
  {
    (|f|, |f[0]|)
  }

  /** The sentinel ring: a rectangular matrix whose Invalid cells are exactly
      those outside the playable interior. */
  ghost predicate WellFormed(f: Fields)
  {
    Rect(f) &&
    forall l | InRange(f, l) :: (Get(f, l) == Color.Invalid <==> !IsOnBoard(l, Size(f)))
  }

  /** An interior cell is a cell of the matrix. */
  lemma InteriorInRange(f: Fields, l: Loc)
    requires Rect(f) && IsOnBoard(l, Size(f))
    ensures InRange(f, l)
  {
  }

  /** Two matrices of the same shape that agree on every cell are equal. */
  lemma FieldsExt(a: Fields, b: Fields)
    requires SameShape(a, b)
    requires forall l | InRange(a, l) :: Get(a, l) == Get(b, l)
    ensures a == b
  {
    forall i | 0 <= i < |a|
      ensures a[i] == b[i]
    {
      forall j | 0 <= j < |a[i]|
        ensures a[i][j] == b[i][j]
      {
        assert InRange(a, Loc(i, j));
      }
    }
  }

  /** `Board::set`. */
  function Set(f: Fields, l: Loc, c: Color): (r: Fields)
    requires InRange(f, l)
    ensures SameShape(r, f)
    ensures forall x | InRange(f, x) :: Get(r, x) == if x == l then c else Get(f, x)
    ensures WellFormed(f) && IsOnBoard(l, Size(f)) && c != Color.Invalid ==>
              WellFormed(r) && Size(r) == Size(f)
  {
    var r := f[l.row := f[l.row][l.col := c]];
    assert SameShape(r, f);
    SetKeepsRing(f, l, c, r);
    r
  }

  lemma SetKeepsRing(f: Fields, l: Loc, c: Color, r: Fields)
    requires InRange(f, l) && r == f[l.row := f[l.row][l.col := c]]
    ensures WellFormed(f) && IsOnBoard(l, Size(f)) && c != Color.Invalid ==>
              WellFormed(r) && Size(r) == Size(f)
  {
    if WellFormed(f) && IsOnBoard(l, Size(f)) && c != Color.Invalid {
      assert Size(r) == Size(f);
      forall x | InRange(r, x)
        ensures Get(r, x) == Color.Invalid <==> !IsOnBoard(x, Size(r))
      {
        assert InRange(f, x);
      }
    }
  }

  /** The matrix with every cell of `g` emptied: the loop at the end of
      `remove_group`. */
  function Clear(f: Fields, g: set<Loc>): (r: Fields)
    ensures SameShape(r, f)
    ensures forall x | InRange(f, x) :: Get(r, x) == if x in g then Color.Empty else Get(f, x)
    ensures WellFormed(f) && (forall x | x in g && InRange(f, x) :: Get(f, x) != Color.Invalid) ==>
              WellFormed(r) && Size(r) == Size(f)
  {
    var r := seq(|f|, i requires 0 <= i < |f| =>
               seq(|f[i]|, j requires 0 <= j < |f[i]| =>
                 if Loc(i, j) in g then Color.Empty else f[i][j]));
    ClearCells(f, g, r);
    r
  }

  lemma ClearCells(f: Fields, g: set<Loc>, r: Fields)
    requires r == seq(|f|, i requires 0 <= i < |f| =>
               seq(|f[i]|, j requires 0 <= j < |f[i]| =>
                 if Loc(i, j) in g then Color.Empty else f[i][j]))
    ensures SameShape(r, f)
    ensures forall x | InRange(f, x) :: Get(r, x) == if x in g then Color.Empty else Get(f, x)
    ensures WellFormed(f) && (forall x | x in g && InRange(f, x) :: Get(f, x) != Color.Invalid) ==>
              WellFormed(r) && Size(r) == Size(f)
  {
    forall x | InRange(f, x)
      ensures Get(r, x) == if x in g then Color.Empty else Get(f, x)
    {
      assert x == Loc(x.row, x.col);
    }
    if WellFormed(f) && (forall x | x in g && InRange(f, x) :: Get(f, x) != Color.Invalid) {
      assert Size(r) == Size(f);
      forall x | InRange(r, x)
        ensures Get(r, x) == Color.Invalid <==> !IsOnBoard(x, Size(r))
      {
        assert InRange(f, x);
      }
    }
  }

  /** The fresh matrix of `Board::new`: Invalid on the ring, Empty inside. */
  function NewFields(rows: nat, cols: nat): (f: Fields)
    requires rows > 0 && cols > 0
    ensures WellFormed(f) && Size(f) == (rows, cols)
    ensures forall l | InRange(f, l) :: Get(f, l) != Color.Black && Get(f, l) != Color.White
  {
    var f := seq(rows, i requires 0 <= i < rows =>
               seq(cols, j requires 0 <= j < cols =>
                 if IsOnBoard(Loc(i, j), (rows, cols)) then Color.Empty else Color.Invalid));
    assert forall l | InRange(f, l) ::
      Get(f, l) == if IsOnBoard(l, (rows, cols)) then Color.Empty else Color.Invalid by {
      forall l | InRange(f, l)
        ensures Get(f, l) == if IsOnBoard(l, (rows, cols)) then Color.Empty else Color.Invalid
      {
        assert l == Loc(l.row, l.col);
      }
    }
    f
  }

  /** `Board` as a value: the cell matrix, the move history, the player to
      move, komi, and the two capture counters. */
  datatype Snapshot = Snapshot(
    fields: Fields,
    history: seq<Move>,
    current: Player,
    komi: real,
    blackCaptures: int,
    whiteCaptures: int)

  /** A move `play` accepts without panicking: a pass, or an interior cell. */
  predicate Playable(size: (nat, nat), mv: Move)
    requires size.0 > 0 && size.1 > 0
  {
    IsPass(mv.loc) || IsOnBoard(mv.loc, size)
  }

  /** The invariant every board keeps: an intact sentinel ring, and a history
      made of moves that were playable on it. */
  ghost predicate Valid(s: Snapshot)
  {
    WellFormed(s.fields) &&
    forall m | m in s.history :: Playable(Size(s.fields), m)
  }

  /** `Board::new`. */
  function New(rows: nat, cols: nat, startingPlayer: Player, komi: real): (s: Snapshot)
    requires rows > 0 && cols > 0
    ensures Valid(s) && Size(s.fields) == (rows, cols)
    ensures s.history == [] && s.current == startingPlayer && s.komi == komi
    ensures s.blackCaptures == 0 && s.whiteCaptures == 0
  {
    Snapshot(NewFields(rows, cols), [], startingPlayer, komi, 0, 0)
  }

  /** `Board::reset`: a fresh board of the same size and komi whose starting
      player is the player of the first recorded move. Reading
      `game_history[0]` panics on an empty history. */
  function Reset(s: Snapshot): (r: Snapshot)
    requires Valid(s) && |s.history| > 0
    ensures Valid(r) && Size(r.fields) == Size(s.fields) && r.history == []
    ensures r.current == s.history[0].player && r.komi == s.komi
    ensures r.blackCaptures == 0 && r.whiteCaptures == 0
  {
    New(|s.fields|, |s.fields[0]|, s.history[0].player, s.komi)
  }

  /** `b` is `a` followed by new, distinct cells of colour `c`. */
  ghost predicate Extends(f: Fields, c: Color, a: seq<Loc>, b: seq<Loc>)
  {
    |a| <= |b| && b[..|a|] == a &&
    (forall i | |a| <= i < |b| :: InRange(f, b[i]) && Get(f, b[i]) == c) &&
    (Distinct(a) ==> Distinct(b))
  }

  lemma ExtendsOne(f: Fields, c: Color, a: seq<Loc>, l: Loc)
    requires InRange(f, l) && Get(f, l) == c && l !in a
    ensures Extends(f, c, a, a + [l]) && Elems(a + [l]) == Elems(a) + {l}
  {
    assert (a + [l])[..|a|] == a;
  }

  lemma ExtendsTrans(f: Fields, c: Color, a: seq<Loc>, b: seq<Loc>, d: seq<Loc>)
    requires Extends(f, c, a, b) && Extends(f, c, b, d)
    ensures Extends(f, c, a, d) && Elems(a) <= Elems(b) <= Elems(d)
  {
    assert d[..|a|] == b[..|a|];
    forall i | |a| <= i < |d|
      ensures InRange(f, d[i]) && Get(f, d[i]) == c
    {
      if i < |b| {
        assert d[i] == b[i];
      }
    }
    PrefixElems(a, b);
    PrefixElems(b, d);
  }

  /** The recursive `flood_fill`: a depth-first walk from `l` over cells of
      colour `c`, threading the `visited` list through the four neighbour
      calls in the order up, down, left, right. */
  function Fill(f: Fields, l: Loc, c: Color, visited: seq<Loc>): (r: seq<Loc>)
    requires WellFormed(f) && c != Color.Invalid && InRange(f, l)
    ensures Extends(f, c, visited, r)
    decreases Cells(|f|, |f[0]|) - Elems(visited)
  {
    if l in visited then visited
    else if Get(f, l) != c then visited
    else
      InCells(l, |f|, |f[0]|);
      var v1 := visited + [l];
      ExtendsOne(f, c, visited, l);
      var v2 := Fill(f, Up(l), c, v1);
      ExtendsTrans(f, c, visited, v1, v2);
      var v3 := Fill(f, Down(l), c, v2);
      ExtendsTrans(f, c, visited, v2, v3);
      var v4 := Fill(f, Left(l), c, v3);
      ExtendsTrans(f, c, visited, v3, v4);
      var r := Fill(f, Right(l), c, v4);
      ExtendsTrans(f, c, visited, v4, r);
      r
  }

  lemma PrefixElems(a: seq<Loc>, b: seq<Loc>)
    requires |a| <= |b| && b[..|a|] == a
    ensures Elems(a) <= Elems(b)
  {
    forall x | x in a
      ensures x in b
    {
      var i :| 0 <= i < |a| && a[i] == x;
      assert b[i] == x;
    }
  }

  /** `group_stones` before sorting: the flood fill from an interior cell
      with that cell's own colour. */
  function GroupList(f: Fields, l: Loc): (r: seq<Loc>)
    requires WellFormed(f) && IsOnBoard(l, Size(f))
    ensures Distinct(r)
    ensures forall i | 0 <= i < |r| ::
      InRange(f, r[i]) && Get(f, r[i]) == Get(f, l) && IsOnBoard(r[i], Size(f))
  {
    InteriorInRange(f, l);
    Fill(f, l, Get(f, l), [])
  }

  /** The set of locations `group_stones(l)` returns. */
  function Group(f: Fields, l: Loc): (g: set<Loc>)
    requires WellFormed(f) && IsOnBoard(l, Size(f))
    ensures forall x | x in g :: InRange(f, x) && Get(f, x) == Get(f, l) && IsOnBoard(x, Size(f))
    ensures |g| == |GroupList(f, l)|
  {
    var s := GroupList(f, l);
    DistinctCard(s);
    Elems(s)
  }

  /** The distinct Empty cells orthogonally next to some cell of `g`: the
      `HashSet` that `count_liberties` fills. */
  function LibertySet(f: Fields, g: set<Loc>): (libs: set<Loc>)
    requires WellFormed(f)
    requires forall x | x in g :: IsOnBoard(x, Size(f))
    ensures forall y | y in libs :: InRange(f, y) && Get(f, y) == Color.Empty && IsOnBoard(y, Size(f))
  {
    set x, y | x in g && IsOnBoard(x, Size(f)) && y in Neighbours(x) && InRange(f, y) && Get(f, y) == Color.Empty :: y
  }

  /** No cell of `g` touches an Empty cell. */
  ghost predicate Surrounded(f: Fields, g: set<Loc>)
  {
    forall x, y | x in g && Adjacent(x, y) && InRange(f, y) :: Get(f, y) != Color.Empty
  }

  /** `count_liberties`: no liberty exactly when no stone of the group
      touches an Empty cell. */
  function Liberties(f: Fields, l: Loc): (n: nat)
    requires WellFormed(f) && IsOnBoard(l, Size(f))
    ensures n == 0 <==> Surrounded(f, Group(f, l))
  {
    NoLibertyIff(f, Group(f, l));
    |LibertySet(f, Group(f, l))|
  }

  lemma NoLibertyIff(f: Fields, g: set<Loc>)
    requires WellFormed(f)
    requires forall x | x in g :: IsOnBoard(x, Size(f))
    ensures LibertySet(f, g) == {} <==> Surrounded(f, g)
  {
    if x, y :| x in g && Adjacent(x, y) && InRange(f, y) && Get(f, y) == Color.Empty {
      NeighboursAreAdjacent(x, y);
      assert y in LibertySet(f, g);
    }
    if y :| y in LibertySet(f, g) {
      var x :| x in g && IsOnBoard(x, Size(f)) && y in Neighbours(x) && InRange(f, y) && Get(f, y) == Color.Empty;
      NeighboursAreAdjacent(x, y);
    }
  }

  /** `remove_group`: empties the group at `l` and credits its size to the
      opposite colour's counter (nothing for an Empty group). */
  function RemoveGroup(s: Snapshot, l: Loc): (r: Snapshot)
    requires Valid(s) && IsOnBoard(l, Size(s.fields))
    ensures Valid(r) && SameShape(r.fields, s.fields) && Size(r.fields) == Size(s.fields)
    ensures r.history == s.history && r.current == s.current && r.komi == s.komi
    ensures forall x | InRange(s.fields, x) ::
      Get(r.fields, x) == if x in Group(s.fields, l) then Color.Empty else Get(s.fields, x)
    ensures r.blackCaptures == s.blackCaptures +
      (if Get(s.fields, l) == Color.White then |Group(s.fields, l)| else 0)
    ensures r.whiteCaptures == s.whiteCaptures +
      (if Get(s.fields, l) == Color.Black then |Group(s.fields, l)| else 0)
  {
    var group := GroupList(s.fields, l);
    var stoneCount := |group|;
    var counted :=
      match Get(s.fields, l)
      case White => s.(blackCaptures := s.blackCaptures + stoneCount)
      case Black => s.(whiteCaptures := s.whiteCaptures + stoneCount)
      case _ => s;
    counted.(fields := Clear(s.fields, Elems(group)))
  }

  /** `RemoveGroup` as one record update. */
  lemma RemoveGroupIs(s: Snapshot, l: Loc)
    requires Valid(s) && IsOnBoard(l, Size(s.fields))
    ensures RemoveGroup(s, l) ==
      s.(fields := Clear(s.fields, Group(s.fields, l)),
         blackCaptures := s.blackCaptures + (if Get(s.fields, l) == Color.White then |Group(s.fields, l)| else 0),
         whiteCaptures := s.whiteCaptures + (if Get(s.fields, l) == Color.Black then |Group(s.fields, l)| else 0))
  {
  }

  predicate IsStone(c: Color)
  {
    c == Color.Black || c == Color.White
  }

  /** A stone whose group has no liberty left. */
  predicate Dead(f: Fields, l: Loc)
    requires WellFormed(f) && InRange(f, l)
  {
    IsStone(Get(f, l)) && Liberties(f, l) == 0
  }

  /** The helper `get_check_invalid_remove_group_combo` of `play`: remove the
      group at `l` when it is a stone group without liberties. A dead group
      is emptied, every other cell is kept, and the group's size goes to the
      counter of the other colour; anything else leaves the board as it was. */
  function CheckRemove(s: Snapshot, l: Loc): (r: Snapshot)
    requires Valid(s) && InRange(s.fields, l)
    ensures Valid(r) && SameShape(r.fields, s.fields) && Size(r.fields) == Size(s.fields)
    ensures r.history == s.history && r.current == s.current && r.komi == s.komi
    ensures Dead(s.fields, l) ==> forall x | InRange(s.fields, x) ::
      Get(r.fields, x) == if x in Group(s.fields, l) then Color.Empty else Get(s.fields, x)
    ensures Dead(s.fields, l) && Get(s.fields, l) == Color.White ==>
      r.blackCaptures == s.blackCaptures + |Group(s.fields, l)| && r.whiteCaptures == s.whiteCaptures
    ensures Dead(s.fields, l) && Get(s.fields, l) == Color.Black ==>
      r.whiteCaptures == s.whiteCaptures + |Group(s.fields, l)| && r.blackCaptures == s.blackCaptures
    ensures !Dead(s.fields, l) ==> r == s
  {
    var color := Get(s.fields, l);
    if color != Color.Invalid && color != Color.Empty && Liberties(s.fields, l) == 0
    then RemoveGroup(s, l)
    else s
  }

  /** `Board::play`: record the move and hand the turn over; for a stone,
      write it (no occupancy check) and then remove each neighbouring stone
      group left without liberties, in the order up, down, left, right. */
  function Play(s: Snapshot, mv: Move): (r: Snapshot)
    requires Valid(s) && Playable(Size(s.fields), mv)
    ensures Valid(r) && SameShape(r.fields, s.fields) && Size(r.fields) == Size(s.fields)
    ensures r.history == s.history + [mv] && r.current == Opponent(s.current) && r.komi == s.komi
  {
    var recorded := s.(history := s.history + [mv], current := Opponent(s.current));
    if IsPass(mv.loc) then recorded
    else
      var placed := recorded.(fields := Set(s.fields, mv.loc, ToColor(mv.player)));
      var afterUp := CheckRemove(placed, Up(mv.loc));
      var afterDown := CheckRemove(afterUp, Down(mv.loc));
      var afterLeft := CheckRemove(afterDown, Left(mv.loc));
      CheckRemove(afterLeft, Right(mv.loc))
  }

  /** Every move of `ms` can be played on a board of this size. */
  predicate AllPlayable(size: (nat, nat), ms: seq<Move>)
    requires size.0 > 0 && size.1 > 0
  {
    forall m | m in ms :: Playable(size, m)
  }

  /** The replay loops of `move_is_valid` and `undo`: `play` each move in turn. */
  function Replay(s: Snapshot, ms: seq<Move>): (r: Snapshot)
    requires Valid(s) && AllPlayable(Size(s.fields), ms)
    ensures Valid(r) && SameShape(r.fields, s.fields) && Size(r.fields) == Size(s.fields)
    ensures r.history == s.history + ms && r.komi == s.komi
    decreases |ms|
  {
    if ms == [] then s
    else
      var prefix := ms[..|ms| - 1];
      assert ms == prefix + [ms[|ms| - 1]];
      Play(Replay(s, prefix), ms[|ms| - 1])
  }

  /** The conditions under which `move_is_valid` returns without panicking:
      a pass reads the cell (99,99), and a move that gets past the first two
      checks calls `reset`, which reads the first history entry. */
  predicate MoveIsValidDefined(s: Snapshot, mv: Move)
    requires Valid(s)
  {
    (IsPass(mv.loc) ==> InRange(s.fields, mv.loc)) &&
    ((IsOnBoard(mv.loc, Size(s.fields)) || IsPass(mv.loc)) &&
       InRange(s.fields, mv.loc) && Get(s.fields, mv.loc) == Color.Empty ==>
       |s.history| > 0)
  }

  /** `move_is_valid`: on the board, an Empty target, the target not emptied
      again by the move itself, and a resulting matrix different from the one
      obtained by replaying all history but its last entry. */
  function MoveIsValid(s: Snapshot, mv: Move): (ok: bool)
    requires Valid(s) && MoveIsValidDefined(s, mv)
    ensures ok ==> Playable(Size(s.fields), mv) && InRange(s.fields, mv.loc)
    ensures ok ==> Get(s.fields, mv.loc) == Color.Empty && Get(Play(s, mv).fields, mv.loc) != Color.Empty
    ensures ok ==> Play(s, mv).fields != Undo(s).fields
  {
    if !IsOnBoard(mv.loc, Size(s.fields)) && !IsPass(mv.loc) then false
    else if Get(s.fields, mv.loc) != Color.Empty then false
    else
      var potential := Play(s, mv);
      var previous := Replay(Reset(s), s.history[..|s.history| - 1]);
      var suicidal := Get(potential.fields, mv.loc) == Color.Empty;
      var repeated := previous.fields == potential.fields;
      !suicidal && !repeated
  }

  /** `play_if_move_is_valid`. */
  function PlayIfMoveIsValid(s: Snapshot, mv: Move): (r: Snapshot)
    requires Valid(s) && MoveIsValidDefined(s, mv)
    ensures Valid(r)
  {
    if MoveIsValid(s, mv) then Play(s, mv) else s
  }

  /** `Board::undo`: unchanged on an empty history, otherwise a fresh board
      (via `reset`) replayed with every history entry but the last. */
  function Undo(s: Snapshot): (r: Snapshot)
    requires Valid(s)
    ensures Valid(r) && Size(r.fields) == Size(s.fields) && r.komi == s.komi
    ensures |s.history| == 0 ==> r == s
    ensures |s.history| > 0 ==> r.history == s.history[..|s.history| - 1]
  {
    if |s.history| == 0 then s
    else Replay(Reset(s), s.history[..|s.history| - 1])
  }

  /** `last_two_moves_are_pass`: it compares the locations of the last two
      moves, which are equal when both are passes. */
  function LastTwoMovesArePass(history: seq<Move>): (r: bool)
    ensures r ==> |history| > 1
    ensures |history| > 1 && IsPass(history[|history| - 2].loc) && IsPass(history[|history| - 1].loc) ==> r
  {
    |history| > 1 && history[|history| - 2].loc == history[|history| - 1].loc
  }
}
