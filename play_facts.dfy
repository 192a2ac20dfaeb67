/** Properties of `play`, replay, `undo` and `move_is_valid` of src/board.rs,
    stated over the value model of rules.dfy. */
module PlayFacts {
  import opened Locs
  import opened Rules
  import opened GroupTheory

  lemma OpponentInvolution(p: Player)
    ensures Opponent(Opponent(p)) == p
  {
  }

  /** Replaying one more move is one more `play`. */
  lemma ReplayAppend(s: Snapshot, ms: seq<Move>, m: Move)
    requires Valid(s) && AllPlayable(Size(s.fields), ms + [m])
    ensures AllPlayable(Size(s.fields), ms) && Playable(Size(s.fields), m)
    ensures Replay(s, ms + [m]) == Play(Replay(s, ms), m)
  {
    assert (ms + [m])[..|ms|] == ms;
    assert m in ms + [m];
  }

  /** One step of a replay loop over `ms`. */
  lemma ReplayPrefixStep(s: Snapshot, ms: seq<Move>, i: nat)
    requires Valid(s) && AllPlayable(Size(s.fields), ms) && i < |ms|
    ensures AllPlayable(Size(s.fields), ms[..i]) && AllPlayable(Size(s.fields), ms[..i + 1])
    ensures Playable(Size(s.fields), ms[i])
    ensures Replay(s, ms[..i + 1]) == Play(Replay(s, ms[..i]), ms[i])
  {
    assert ms[..i + 1] == ms[..i] + [ms[i]];
    assert ms[i] in ms;
    assert forall m | m in ms[..i + 1] :: m in ms;
    ReplayAppend(s, ms[..i], ms[i]);
  }

  /** Every move of the history but the last can be replayed on a board of
      the same size. */
  lemma HistoryButLastPlayable(s: Snapshot)
    requires Valid(s) && |s.history| > 0
    ensures AllPlayable(Size(s.fields), s.history[..|s.history| - 1])
  {
    assert forall m | m in s.history[..|s.history| - 1] :: m in s.history;
  }

  /** Turn parity: after replaying `ms`, the player to move is the one who
      was to move before exactly when `ms` has even length. */
  lemma {:induction false} ReplayParity(s: Snapshot, ms: seq<Move>)
    requires Valid(s) && AllPlayable(Size(s.fields), ms)
    ensures Replay(s, ms).current == if |ms| % 2 == 0 then s.current else Opponent(s.current)
    decreases |ms|
  {
    if ms != [] {
      var prefix := ms[..|ms| - 1];
      ReplayParity(s, prefix);
      OpponentInvolution(s.current);
    }
  }

  /** A pass changes no cell and no counter. */
  lemma PassKeepsPosition(s: Snapshot, mv: Move)
    requires Valid(s) && IsPass(mv.loc)
    ensures Play(s, mv).fields == s.fields
    ensures Play(s, mv).blackCaptures == s.blackCaptures && Play(s, mv).whiteCaptures == s.whiteCaptures
  {
  }

  /** `r` differs from `s` only by emptied cells and grown counters. */
  ghost predicate OnlyEmpties(s: Snapshot, r: Snapshot)
  {
    SameShape(r.fields, s.fields) &&
    (forall x | InRange(s.fields, x) :: Get(r.fields, x) == Get(s.fields, x) || Get(r.fields, x) == Color.Empty) &&
    s.blackCaptures <= r.blackCaptures && s.whiteCaptures <= r.whiteCaptures
  }

  lemma OnlyEmptiesTrans(a: Snapshot, b: Snapshot, c: Snapshot)
    requires OnlyEmpties(a, b) && OnlyEmpties(b, c)
    ensures OnlyEmpties(a, c)
  {
    forall x | InRange(a.fields, x)
      ensures Get(c.fields, x) == Get(a.fields, x) || Get(c.fields, x) == Color.Empty
    {
      assert InRange(b.fields, x);
    }
  }

  lemma CheckRemoveOnlyEmpties(s: Snapshot, l: Loc)
    requires Valid(s) && InRange(s.fields, l)
    ensures OnlyEmpties(s, CheckRemove(s, l))
  {
  }

  /** The snapshot a stone move works on once `play` has recorded the move
      and written the stone. */
  function Placed(s: Snapshot, mv: Move): (r: Snapshot)
    requires Valid(s) && IsOnBoard(mv.loc, Size(s.fields))
    ensures Valid(r) && Size(r.fields) == Size(s.fields)
    ensures r.fields == Set(s.fields, mv.loc, ToColor(mv.player))
    ensures r.blackCaptures == s.blackCaptures && r.whiteCaptures == s.whiteCaptures
  {
    s.(history := s.history + [mv], current := Opponent(s.current),
       fields := Set(s.fields, mv.loc, ToColor(mv.player)))
  }

  /** A stone move is the placement followed by the capture steps at the
      four neighbours, in the order up, down, left, right. */
  lemma PlayIsFourSteps(s: Snapshot, mv: Move)
    requires Valid(s) && IsOnBoard(mv.loc, Size(s.fields)) && !IsPass(mv.loc)
    ensures var l := mv.loc;
      Play(s, mv) == CheckRemove(CheckRemove(CheckRemove(CheckRemove(Placed(s, mv), Up(l)), Down(l)), Left(l)), Right(l))
  {
  }

  /** The effect of a stone move: the target gets the mover's colour unless
      the capture step emptied it again, and every other cell either keeps
      its colour or becomes Empty; no counter goes down. */
  lemma PlayEffect(s: Snapshot, mv: Move)
    requires Valid(s) && IsOnBoard(mv.loc, Size(s.fields)) && !IsPass(mv.loc)
    ensures var r := Play(s, mv);
      Get(r.fields, mv.loc) == ToColor(mv.player) || Get(r.fields, mv.loc) == Color.Empty
    ensures var r := Play(s, mv);
      forall x | InRange(s.fields, x) && x != mv.loc ::
        Get(r.fields, x) == Get(s.fields, x) || Get(r.fields, x) == Color.Empty
    ensures s.blackCaptures <= Play(s, mv).blackCaptures && s.whiteCaptures <= Play(s, mv).whiteCaptures
  {
    var recorded := s.(history := s.history + [mv], current := Opponent(s.current));
    var placed := recorded.(fields := Set(s.fields, mv.loc, ToColor(mv.player)));
    var afterUp := CheckRemove(placed, Up(mv.loc));
    var afterDown := CheckRemove(afterUp, Down(mv.loc));
    var afterLeft := CheckRemove(afterDown, Left(mv.loc));
    var r := CheckRemove(afterLeft, Right(mv.loc));
    assert r == Play(s, mv);
    CheckRemoveOnlyEmpties(placed, Up(mv.loc));
    CheckRemoveOnlyEmpties(afterUp, Down(mv.loc));
    CheckRemoveOnlyEmpties(afterDown, Left(mv.loc));
    CheckRemoveOnlyEmpties(afterLeft, Right(mv.loc));
    OnlyEmptiesTrans(placed, afterUp, afterDown);
    OnlyEmptiesTrans(placed, afterDown, afterLeft);
    OnlyEmptiesTrans(placed, afterLeft, r);
    forall x | InRange(s.fields, x)
      ensures Get(r.fields, x) == Get(placed.fields, x) || Get(r.fields, x) == Color.Empty
    {
      assert InRange(placed.fields, x);
    }
  }

  /** The stones on the board. */
  ghost function Stones(f: Fields): set<Loc>
    requires WellFormed(f)
  {
    set l | l in Cells(|f|, |f[0]|) && InRange(f, l) && (Get(f, l) == Color.Black || Get(f, l) == Color.White)
  }

  /** Stones on the board plus stones in the two capture counters. */
  ghost function Tally(s: Snapshot): int
    requires Valid(s)
  {
    |Stones(s.fields)| + s.blackCaptures + s.whiteCaptures
  }

  lemma StonesAfterClear(f: Fields, r: Fields, g: set<Loc>)
    requires WellFormed(f) && WellFormed(r) && SameShape(r, f)
    requires forall x | InRange(f, x) :: Get(r, x) == if x in g then Color.Empty else Get(f, x)
    ensures Stones(r) == Stones(f) - g
  {
    forall x
      ensures x in Stones(r) <==> x in Stones(f) && x !in g
    {
      InCells(x, |f|, |f[0]|);
      if x in Cells(|f|, |f[0]|) {
        assert InRange(f, x) && InRange(r, x);
      }
    }
  }

  lemma GroupOfStones(f: Fields, l: Loc)
    requires WellFormed(f) && IsOnBoard(l, Size(f))
    requires Get(f, l) == Color.Black || Get(f, l) == Color.White
    ensures Group(f, l) <= Stones(f)
  {
    forall x | x in Group(f, l)
      ensures x in Stones(f)
    {
      InCells(x, |f|, |f[0]|);
    }
  }

  lemma CardRemove(a: set<Loc>, g: set<Loc>)
    requires g <= a
    ensures |a - g| == |a| - |g|
  {
    assert a == (a - g) + g;
    assert (a - g) * g == {};
  }

  /** Removing a stone group moves its stones from the board into a counter. */
  lemma RemoveGroupKeepsTally(s: Snapshot, l: Loc)
    requires Valid(s) && IsOnBoard(l, Size(s.fields))
    requires Get(s.fields, l) == Color.Black || Get(s.fields, l) == Color.White
    ensures Tally(RemoveGroup(s, l)) == Tally(s)
  {
    var r := RemoveGroup(s, l);
    var g := Group(s.fields, l);
    StonesAfterClear(s.fields, r.fields, g);
    GroupOfStones(s.fields, l);
    CardRemove(Stones(s.fields), g);
  }

  lemma CheckRemoveKeepsTally(s: Snapshot, l: Loc)
    requires Valid(s) && InRange(s.fields, l)
    ensures Tally(CheckRemove(s, l)) == Tally(s)
  {
    var c := Get(s.fields, l);
    if c != Color.Invalid && c != Color.Empty && Liberties(s.fields, l) == 0 {
      RemoveGroupKeepsTally(s, l);
    }
  }

  /** Placing a stone on an Empty interior cell adds it to the board. */
  lemma SetStoneTally(f: Fields, l: Loc, c: Color)
    requires WellFormed(f) && IsOnBoard(l, Size(f)) && Get(f, l) == Color.Empty
    requires c == Color.Black || c == Color.White
    ensures |Stones(Set(f, l, c))| == |Stones(f)| + 1
  {
    var r := Set(f, l, c);
    assert Stones(r) == Stones(f) + {l} by {
      forall x
        ensures x in Stones(r) <==> x in Stones(f) || x == l
      {
        InCells(x, |f|, |f[0]|);
      }
    }
  }

  /** Every stone played on an Empty point is afterwards either on the board
      or counted as a capture, and a pass keeps the count: stones are never
      created or lost by `play`. */
  lemma PlayTally(s: Snapshot, mv: Move)
    requires Valid(s) && Playable(Size(s.fields), mv)
    requires !IsPass(mv.loc) ==> Get(s.fields, mv.loc) == Color.Empty
    ensures Tally(Play(s, mv)) == Tally(s) + (if IsPass(mv.loc) then 0 else 1)
  {
    if !IsPass(mv.loc) {
      var recorded := s.(history := s.history + [mv], current := Opponent(s.current));
      var placed := recorded.(fields := Set(s.fields, mv.loc, ToColor(mv.player)));
      SetStoneTally(s.fields, mv.loc, ToColor(mv.player));
      var afterUp := CheckRemove(placed, Up(mv.loc));
      CheckRemoveKeepsTally(placed, Up(mv.loc));
      var afterDown := CheckRemove(afterUp, Down(mv.loc));
      CheckRemoveKeepsTally(afterUp, Down(mv.loc));
      var afterLeft := CheckRemove(afterDown, Left(mv.loc));
      CheckRemoveKeepsTally(afterDown, Left(mv.loc));
      CheckRemoveKeepsTally(afterLeft, Right(mv.loc));
    }
  }

  /** The undo round trip: on a game started by `Board::new` whose first
      move is made by the starting player, undoing a `play` gives back the
      board exactly as it was before, fields, history, player to move and
      capture counters alike. */
  lemma UndoAfterPlay(rows: nat, cols: nat, p: Player, komi: real, ms: seq<Move>, mv: Move)
    requires rows > 0 && cols > 0
    requires AllPlayable((rows, cols), ms) && Playable((rows, cols), mv)
    requires (if ms == [] then mv.player else ms[0].player) == p
    ensures Undo(Play(Replay(New(rows, cols, p, komi), ms), mv)) == Replay(New(rows, cols, p, komi), ms)
  {
    var s0 := New(rows, cols, p, komi);
    assert AllPlayable(Size(s0.fields), ms + [mv]);
    ReplayAppend(s0, ms, mv);
    var after := Play(Replay(s0, ms), mv);
    assert after.history == ms + [mv];
    assert (ms + [mv])[0].player == p;
    assert Reset(after) == s0;
    assert after.history[..|after.history| - 1] == ms;
  }

  /** `reset` takes the starting player from the first move, not from the
      board: when the first move is by the other player, `undo` does not give
      back the player to move. Here White passes first on a board where
      Black was to start, and Black passes; undoing Black's pass leaves Black
      to move where White was to move. */
  lemma UndoLosesStartingPlayer()
    ensures var s1 := Play(New(3, 3, Player.Black, 0.0), Move(Player.White, PassLoc));
      Undo(Play(s1, Move(Player.Black, PassLoc))).current == Player.Black &&
      s1.current == Player.White
  {
    var s0 := New(3, 3, Player.Black, 0.0);
    var s1 := Play(s0, Move(Player.White, PassLoc));
    var s2 := Play(s1, Move(Player.Black, PassLoc));
    assert s2.history == [Move(Player.White, PassLoc), Move(Player.Black, PassLoc)];
    assert Reset(s2) == New(3, 3, Player.White, 0.0);
    assert s2.history[..1] == [Move(Player.White, PassLoc)];
    assert Replay(Reset(s2), [Move(Player.White, PassLoc)]).current == Player.Black by {
      ReplayParity(Reset(s2), [Move(Player.White, PassLoc)]);
    }
  }

  /** `move_is_valid` in the engine's own terms: a move is accepted exactly
      when it is a stone on an Empty interior point, the stone is still
      there after its captures, and the resulting cells differ from those of
      `undo` applied to the board (the position before the opponent's last
      move). In particular a pass is never accepted. */
  lemma MoveIsValidMeaning(s: Snapshot, mv: Move)
    requires Valid(s) && MoveIsValidDefined(s, mv)
    ensures MoveIsValid(s, mv) <==>
      !IsPass(mv.loc) && IsOnBoard(mv.loc, Size(s.fields)) &&
      Get(s.fields, mv.loc) == Color.Empty &&
      Get(Play(s, mv).fields, mv.loc) == ToColor(mv.player) &&
      Play(s, mv).fields != Undo(s).fields
  {
    if IsOnBoard(mv.loc, Size(s.fields)) || IsPass(mv.loc) {
      if Get(s.fields, mv.loc) == Color.Empty {
        if IsPass(mv.loc) {
          PassKeepsPosition(s, mv);
        } else {
          PlayEffect(s, mv);
        }
      }
    }
  }

  /** A move `move_is_valid` accepts adds exactly one stone to the tally of
      stones on the board and in the capture counters. */
  lemma ValidMoveAddsOneStone(s: Snapshot, mv: Move)
    requires Valid(s) && MoveIsValidDefined(s, mv) && MoveIsValid(s, mv)
    ensures Playable(Size(s.fields), mv) && !IsPass(mv.loc)
    ensures Tally(Play(s, mv)) == Tally(s) + 1
  {
    MoveIsValidMeaning(s, mv);
    PlayTally(s, mv);
  }

  /** `play_if_move_is_valid` records the move exactly when it is a stone on
      an empty interior point that survives its own capture checks and does
      not recreate the previous position; the stone is then on the board and
      the turn passes. Any other move leaves the board completely unchanged. */
  lemma PlayIfMoveIsValidCases(s: Snapshot, mv: Move)
    requires Valid(s) && MoveIsValidDefined(s, mv)
    ensures var r := PlayIfMoveIsValid(s, mv);
      var accepted := !IsPass(mv.loc) && IsOnBoard(mv.loc, Size(s.fields)) &&
        Get(s.fields, mv.loc) == Color.Empty &&
        Get(Play(s, mv).fields, mv.loc) == ToColor(mv.player) &&
        Play(s, mv).fields != Undo(s).fields;
      (r.history == s.history + [mv] <==> accepted) &&
      (accepted ==> Get(r.fields, mv.loc) == ToColor(mv.player) && r.current == Opponent(s.current)) &&
      (!accepted ==> r == s)
  {
    MoveIsValidMeaning(s, mv);
    if !MoveIsValid(s, mv) {
      assert |s.history + [mv]| != |s.history|;
    }
  }

  /** Suicide of a lone stone is accepted: on a 3 by 3 board, whose only
      point (1,1) is surrounded by sentinels, Black's stone there is valid
      after a White pass, yet its group has no liberty. */
  lemma LoneStoneSuicideAccepted()
    ensures var s1 := Play(New(3, 3, Player.White, 0.0), Move(Player.White, PassLoc));
      MoveIsValidDefined(s1, Move(Player.Black, Loc(1, 1))) &&
      MoveIsValid(s1, Move(Player.Black, Loc(1, 1))) &&
      Liberties(Play(s1, Move(Player.Black, Loc(1, 1))).fields, Loc(1, 1)) == 0
  {
    var s0 := New(3, 3, Player.White, 0.0);
    var mv := Move(Player.Black, Loc(1, 1));
    var s1 := Play(s0, Move(Player.White, PassLoc));
    var f := Play(s1, mv).fields;
    assert Get(f, Loc(1, 1)) == Color.Black by {
      LoneStonePlaced(s1, mv);
    }
    assert Reset(s1) == s0 && s1.history[..0] == [];
    assert f != s0.fields by {
      assert Get(s0.fields, Loc(1, 1)) == Color.Empty;
    }
    SmallBoardNoLiberty(f);
  }

  /** On a 3 by 3 board, a stone at the only point captures nothing: all
      its neighbours are sentinels. */
  lemma LoneStonePlaced(s: Snapshot, mv: Move)
    requires Valid(s) && Size(s.fields) == (3, 3) && mv.loc == Loc(1, 1)
    requires Get(s.fields, Loc(1, 1)) == Color.Empty
    ensures Playable((3, 3), mv)
    ensures Play(s, mv).fields == Set(s.fields, Loc(1, 1), ToColor(mv.player))
  {
    var placed := Set(s.fields, Loc(1, 1), ToColor(mv.player));
    assert InRange(placed, Loc(0, 1)) && Get(placed, Loc(0, 1)) == Color.Invalid;
    assert InRange(placed, Loc(2, 1)) && Get(placed, Loc(2, 1)) == Color.Invalid;
    assert InRange(placed, Loc(1, 0)) && Get(placed, Loc(1, 0)) == Color.Invalid;
    assert InRange(placed, Loc(1, 2)) && Get(placed, Loc(1, 2)) == Color.Invalid;
  }

  /** On a 3 by 3 board no group has a liberty: the neighbours of the only
      point are all sentinels. */
  lemma SmallBoardNoLiberty(f: Fields)
    requires WellFormed(f) && Size(f) == (3, 3)
    ensures Liberties(f, Loc(1, 1)) == 0
  {
    assert LibertySet(f, Group(f, Loc(1, 1))) == {} by {
      forall x, y | x in Group(f, Loc(1, 1)) && IsOnBoard(x, Size(f)) && y in Neighbours(x) && InRange(f, y)
        ensures Get(f, y) != Color.Empty
      {
        assert x == Loc(1, 1);
        assert !IsOnBoard(y, Size(f));
      }
    }
  }

  /** The end-of-game test compares locations only: two consecutive stone
      moves on the same point, which raw `play` accepts, also end the game. */
  lemma SamePointTwiceEndsGame()
    ensures LastTwoMovesArePass([Move(Player.Black, Loc(1, 1)), Move(Player.White, Loc(1, 1))])
    ensures !IsPass(Loc(1, 1))
  {
  }

  /** The end-of-game test with the pass check the name promises: true
      exactly when the last two moves are both passes. */
  function LastTwoMovesArePassChecked(history: seq<Move>): (r: bool)
    ensures r <==> |history| > 1 && IsPass(history[|history| - 2].loc) && IsPass(history[|history| - 1].loc)
  {
    LastTwoMovesArePass(history) && IsPass(history[|history| - 1].loc)
  }
}
