/** Board coordinates (`Loc` in src/board.rs): neighbour arithmetic, the pass
    sentinel, the interior test, row-major order and sorted lists of
    locations. */
module Locs {

  /** A cell coordinate. Both parts are `usize` in the source; they only ever
      hold small values here, so they are unbounded naturals. */
  datatype Loc = Loc(row: nat, col: nat)

  /** `Loc::up`: the row above. `row - 1` underflows on row 0 in the source. */
  function Up(l: Loc): (r: Loc)
    requires l.row > 0
    ensures r.row + 1 == l.row && r.col == l.col
  {
    Loc(l.row - 1, l.col)
  }

  /** `Loc::down`: the row below. */
  function Down(l: Loc): (r: Loc)
    ensures r.row == l.row + 1 && r.col == l.col
  {
    Loc(l.row + 1, l.col)
  }

  /** `Loc::left`: the column to the left. `col - 1` underflows on column 0. */
  function Left(l: Loc): (r: Loc)
    requires l.col > 0
    ensures r.row == l.row && r.col + 1 == l.col
  {
    Loc(l.row, l.col - 1)
  }

  /** `Loc::right`: the column to the right. */
  function Right(l: Loc): (r: Loc)
    ensures r.row == l.row && r.col == l.col + 1
  {
    Loc(l.row, l.col + 1)
  }

  /** The four orthogonal neighbours, in the order the engine visits them. */
  function Neighbours(l: Loc): seq<Loc>
    requires l.row > 0 && l.col > 0
  {
    [Up(l), Down(l), Left(l), Right(l)]
  }

  /** Orthogonal adjacency, stated without subtraction so that it is total. */
  predicate Adjacent(a: Loc, b: Loc)
  {
    (a.row == b.row && (a.col + 1 == b.col || b.col + 1 == a.col)) ||
    (a.col == b.col && (a.row + 1 == b.row || b.row + 1 == a.row))
  }

  /** The neighbour list of a cell off row 0 and column 0 is exactly its set
      of adjacent cells. */
  lemma NeighboursAreAdjacent(a: Loc, b: Loc)
    requires a.row > 0 && a.col > 0
    ensures b in Neighbours(a) <==> Adjacent(a, b)
  {
  }

  /** The pass sentinel (99,99): `Loc::pass`. */
  const PassLoc: Loc := Loc(99, 99)

  /** `Loc::is_pass` and `Move::is_pass`: recognises exactly the sentinel. */
  function IsPass(l: Loc): (r: bool)
    ensures r ==> l == PassLoc
  {
    l.row == 99 && l.col == 99
  }

  /** `Loc::is_on_board`: strictly inside the sentinel ring of a board of
      `size.0` rows and `size.1` columns. `size.0 - 1` underflows in the
      source for an empty dimension. */
  function IsOnBoard(l: Loc, size: (nat, nat)): (r: bool)
    requires size.0 > 0 && size.1 > 0
    ensures r ==> l.row > 0 && l.col > 0 && Down(l).row < size.0 && Right(l).col < size.1
  {
    l.row > 0 && l.row < size.0 - 1 && l.col > 0 && l.col < size.1 - 1
  }

  /** The derived `Ord` of `Loc`: lexicographic, row first (row-major). */
  predicate Before(a: Loc, b: Loc)
  {
    a.row < b.row || (a.row == b.row && a.col < b.col)
  }

  predicate StrictlySorted(s: seq<Loc>)
  {
    forall i, j | 0 <= i < j < |s| :: Before(s[i], s[j])
  }

  predicate Distinct(s: seq<Loc>)
  {
    forall i, j | 0 <= i < j < |s| :: s[i] != s[j]
  }

  function Elems(s: seq<Loc>): set<Loc>
  {
    set x | x in s
  }

  /** A duplicate-free list has as many elements as its set. */
  lemma {:induction false} DistinctCard(s: seq<Loc>)
    requires Distinct(s)
    ensures |Elems(s)| == |s|
  {
    if s != [] {
      var t := s[..|s| - 1];
      assert Distinct(t);
      DistinctCard(t);
      assert s == t + [s[|s| - 1]];
      assert s[|s| - 1] !in Elems(t);
      assert Elems(s) == Elems(t) + {s[|s| - 1]};
    }
  }

  /** A set has at most one strictly sorted listing: this is what makes a
      sorted group a canonical value. */
  lemma {:induction false} SortedUnique(a: seq<Loc>, b: seq<Loc>)
    requires StrictlySorted(a) && StrictlySorted(b)
    requires Elems(a) == Elems(b)
    ensures a == b
  {
    assert a != [] ==> a[0] in Elems(a);
    assert b != [] ==> b[0] in Elems(b);
    if a != [] && b != [] {
      // the first element of each is the least element of the common set
      var i :| 0 <= i < |b| && b[i] == a[0];
      var j :| 0 <= j < |a| && a[j] == b[0];
      assert Before(b[0], a[0]) || b[0] == a[0];
      assert Before(a[0], b[0]) || a[0] == b[0];
      assert Elems(a[1..]) == Elems(b[1..]) by {
        forall x ensures x in Elems(a[1..]) <==> x in Elems(b[1..]) {
          if x in Elems(a[1..]) {
            var i :| 1 <= i < |a| && a[i] == x;
            assert Before(a[0], x);
            assert x in Elems(b);
            var j :| 0 <= j < |b| && b[j] == x;
            assert j != 0;
          }
          if x in Elems(b[1..]) {
            var j :| 1 <= j < |b| && b[j] == x;
            assert Before(b[0], x);
            assert x in Elems(a);
            var i :| 0 <= i < |a| && a[i] == x;
            assert i != 0;
          }
        }
      }
      SortedUnique(a[1..], b[1..]);
      assert a == [a[0]] + a[1..];
      assert b == [b[0]] + b[1..];
    }
  }

  /** Inserting a new location into a sorted list keeps it sorted. */
  function Insert(s: seq<Loc>, x: Loc): (r: seq<Loc>)
    requires StrictlySorted(s) && x !in Elems(s)
    ensures StrictlySorted(r) && Elems(r) == Elems(s) + {x} && |r| == |s| + 1
  {
    if s == [] then [x]
    else if Before(x, s[0]) then [x] + s
    else
      assert StrictlySorted(s[1..]);
      assert x !in Elems(s[1..]);
      assert Elems(s) == {s[0]} + Elems(s[1..]);
      assert Before(s[0], x);
      var t := Insert(s[1..], x);
      assert forall k | 0 <= k < |t| :: t[k] in Elems(t);
      [s[0]] + t
  }

  /** The sort of `group_stones` (`Vec::sort`) on a duplicate-free list: the
      result is the strictly ascending listing of the same locations. */
  method SortLocs(xs: seq<Loc>) returns (ys: seq<Loc>)
    requires Distinct(xs)
    ensures StrictlySorted(ys) && Elems(ys) == Elems(xs) && |ys| == |xs|
  {
    ys := [];
    for i := 0 to |xs|
      invariant StrictlySorted(ys) && Elems(ys) == Elems(xs[..i]) && |ys| == i
    {
      assert xs[i] !in Elems(xs[..i]);
      assert xs[..i + 1] == xs[..i] + [xs[i]];
      ys := Insert(ys, xs[i]);
    }
    assert xs[..|xs|] == xs;
  }

  /** All cells of an `r` by `c` matrix. */
  function Cells(r: nat, c: nat): set<Loc>
  {
    set i: nat, j: nat | i < r && j < c :: Loc(i, j)
  }

  lemma InCells(l: Loc, r: nat, c: nat)
    ensures l in Cells(r, c) <==> l.row < r && l.col < c
  {
    if l.row < r && l.col < c {
      assert l == Loc(l.row, l.col);
    }
  }

  /** `Loc::get_all`: every cell of an `r` by `c` matrix, in row-major order. */
  method GetAll(r: nat, c: nat) returns (all: seq<Loc>)
    ensures StrictlySorted(all)
    ensures forall l :: l in all <==> l.row < r && l.col < c
    ensures |all| == r * c
  {
    all := [];
    for row := 0 to r
      invariant StrictlySorted(all)
      invariant forall l :: l in all <==> l.row < row && l.col < c
      invariant |all| == row * c
    {
      for col := 0 to c
        invariant StrictlySorted(all)
        invariant forall l :: l in all <==> (l.row < row && l.col < c) || (l.row == row && l.col < col)
        invariant |all| == row * c + col
      {
        all := all + [Loc(row, col)];
      }
    }
  }
}
