/** The text form of a board coordinate: `Loc::from_string` of src/board.rs,
    together with the pieces of the Rust core library it relies on
    (`str::split(",")`, `str::trim` and `usize::from_str`). */
module LocText {
  import opened Locs

  datatype Option<T> = None | Some(value: T)

  /* ---------- str::split(",") ---------- */

  /** Re-joining parts with commas between them. */
  function Join(parts: seq<string>): string
    requires |parts| >= 1
  {
    if |parts| == 1 then parts[0]
    else Join(parts[..|parts| - 1]) + "," + parts[|parts| - 1]
  }

  /** `s.split(",")`: the maximal comma-free pieces of `s`, in order; an
      empty string or a trailing comma yields an empty piece. */
  function Split(s: string): (r: seq<string>)
    ensures |r| >= 1
    ensures forall i | 0 <= i < |r| :: ',' !in r[i]
    ensures ',' !in s ==> r == [s]
    decreases |s|
  {
    if s == [] then [""]
    else
      var rest := Split(s[1..]);
      if s[0] == ',' then [""] + rest
      else
        assert [s[0]] + s[1..] == s;
        [[s[0]] + rest[0]] + rest[1..]
  }

  /** A comma-free prefix followed by a comma splits off as the first piece. */
  lemma {:induction false} SplitPrefix(a: string, t: string)
    requires ',' !in a
    ensures Split(a + "," + t) == [a] + Split(t)
    decreases |a|
  {
    if a == [] {
      assert a + "," + t == [','] + t;
      assert (a + "," + t)[1..] == t;
    } else {
      var s := a + "," + t;
      assert s[1..] == a[1..] + "," + t;
      assert ',' !in a[1..] by { assert forall k | 0 <= k < |a[1..]| :: a[1..][k] == a[k + 1]; }
      SplitPrefix(a[1..], t);
      assert [a[0]] + a[1..] == a;
    }
  }

  /** The pieces of a string with exactly one comma. */
  lemma SplitTwo(a: string, b: string)
    requires ',' !in a && ',' !in b
    ensures Split(a + "," + b) == [a, b]
  {
    SplitPrefix(a, b);
  }

  /** The pieces re-join to the original string. */
  lemma {:induction false} SplitJoin(s: string)
    ensures Join(Split(s)) == s
    decreases |s|
  {
    if s != [] {
      SplitJoin(s[1..]);
      var rest := Split(s[1..]);
      if s[0] == ',' {
        JoinCons("", rest);
        assert "" + "," + Join(rest) == [','] + s[1..];
      } else {
        JoinHead(s[0], rest);
      }
      assert [s[0]] + s[1..] == s;
    }
  }

  /** Joining a list with one more piece in front. */
  lemma {:induction false} JoinCons(p: string, parts: seq<string>)
    requires |parts| >= 1
    ensures Join([p] + parts) == p + "," + Join(parts)
    decreases |parts|
  {
    if |parts| > 1 {
      var init := parts[..|parts| - 1];
      assert ([p] + parts)[..|parts|] == [p] + init;
      JoinCons(p, init);
    } else {
      assert [p] + parts == [p, parts[0]];
    }
  }

  /** Joining after a character is put in front of the first piece. */
  lemma {:induction false} JoinHead(c: char, parts: seq<string>)
    requires |parts| >= 1
    ensures Join([[c] + parts[0]] + parts[1..]) == [c] + Join(parts)
    decreases |parts|
  {
    var q := [[c] + parts[0]] + parts[1..];
    if |parts| > 1 {
      var init := parts[..|parts| - 1];
      var last := parts[|parts| - 1];
      assert q[..|q| - 1] == [[c] + init[0]] + init[1..];
      assert q[|q| - 1] == last;
      JoinHead(c, init);
      assert Join(q) == Join(q[..|q| - 1]) + "," + last;
      assert Join(parts) == Join(init) + "," + last;
      assert Join(q) == [c] + Join(init) + "," + last;
    } else {
      assert q == [[c] + parts[0]];
    }
  }

  /* ---------- str::trim ---------- */

  /** `char::is_whitespace`: the Unicode White_Space property. */
  predicate IsWhiteSpace(c: char)
  {
    var x := c as int;
    (0x09 <= x <= 0x0D) || x == 0x20 || x == 0x85 || x == 0xA0 || x == 0x1680 ||
    (0x2000 <= x <= 0x200A) || x == 0x2028 || x == 0x2029 || x == 0x202F ||
    x == 0x205F || x == 0x3000
  }

  predicate AllSpace(s: string)
  {
    forall i | 0 <= i < |s| :: IsWhiteSpace(s[i])
  }

  /** `trim_start`. */
  function TrimStart(s: string): string
    decreases |s|
  {
    if s != [] && IsWhiteSpace(s[0]) then TrimStart(s[1..]) else s
  }

  /** `trim_end`. */
  function TrimEnd(s: string): string
    decreases |s|
  {
    if s != [] && IsWhiteSpace(s[|s| - 1]) then TrimEnd(s[..|s| - 1]) else s
  }

  /** `str::trim`. */
  function Trim(s: string): string
  {
    TrimEnd(TrimStart(s))
  }

  /** `trim_start` drops the leading white space and nothing else. */
  lemma {:induction false} TrimStartShape(s: string) returns (k: nat)
    ensures k <= |s| && TrimStart(s) == s[k..]
    ensures forall x | 0 <= x < k :: IsWhiteSpace(s[x])
    ensures k == |s| || !IsWhiteSpace(s[k])
    decreases |s|
  {
    if s != [] && IsWhiteSpace(s[0]) {
      var k' := TrimStartShape(s[1..]);
      k := k' + 1;
      assert s[1..][k'..] == s[k..];
      assert forall x | 1 <= x < k :: s[x] == s[1..][x - 1];
    } else {
      k := 0;
    }
  }

  /** `trim_end` drops the trailing white space and nothing else. */
  lemma {:induction false} TrimEndShape(s: string) returns (k: nat)
    ensures k <= |s| && TrimEnd(s) == s[..k]
    ensures forall x | k <= x < |s| :: IsWhiteSpace(s[x])
    ensures k == 0 || !IsWhiteSpace(s[k - 1])
    decreases |s|
  {
    if s != [] && IsWhiteSpace(s[|s| - 1]) {
      k := TrimEndShape(s[..|s| - 1]);
      assert s[..|s| - 1][..k] == s[..k];
      assert forall x | k <= x < |s| - 1 :: s[x] == s[..|s| - 1][x];
    } else {
      k := |s|;
    }
  }

  lemma {:induction false} TrimStartPadded(pad: string, w: string)
    requires AllSpace(pad) && (w == [] || !IsWhiteSpace(w[0]))
    ensures TrimStart(pad + w) == w
    decreases |pad|
  {
    if pad != [] {
      assert (pad + w)[1..] == pad[1..] + w;
      TrimStartPadded(pad[1..], w);
    }
  }

  lemma {:induction false} TrimEndPadded(w: string, pad: string)
    requires AllSpace(pad) && (w == [] || !IsWhiteSpace(w[|w| - 1]))
    ensures TrimEnd(w + pad) == w
    decreases |pad|
  {
    if pad != [] {
      assert (w + pad)[..|w + pad| - 1] == w + pad[..|pad| - 1];
      TrimEndPadded(w, pad[..|pad| - 1]);
    }
  }

  /** Trimming removes exactly the white space around a word whose own
      ends are not white space. */
  lemma TrimPadded(before: string, w: string, after: string)
    requires AllSpace(before) && AllSpace(after)
    requires w == [] || (!IsWhiteSpace(w[0]) && !IsWhiteSpace(w[|w| - 1]))
    ensures Trim(before + w + after) == w
  {
    assert before + w + after == before + (w + after);
    if w == [] {
      assert w + after == after;
      TrimStartPadded(before + after, []);
      assert before + after + [] == before + w + after;
    } else {
      assert (w + after)[0] == w[0];
      TrimStartPadded(before, w + after);
      TrimEndPadded(w, after);
    }
  }

  /** The result of trimming is a slice of the input with white space on
      both sides of it and not at either of its own ends; so trimming twice
      changes nothing more. */
  lemma TrimShape(s: string) returns (i: nat, j: nat)
    ensures i <= j <= |s| && Trim(s) == s[i..j]
    ensures forall x | 0 <= x < i :: IsWhiteSpace(s[x])
    ensures forall x | j <= x < |s| :: IsWhiteSpace(s[x])
    ensures Trim(s) == [] || (!IsWhiteSpace(Trim(s)[0]) && !IsWhiteSpace(Trim(s)[|Trim(s)| - 1]))
    ensures Trim(Trim(s)) == Trim(s)
  {
    i := TrimStartShape(s);
    var t := s[i..];
    var k := TrimEndShape(t);
    j := i + k;
    var r := t[..k];
    assert r == s[i..j];
    assert forall x | j <= x < |s| :: s[x] == t[x - i];
    if r != [] {
      assert r[0] == t[0] && r[|r| - 1] == t[k - 1];
    }
    assert TrimStart(r) == r;
  }

  /* ---------- usize::from_str ---------- */

  /** One past the largest `usize` on a 64-bit target. */
  const UsizeLimit: nat := 0x1_0000_0000_0000_0000

  predicate IsDigit(c: char)
  {
    '0' <= c <= '9'
  }

  predicate AllDigits(s: string)
  {
    forall i | 0 <= i < |s| :: IsDigit(s[i])
  }

  function DigitChar(d: nat): (c: char)
    requires d < 10
    ensures IsDigit(c) && c as int - '0' as int == d
  {
    ('0' as int + d) as char
  }

  /** The number a string of decimal digits denotes. */
  function Value(s: string): nat
    requires AllDigits(s)
  {
    if s == [] then 0
    else Value(s[..|s| - 1]) * 10 + (s[|s| - 1] as int - '0' as int)
  }

  /** The decimal numeral of `n`, without leading zeros (what `Display`
      prints for a `usize`). */
  function Show(n: nat): (r: string)
    ensures AllDigits(r) && r != [] && (r[0] == '0' ==> n == 0)
  {
    if n < 10 then [DigitChar(n)]
    else Show(n / 10) + [DigitChar(n % 10)]
  }

  function Zeros(k: nat): (r: string)
    ensures |r| == k && forall i | 0 <= i < k :: r[i] == '0'
  {
    if k == 0 then [] else Zeros(k - 1) + ['0']
  }

  /** `usize::from_str`: an optional `+`, then one or more decimal digits,
      denoting a number below 2^64. A lone sign is an error; a `-` is an
      invalid digit for an unsigned type. */
  function ParseUsize(s: string): (r: Option<nat>)
    ensures r.Some? ==> r.value < UsizeLimit
    ensures r.Some? ==> s != [] && (s[0] == '+' || IsDigit(s[0]))
    ensures s == "+" ==> r.None?
  {
    if s == [] then None
    else if (s[0] == '+' || s[0] == '-') && |s| == 1 then None
    else
      var digits := if s[0] == '+' then s[1..] else s;
      if !AllDigits(digits) then None
      else if Value(digits) >= UsizeLimit then None
      else Some(Value(digits))
  }

  lemma {:induction false} ValueShow(n: nat)
    ensures Value(Show(n)) == n
  {
    if n >= 10 {
      var s := Show(n);
      assert s[..|s| - 1] == Show(n / 10);
      ValueShow(n / 10);
    }
  }

  /** Leading zeros do not change the value. */
  lemma {:induction false} ValueZeros(k: nat, d: string)
    requires AllDigits(d)
    ensures AllDigits(Zeros(k) + d) && Value(Zeros(k) + d) == Value(d)
    decreases |d|, k
  {
    var s := Zeros(k) + d;
    if d == [] {
      assert s == Zeros(k);
      if k > 0 {
        assert s[..|s| - 1] == Zeros(k - 1) + [];
        ValueZeros(k - 1, []);
      }
    } else {
      assert s[..|s| - 1] == Zeros(k) + d[..|d| - 1];
      ValueZeros(k, d[..|d| - 1]);
    }
  }

  /** A numeral that does not start with `0` is the numeral of its value. */
  lemma {:induction false} ShowValue(d: string)
    requires AllDigits(d) && d != [] && d[0] != '0'
    ensures Show(Value(d)) == d
    decreases |d|
  {
    if |d| > 1 {
      var init := d[..|d| - 1];
      ShowValue(init);
      ValuePositive(init);
      var n := Value(d);
      assert n / 10 == Value(init) && n % 10 == d[|d| - 1] as int - '0' as int;
    }
  }

  lemma ValuePositive(d: string)
    requires AllDigits(d) && d != [] && d[0] != '0'
    ensures Value(d) > 0
  {
    if |d| > 1 {
      assert d[..|d| - 1][0] == d[0];
      ValuePositive(d[..|d| - 1]);
    }
  }

  /** The leading zeros of a digit string. */
  lemma {:induction false} ZeroRun(d: string) returns (k: nat)
    ensures k <= |d| && d == Zeros(k) + d[k..] && (k == |d| || d[k] != '0')
    decreases |d|
  {
    if d == [] || d[0] != '0' {
      k := 0;
      assert d == [] + d;
    } else {
      var k' := ZeroRun(d[1..]);
      k := k' + 1;
      assert d[k..] == d[1..][k'..];
      assert d == [d[0]] + d[1..];
    }
  }

  function Plus(plus: bool): string
  {
    if plus then "+" else ""
  }

  /** An optional `+` followed by digits parses to their value when it
      fits in 64 bits. */
  lemma ParseDigits(plus: bool, digits: string)
    requires AllDigits(digits) && digits != []
    ensures ParseUsize(Plus(plus) + digits) ==
              if Value(digits) < UsizeLimit then Some(Value(digits)) else None
  {
    var s := Plus(plus) + digits;
    if plus {
      assert s[0] == '+' && s[1..] == digits && |s| > 1;
    } else {
      assert s == digits && IsDigit(s[0]);
    }
  }

  /** Every numeral with an optional `+` and leading zeros parses to its
      value when that is below 2^64, and is refused otherwise. */
  lemma ParseNumeral(plus: bool, k: nat, n: nat)
    ensures ParseUsize(Plus(plus) + Zeros(k) + Show(n)) ==
              if n < UsizeLimit then Some(n) else None
  {
    var d := Zeros(k) + Show(n);
    assert AllDigits(d) && d != [] && Value(d) == n by {
      ValueZeros(k, Show(n));
      ValueShow(n);
    }
    ParseDigits(plus, d);
    assert Plus(plus) + Zeros(k) + Show(n) == Plus(plus) + d;
  }

  /** A digit string is some zeros followed by the numeral of its value. */
  lemma DigitsCanonical(digits: string) returns (k: nat)
    requires AllDigits(digits) && digits != []
    ensures digits == Zeros(k) + Show(Value(digits))
  {
    var n := Value(digits);
    var z := ZeroRun(digits);
    var rest := digits[z..];
    assert AllDigits(rest) by {
      assert forall i | 0 <= i < |rest| :: rest[i] == digits[z + i];
    }
    ValueZeros(z, rest);
    if rest == [] {
      k := z - 1;
      assert Zeros(z) == Zeros(k) + Show(0);
    } else {
      k := z;
      ShowValue(rest);
    }
  }

  /** Conversely, whatever parses is such a numeral: the accepted strings are
      exactly an optional `+`, some zeros and the numeral of the value. */
  lemma ParseCanonical(s: string) returns (plus: bool, k: nat)
    requires ParseUsize(s).Some?
    ensures s == Plus(plus) + Zeros(k) + Show(ParseUsize(s).value)
  {
    plus := s[0] == '+';
    var digits := if plus then s[1..] else s;
    var n := ParseUsize(s).value;
    assert s == Plus(plus) + digits && AllDigits(digits) && digits != [] && n == Value(digits);
    k := DigitsCanonical(digits);
  }

  /* ---------- Loc::from_string ---------- */

  /** `.map(|part| part.trim())` over the pieces. */
  function TrimAll(parts: seq<string>): (r: seq<string>)
    ensures |r| == |parts| && forall i | 0 <= i < |parts| :: r[i] == Trim(parts[i])
  {
    if parts == [] then [] else [Trim(parts[0])] + TrimAll(parts[1..])
  }

  /** `Loc::from_string`: `"row,col"` with white space allowed around either
      number; anything else is `None`. */
  function FromString(s: string): (r: Option<Loc>)
    ensures ',' !in s ==> r == None
    ensures |Split(s)| != 2 ==> r == None
    ensures r.Some? ==> r.value.row < UsizeLimit && r.value.col < UsizeLimit
  {
    if ',' !in s then None
    else
      var rowCol := TrimAll(Split(s));
      if |rowCol| != 2 then None
      else
        match ParseUsize(rowCol[0])
        case None => None
        case Some(row) =>
          match ParseUsize(rowCol[1])
          case None => None
          case Some(col) => Some(Loc(row, col))
  }

  /** On a string with exactly one comma, the result is the pair of parsed
      trimmed halves, and `None` as soon as either half does not parse. */
  lemma FromStringHalves(a: string, b: string)
    requires ',' !in a && ',' !in b
    ensures FromString(a + "," + b) ==
      match (ParseUsize(Trim(a)), ParseUsize(Trim(b)))
      case (Some(row), Some(col)) => Some(Loc(row, col))
      case _ => None
  {
    SplitTwo(a, b);
    assert ',' in a + "," + b by { assert (a + "," + b)[|a|] == ','; }
  }

  /** Whatever is accepted has exactly one comma, with the row before it and
      the column after it. */
  lemma FromStringAccepted(s: string) returns (i: nat)
    requires FromString(s).Some?
    ensures i < |s| && s[i] == ',' && ',' !in s[..i] && ',' !in s[i + 1..]
    ensures ParseUsize(Trim(s[..i])) == Some(FromString(s).value.row)
    ensures ParseUsize(Trim(s[i + 1..])) == Some(FromString(s).value.col)
  {
    var parts := Split(s);
    assert |parts| == 2;
    assert ParseUsize(Trim(parts[0])) == Some(FromString(s).value.row);
    assert ParseUsize(Trim(parts[1])) == Some(FromString(s).value.col);
    assert s == parts[0] + "," + parts[1] by {
      SplitJoin(s);
      assert parts[..1] == [parts[0]];
    }
    i := |parts[0]|;
    JoinTwo(parts[0], parts[1], s);
  }

  lemma JoinTwo(a: string, b: string, s: string)
    requires s == a + "," + b
    ensures |a| < |s| && s[|a|] == ',' && s[..|a|] == a && s[|a| + 1..] == b
  {
  }

  /** Printing a location the way a player types it and reading it back
      gives the same location. */
  lemma FromStringShow(l: Loc, before1: string, after1: string, before2: string, after2: string)
    requires l.row < UsizeLimit && l.col < UsizeLimit
    requires AllSpace(before1) && AllSpace(after1) && AllSpace(before2) && AllSpace(after2)
    ensures FromString((before1 + Show(l.row) + after1) + "," + (before2 + Show(l.col) + after2)) == Some(l)
  {
    var a := before1 + Show(l.row) + after1;
    var b := before2 + Show(l.col) + after2;
    assert ParseUsize(Trim(a)) == Some(l.row) by { ReadPadded(before1, l.row, after1); }
    assert ParseUsize(Trim(b)) == Some(l.col) by { ReadPadded(before2, l.col, after2); }
    assert ',' !in a && ',' !in b by {
      ReadPadded(before1, l.row, after1);
      ReadPadded(before2, l.col, after2);
    }
    FromStringHalves(a, b);
  }

  /** A numeral with white space around it, trimmed and parsed. */
  lemma ReadPadded(before: string, n: nat, after: string)
    requires n < UsizeLimit && AllSpace(before) && AllSpace(after)
    ensures ',' !in before + Show(n) + after
    ensures ParseUsize(Trim(before + Show(n) + after)) == Some(n)
  {
    var w := before + Show(n) + after;
    assert forall i | 0 <= i < |w| :: w[i] != ',' by {
      assert forall i | 0 <= i < |Show(n)| :: IsDigit(Show(n)[i]);
      assert forall i | 0 <= i < |w| :: i < |before| || i >= |before| + |Show(n)| || w[i] == Show(n)[i - |before|];
    }
    TrimPadded(before, Show(n), after);
    ParseNumeral(false, 0, n);
    assert Plus(false) + Zeros(0) + Show(n) == Show(n);
  }

  /** How a player types the coordinate (3, 4), spelled through `Show`. The
      three members below only guide the verifier from the literal "3, 4" to
      `FromStringShow`; they state nothing beyond `FromStringTyped`. */
  function TypedThreeFour(): string
  {
    ("" + Show(3) + "") + "," + (" " + Show(4) + "")
  }

  lemma TypedThreeFourSpelling()
    ensures TypedThreeFour() == "3, 4"
  {
    assert Show(3) == "3" && Show(4) == "4";
  }

  lemma TypedThreeFourRead()
    ensures FromString(TypedThreeFour()) == Some(Loc(3, 4))
  {
    assert AllSpace(" ");
    FromStringShow(Loc(3, 4), "", "", " ", "");
  }

  /** The coordinate a player types. */
  lemma FromStringTyped()
    ensures FromString("3, 4") == Some(Loc(3, 4))
  {
    TypedThreeFourRead();
    TypedThreeFourSpelling();
  }
}
