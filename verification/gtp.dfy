/**
 * The text codec of `jackrabbit/connection.py`: colour names, vertices in
 * the Go Text Protocol's naming (section 2.11 of GTP version 2: a column
 * letter that skips I, then a 1-based row number), the sorted list of
 * vertices that `legal_moves` answers with, and the decision behind
 * `gogui-rules_final_result`.
 *
 * Strings are sequences of characters; `str.lower()` is modelled on ASCII
 * letters only.
 */
module Gtp {
  import opened Options
  import opened Stones
  import opened Boards
  import opened Groups
  import opened Rules
  import opened Rollouts
  import opened Sessions

  // ---------------------------------------------------------------------
  // Characters and decimal numbers

  /** `str.lower()` on one character: ASCII capitals become small letters. */
  function LowerChar(ch: char): char {
    if 'A' <= ch <= 'Z' then (ch as int - 'A' as int + 'a' as int) as char else ch
  }

  /** `str.lower()`, character by character. */
  function Lower(s: string): (r: string)
    ensures |r| == |s|
    ensures forall k :: 0 <= k < |s| ==> r[k] == LowerChar(s[k])
  {
    seq(|s|, k requires 0 <= k < |s| => LowerChar(s[k]))
  }

  predicate IsDigit(ch: char) {
    '0' <= ch <= '9'
  }

  predicate AllDigits(s: string) {
    forall k :: 0 <= k < |s| ==> IsDigit(s[k])
  }

  function Digit(d: nat): char
    requires d < 10
  {
    (d + '0' as int) as char
  }

  /** The number a string of decimal digits spells, most significant digit first. */
  function DecimalValue(s: string): nat
    requires AllDigits(s)
  {
    if |s| == 0 then 0 else 10 * DecimalValue(s[..|s| - 1]) + (s[|s| - 1] as int - '0' as int)
  }

  /** A digit string that does not start with 0 spells a positive number. */
  lemma {:induction false} LeadingDigitPositive(s: string)
    requires |s| > 0 && AllDigits(s) && s[0] != '0'
    ensures DecimalValue(s) > 0
  {
    if |s| > 1 {
      var p := s[..|s| - 1];
      assert p[0] == s[0];
      LeadingDigitPositive(p);
    }
  }

  /** Printing the number a digit string spells gives the string back, unless it had a redundant leading zero. */
  lemma {:induction false} DecimalOfValue(s: string)
    requires |s| > 0 && AllDigits(s) && (|s| == 1 || s[0] != '0')
    ensures Decimal(DecimalValue(s)) == s
  {
    var v := DecimalValue(s);
    var d := s[|s| - 1] as int - '0' as int;
    if |s| == 1 {
      assert s[..|s| - 1] == [];
      assert DecimalValue(s[..|s| - 1]) == 0;
      assert v == d;
      assert Digit(d) == s[0];
    } else {
      var p := s[..|s| - 1];
      assert p[0] == s[0];
      LeadingDigitPositive(p);
      DecimalOfValue(p);
      assert v == 10 * DecimalValue(p) + d;
      assert v / 10 == DecimalValue(p) && v % 10 == d;
      assert Decimal(v) == Decimal(v / 10) + [Digit(v % 10)];
      assert Digit(d) == s[|s| - 1];
      assert s == p + [s[|s| - 1]];
    }
  }

  /**
   * `int(s)` on a row: a non-empty run of decimal digits, and a ValueError
   * otherwise. Without a redundant leading zero, `str` of the result writes
   * the same digits back.
   */
  function ParseDecimal(s: string): (r: Option<nat>)
    ensures r.Some? <==> |s| > 0 && AllDigits(s)
    ensures r.Some? && (|s| == 1 || s[0] != '0') ==> Decimal(r.value) == s
  {
    if |s| > 0 && AllDigits(s) then
      if |s| == 1 || s[0] != '0' then
        DecimalOfValue(s);
        Some(DecimalValue(s))
      else Some(DecimalValue(s))
    else None
  }

  /** `str(n)`: decimal digits with no leading zero. */
  function Decimal(n: nat): (r: string)
    ensures |r| > 0 && AllDigits(r)
    ensures r[0] == '0' ==> n == 0
  {
    if n < 10 then [Digit(n)] else Decimal(n / 10) + [Digit(n % 10)]
  }

  /** Reading back what `str` wrote gives the number. */
  lemma {:induction false} DecimalRoundTrip(n: nat)
    ensures ParseDecimal(Decimal(n)) == Some(n)
  {
    var s := Decimal(n);
    if n < 10 {
      assert s[..0] == [];
      assert DecimalValue(s) == n;
    } else {
      DecimalRoundTrip(n / 10);
      assert s[..|s| - 1] == Decimal(n / 10);
      assert DecimalValue(s) == 10 * (n / 10) + n % 10;
    }
  }

  // ---------------------------------------------------------------------
  // Colours

  /** The key `parse_color` accepts for each cell state. */
  function ColorKey(c: Cell): string {
    match c
    case Black => "b"
    case White => "w"
    case Empty => "e"
    case Border => "BORDER"
  }

  /** `parse_color`: a dictionary lookup; a KeyError for anything else. */
  function ParseColor(s: string): (r: Option<Cell>)
    ensures forall c :: r == Some(c) <==> s == ColorKey(c)
  {
    if s == "b" then Some(Black)
    else if s == "w" then Some(White)
    else if s == "e" then Some(Empty)
    else if s == "BORDER" then Some(Border)
    else None
  }

  /**
   * The commands lower-case the colour argument before parsing it, so the
   * key "BORDER" can never match there.
   */
  lemma LoweredNeverBorder(s: string)
    ensures ParseColor(Lower(s)) != Some(Border)
  {
    if |s| > 0 {
      assert Lower(s)[0] != 'B';
    }
  }

  /** `format_color`: a name for the two players, none for EMPTY or BORDER. */
  function FormatColor(c: Cell): (r: Option<string>)
    ensures r.Some? <==> IsPlayer(c)
    ensures r.Some? ==> |r.value| > 0 && ParseColor(r.value[..1]) == Some(c)
  {
    match c
    case Black => Some("black")
    case White => Some("white")
    case _ => None
  }

  // ---------------------------------------------------------------------
  // Vertices

  /** The column letters of the protocol: A to Z without I. */
  const ColumnLetters: string := "ABCDEFGHJKLMNOPQRSTUVWXYZ"

  /**
   * The column `parse_move` reads from a lower-case first character: a to h
   * are columns 1 to 8, j to z are 9 to 25, and i or anything that is not a
   * letter names no column.
   */
  function ColumnOf(ch: char): (r: Option<nat>)
    ensures r.Some? ==> 1 <= r.value <= MaxSize
    ensures r.Some? ==> ch != 'i' && 'a' <= ch <= 'z'
  {
    if !('a' <= ch <= 'z') || ch == 'i' then None
    else
      var col := ch as int - 'a' as int;
      Some(if ch < 'i' then col + 1 else col)
  }

  /** The column letters, lower-cased, are exactly what `ColumnOf` reads, in order. */
  lemma ColumnLettersRoundTrip(col: nat, ch: char)
    requires 1 <= col <= MaxSize
    ensures ColumnOf(LowerChar(ColumnLetters[col - 1])) == Some(col)
    ensures ColumnOf(ch) == Some(col) ==> LowerChar(ColumnLetters[col - 1]) == ch
  {
    assert |ColumnLetters| == 25;
    var letter := ColumnLetters[col - 1];
    assert letter as int == 'A' as int + (if col <= 8 then col - 1 else col) by {
      assert forall k :: 0 <= k < 25 ==>
        ColumnLetters[k] as int == 'A' as int + (if k < 8 then k else k + 1);
    }
  }

  /**
   * `parse_move(s, size)`: None for an unsupported board size, for "pass"
   * in any case, for a first character that names no column, for a row that
   * is missing, not a number or below 1, and for a row or column beyond the
   * board. Otherwise the point, which is always a playable cell.
   */
  function ParseMove(s: string, size: int): (r: Option<int>)
    ensures !(2 <= size <= MaxSize) ==> r.None?
    ensures Lower(s) == "pass" ==> r.None?
    ensures r.Some? ==> 2 <= size <= MaxSize && Playable(size, r.value) && r.value < MaxPoint(size)
  {
    if !(2 <= size <= MaxSize) then None
    else
      var l := Lower(s);
      if l == "pass" then None
      else if |l| == 0 then None
      else
        match ColumnOf(l[0])
        case None => None
        case Some(col) =>
          match ParseDecimal(l[1..])
          case None => None
          case Some(row) =>
            if row < 1 then None
            else if !(col <= size && row <= size) then None
            else
              PointAtCoordinates(size, row, col);
              PointBelowMax(size, row, col);
              Some(PointAt(size, row, col))
  }

  /**
   * A vertex `parse_move` accepts names its point: the first character
   * names the point's column and the rest spells its row.
   */
  lemma ParseMoveNames(s: string, size: int)
    requires ParseMove(s, size).Some?
    ensures |s| >= 2 && 2 <= size <= MaxSize
    ensures ColumnOf(LowerChar(s[0])) == Some(Col(size, ParseMove(s, size).value))
    ensures ParseDecimal(Lower(s[1..])) == Some(Row(size, ParseMove(s, size).value))
  {
    var l := Lower(s);
    assert l[1..] == Lower(s[1..]);
    var col := ColumnOf(l[0]).value;
    var row := ParseDecimal(l[1..]).value;
    assert ParseMove(s, size) == Some(PointAt(size, row, col));
    PointAtCoordinates(size, row, col);
  }

  /**
   * A column letter followed by a row number, both within a supported
   * board, is accepted as the point at that row and column.
   */
  lemma ParseMoveAccepts(s: string, size: int, col: nat, row: nat)
    requires 2 <= size <= MaxSize && |s| >= 2 && 1 <= row <= size && col <= size
    requires ColumnOf(LowerChar(s[0])) == Some(col) && ParseDecimal(Lower(s[1..])) == Some(row)
    ensures ParseMove(s, size) == Some(PointAt(size, row, col))
  {
    var l := Lower(s);
    assert l[1..] == Lower(s[1..]);
    assert IsDigit(l[1]) && !IsDigit("pass"[1]);
    assert l != "pass";
  }

  /** A playable point lies inside the cell array. */
  lemma PointBelowMax(size: nat, row: nat, col: nat)
    requires 1 <= row <= size && 1 <= col <= size
    ensures PointAt(size, row, col) < MaxPoint(size)
  {
    MulMonotone(row, size, size + 1);
  }

  /** `column_letters[col - 1]`: column 0 reads from the end, as Python indexes. */
  function ColumnLetter(col: nat): char
    requires col <= MaxSize
  {
    if col == 0 then ColumnLetters[|ColumnLetters| - 1] else ColumnLetters[col - 1]
  }

  /**
   * `format_point` exactly as written: it raises ValueError unless row and
   * column are both below MAXSIZE, so the last row and the last column of
   * a MAXSIZE board have no name.
   */
  function FormatPointAsWritten(point: int, size: nat): (r: Option<string>)
    ensures r.Some? <==> point >= 0 && Row(size, point) < MaxSize && Col(size, point) < MaxSize
  {
    if point < 0 then None
    else
      var row, col := point / (size + 1), point % (size + 1);
      if !(row < MaxSize) || !(col < MaxSize) then None
      else Some([ColumnLetter(col)] + Decimal(row))
  }

  /**
   * `format_point` with the bound it evidently intends: rows and columns up
   * to MAXSIZE have names. A negative point has a negative row and is
   * refused, as Python's floor division makes it.
   */
  function FormatPoint(point: int, size: nat): (r: Option<string>)
    ensures r.Some? <==> point >= 0 && Row(size, point) <= MaxSize && Col(size, point) <= MaxSize
    ensures r.Some? ==> |r.value| >= 2 && ' ' !in r.value
  {
    if point < 0 then None
    else
      var row, col := point / (size + 1), point % (size + 1);
      if !(row <= MaxSize) || !(col <= MaxSize) then None
      else
        var name := [ColumnLetter(col)] + Decimal(row);
        assert name[0] != ' ' && forall k :: 1 <= k < |name| ==> name[k] != ' ';
        Some(name)
  }

  /** The name of a point is its column letter followed by its row in decimal. */
  lemma FormatPointParts(p: int, size: nat)
    requires Playable(size, p) && size <= MaxSize
    ensures FormatPoint(p, size).Some?
    ensures FormatPoint(p, size).value == [ColumnLetters[Col(size, p) - 1]] + Decimal(Row(size, p))
  {
  }

  /** Naming a playable point and reading the name back gives the point. */
  lemma FormatParseRoundTrip(p: int, size: nat)
    requires 2 <= size <= MaxSize && Playable(size, p)
    ensures FormatPoint(p, size).Some?
    ensures ParseMove(FormatPoint(p, size).value, size) == Some(p)
  {
    FormatPointParts(p, size);
    var row, col := Row(size, p), Col(size, p);
    var name := FormatPoint(p, size).value;
    ColumnLettersRoundTrip(col, LowerChar(name[0]));
    assert name[1..] == Decimal(row);
    assert Lower(name[1..]) == name[1..];
    DecimalRoundTrip(row);
    Coordinates(size, p);
    ParseMoveAccepts(name, size, col, row);
  }

  /** Below the last row and column the written `format_point` names every point as intended. */
  lemma AsWrittenAgreesInside(p: int, size: nat)
    requires p >= 0 && Row(size, p) < MaxSize && Col(size, p) < MaxSize
    ensures FormatPointAsWritten(p, size) == FormatPoint(p, size)
    ensures FormatPointAsWritten(p, size).Some?
  {
  }

  /**
   * On a MAXSIZE board, every point of the last row or the last column is a
   * vertex `parse_move` accepts and a legal destination, yet the written
   * `format_point` refuses to name it.
   */
  lemma AsWrittenLosesEdge(p: int)
    requires Playable(MaxSize, p) && (Row(MaxSize, p) == MaxSize || Col(MaxSize, p) == MaxSize)
    ensures FormatPointAsWritten(p, MaxSize).None?
    ensures FormatPoint(p, MaxSize).Some? && ParseMove(FormatPoint(p, MaxSize).value, MaxSize) == Some(p)
  {
    FormatParseRoundTrip(p, MaxSize);
  }

  /** The corner A25 of a 25x25 board: the written `format_point` raises, the corrected one answers "A25". */
  lemma CornerA25()
    ensures Playable(MaxSize, PointAt(MaxSize, 25, 1))
    ensures FormatPointAsWritten(PointAt(MaxSize, 25, 1), MaxSize).None?
    ensures FormatPoint(PointAt(MaxSize, 25, 1), MaxSize) == Some("A25")
  {
    PointAtCoordinates(MaxSize, 25, 1);
    assert Decimal(25) == "25" by {
      assert Decimal(25) == Decimal(2) + [Digit(5)];
      assert Decimal(2) == "2";
    }
    assert ColumnLetter(1) == 'A';
    assert ['A'] + "25" == "A25";
  }

  // ---------------------------------------------------------------------
  // Move lists

  /** Python's string order: code point by code point, with a proper prefix first. */
  predicate StrLe(a: string, b: string)
    decreases |a|
  {
    |a| == 0 || (|b| > 0 && (a[0] < b[0] || (a[0] == b[0] && StrLe(a[1..], b[1..]))))
  }

  lemma {:induction false} StrLeTotal(a: string, b: string)
    ensures StrLe(a, b) || StrLe(b, a)
    decreases |a|
  {
    if |a| > 0 && |b| > 0 && a[0] == b[0] {
      StrLeTotal(a[1..], b[1..]);
    }
  }

  lemma {:induction false} StrLeAntisym(a: string, b: string)
    requires StrLe(a, b) && StrLe(b, a)
    ensures a == b
    decreases |a|
  {
    if |a| > 0 {
      StrLeAntisym(a[1..], b[1..]);
      assert a == [a[0]] + a[1..];
      assert b == [b[0]] + b[1..];
    }
  }

  lemma {:induction false} StrLeTrans(a: string, b: string, c: string)
    requires StrLe(a, b) && StrLe(b, c)
    ensures StrLe(a, c)
    decreases |a|
  {
    if |a| > 0 && a[0] == b[0] && b[0] == c[0] {
      StrLeTrans(a[1..], b[1..], c[1..]);
    }
  }

  /** Lexicographic, not numeric: "A10" sorts before "A2". */
  lemma TenBeforeTwo()
    ensures StrLe("A10", "A2") && !StrLe("A2", "A10")
  {
    assert "A10"[1..] == "10" && "A2"[1..] == "2";
  }

  predicate SortedNames(xs: seq<string>) {
    forall k :: 0 < k < |xs| ==> StrLe(xs[k - 1], xs[k])
  }

  /** Insertion into a sorted list. */
  function Insert(x: string, xs: seq<string>): (r: seq<string>)
    requires SortedNames(xs)
    ensures SortedNames(r) && multiset(r) == multiset(xs) + multiset{x}
    ensures |xs| > 0 ==> r[0] == x || r[0] == xs[0]
  {
    if |xs| == 0 then [x]
    else if StrLe(x, xs[0]) then [x] + xs
    else
      StrLeTotal(x, xs[0]);
      assert xs == [xs[0]] + xs[1..];
      [xs[0]] + Insert(x, xs[1..])
  }

  /** `sorted` on a list of strings. */
  function Sort(xs: seq<string>): (r: seq<string>)
    ensures SortedNames(r) && multiset(r) == multiset(xs)
  {
    if |xs| == 0 then []
    else
      assert xs == [xs[0]] + xs[1..];
      Insert(xs[0], Sort(xs[1..]))
  }

  /** In a sorted list the first name is at or before every other. */
  lemma {:induction false} SortedHeadFirst(xs: seq<string>, k: nat)
    requires SortedNames(xs) && k < |xs|
    ensures StrLe(xs[0], xs[k])
  {
    if k == 0 {
      StrLeTotal(xs[0], xs[0]);
    } else {
      SortedHeadFirst(xs, k - 1);
      StrLeTrans(xs[0], xs[k - 1], xs[k]);
    }
  }

  /** There is only one sorted arrangement of a list, so `Sort` agrees with any correct sort. */
  lemma {:induction false} SortedUnique(a: seq<string>, b: seq<string>)
    requires SortedNames(a) && SortedNames(b) && multiset(a) == multiset(b)
    ensures a == b
    decreases |a|
  {
    if |a| > 0 {
      assert |b| == |multiset(b)| == |a|;
      assert b[0] in multiset(a) && a[0] in multiset(b);
      var i :| 0 <= i < |a| && a[i] == b[0];
      var j :| 0 <= j < |b| && b[j] == a[0];
      SortedHeadFirst(a, i);
      SortedHeadFirst(b, j);
      StrLeAntisym(a[0], b[0]);
      assert a == [a[0]] + a[1..];
      assert b == [b[0]] + b[1..];
      assert multiset(a) == multiset{a[0]} + multiset(a[1..]);
      assert multiset(b) == multiset{b[0]} + multiset(b[1..]);
      assert multiset(a[1..]) == multiset(a) - multiset{a[0]};
      assert multiset(b[1..]) == multiset(b) - multiset{b[0]};
      SortedUnique(a[1..], b[1..]);
    }
  }

  /** `" ".join(xs)`. */
  function Join(xs: seq<string>): string {
    if |xs| == 0 then "" else if |xs| == 1 then xs[0] else xs[0] + " " + Join(xs[1..])
  }

  /** The first space of a string that has one. */
  function SpaceAt(s: string): (k: nat)
    requires ' ' in s
    ensures k < |s| && s[k] == ' ' && ' ' !in s[..k]
  {
    if s[0] == ' ' then 0
    else
      assert s == [s[0]] + s[1..];
      var k := SpaceAt(s[1..]);
      assert s[..k + 1] == [s[0]] + s[1..][..k];
      k + 1
  }

  /** `s.split(" ")`: the pieces between single spaces, as a reader of the answer splits it. */
  function Split(s: string): (r: seq<string>)
    ensures |r| > 0
    decreases |s|
  {
    if ' ' !in s then [s]
    else
      var k := SpaceAt(s);
      [s[..k]] + Split(s[k + 1..])
  }

  /** The first space after a space-free word is the one that follows it. */
  lemma {:induction false} SpaceAfterWord(a: string, rest: string)
    requires ' ' !in a
    ensures ' ' in a + " " + rest && SpaceAt(a + " " + rest) == |a|
  {
    var s := a + " " + rest;
    assert s[|a|] == ' ';
    if |a| > 0 {
      assert s[0] == a[0];
      assert s[1..] == a[1..] + " " + rest;
      SpaceAfterWord(a[1..], rest);
    }
  }

  /** Joining space-free names with spaces and splitting the result gives the names back. */
  lemma {:induction false} SplitJoin(xs: seq<string>)
    requires |xs| > 0 && forall k :: 0 <= k < |xs| ==> ' ' !in xs[k]
    ensures Split(Join(xs)) == xs
  {
    if |xs| > 1 {
      var s := Join(xs);
      assert s == xs[0] + " " + Join(xs[1..]);
      SpaceAfterWord(xs[0], Join(xs[1..]));
      var k := SpaceAt(s);
      assert s[..k] == xs[0];
      assert s[k + 1..] == Join(xs[1..]);
      SplitJoin(xs[1..]);
      assert xs == [xs[0]] + xs[1..];
    }
  }

  /** The names of all moves, or None when one of them has no name (`format_point` raised). */
  function FormatAll(moves: seq<int>, size: nat): (r: Option<seq<string>>)
    ensures r.Some? <==> forall k :: 0 <= k < |moves| ==> FormatPoint(moves[k], size).Some?
    ensures r.Some? ==> |r.value| == |moves|
    ensures r.Some? ==> forall k :: 0 <= k < |moves| ==> r.value[k] == FormatPoint(moves[k], size).value
  {
    if |moves| == 0 then Some([])
    else
      match FormatPoint(moves[0], size)
      case None => None
      case Some(name) =>
        match FormatAll(moves[1..], size)
        case None =>
          assert forall k :: 1 <= k < |moves| ==> moves[k] == moves[1..][k - 1];
          None
        case Some(rest) => Some([name] + rest)
  }

  /**
   * `format_moves`: the names of the moves, sorted as strings and joined by
   * spaces. It fails exactly when some move has no name, and answers the
   * empty line for no moves.
   */
  function FormatMoves(moves: seq<int>, size: nat): (r: Option<string>)
    ensures r.Some? <==> forall k :: 0 <= k < |moves| ==> FormatPoint(moves[k], size).Some?
    ensures moves == [] ==> r == Some("")
  {
    match FormatAll(moves, size)
    case None => None
    case Some(names) => Some(Join(Sort(names)))
  }

  /**
   * What `format_moves` answers: nothing when a move has no name, the empty
   * answer for no moves, and otherwise a line whose words are the moves'
   * names, each once per move, in string order.
   */
  lemma FormatMovesWords(moves: seq<int>, size: nat)
    ensures FormatMoves(moves, size).Some? <==> forall k :: 0 <= k < |moves| ==> FormatPoint(moves[k], size).Some?
    ensures moves == [] ==> FormatMoves(moves, size) == Some("")
    ensures |moves| > 0 && FormatMoves(moves, size).Some? ==>
              var words := Split(FormatMoves(moves, size).value);
              SortedNames(words) &&
              multiset(words) == multiset(FormatAll(moves, size).value) &&
              forall w :: w in words <==> exists k :: 0 <= k < |moves| && FormatPoint(moves[k], size) == Some(w)
  {
    if |moves| > 0 && FormatAll(moves, size).Some? {
      var names := FormatAll(moves, size).value;
      var sorted := Sort(names);
      assert |sorted| == |multiset(sorted)| == |names|;
      forall k | 0 <= k < |sorted|
        ensures ' ' !in sorted[k]
      {
        assert sorted[k] in multiset(names);
      }
      SplitJoin(sorted);
      forall w
        ensures w in sorted <==> exists k :: 0 <= k < |moves| && FormatPoint(moves[k], size) == Some(w)
      {
        assert w in sorted <==> w in multiset(names);
        if w in names {
          var k :| 0 <= k < |names| && names[k] == w;
          assert FormatPoint(moves[k], size) == Some(w);
        }
      }
    }
  }

  lemma NameOfA2()
    ensures FormatPoint(PointAt(10, 2, 1), 10) == Some("A2")
  {
    PointAtCoordinates(10, 2, 1);
    assert Decimal(2) == "2";
    assert ColumnLetter(1) == 'A';
    assert ['A'] + "2" == "A2";
  }

  lemma NameOfA10()
    ensures FormatPoint(PointAt(10, 10, 1), 10) == Some("A10")
  {
    PointAtCoordinates(10, 10, 1);
    assert Decimal(10) == "10" by {
      assert Decimal(10) == Decimal(1) + [Digit(0)];
      assert Decimal(1) == "1";
    }
    assert ColumnLetter(1) == 'A';
    assert ['A'] + "10" == "A10";
  }

  lemma NamesOfA2AndA10()
    ensures FormatAll([PointAt(10, 2, 1), PointAt(10, 10, 1)], 10) == Some(["A2", "A10"])
  {
    var moves := [PointAt(10, 2, 1), PointAt(10, 10, 1)];
    var tail := [PointAt(10, 10, 1)];
    NameOfA2();
    NameOfA10();
    assert moves[1..] == tail && tail[1..] == [];
    assert FormatAll(tail[1..], 10) == Some([]);
    assert tail[0] == PointAt(10, 10, 1) && FormatPoint(tail[0], 10) == Some("A10");
    assert ["A10"] + [] == ["A10"];
    assert FormatAll(tail, 10) == Some(["A10"] + []);
    assert FormatAll(moves, 10) == Some(["A2"] + ["A10"]);
    assert ["A2"] + ["A10"] == ["A2", "A10"];
  }

  lemma SortA2A10()
    ensures Sort(["A2", "A10"]) == ["A10", "A2"]
  {
    TenBeforeTwo();
    assert ["A2", "A10"][1..] == ["A10"];
    assert Sort(["A10"]) == ["A10"] by {
      assert ["A10"][1..] == [];
    }
    assert Insert("A2", ["A10"]) == ["A10"] + Insert("A2", ["A10"][1..]);
    assert ["A10"][1..] == [];
  }

  /** The names of A2 and A10 come out in string order, "A10" first. */
  lemma TenListedBeforeTwo()
    ensures FormatMoves([PointAt(10, 2, 1), PointAt(10, 10, 1)], 10) == Some("A10 A2")
  {
    NamesOfA2AndA10();
    SortA2A10();
    assert Join(["A10", "A2"]) == "A10 A2" by {
      assert ["A10", "A2"][1..] == ["A2"];
    }
  }

  // ---------------------------------------------------------------------
  // Final result

  /**
   * `gogui-rules_final_result`: when the side to move is a player and has
   * no legal move, the game is over and its opponent has won; otherwise the
   * answer is "unknown".
   */
  function FinalResult(e: Engine): (r: string)
    requires WellIndexed(e.board)
    ensures r == "black" <==> e.current == White && forall p :: 0 <= p < |e.board.cells| ==> !LegalMove(e.board, p, e.current)
    ensures r == "white" <==> e.current == Black && forall p :: 0 <= p < |e.board.cells| ==> !LegalMove(e.board, p, e.current)
    ensures r == "black" || r == "white" || r == "unknown"
  {
    var moves := LegalMovesFor(e.board, e.current);
    if moves == [] && FormatColor(Opponent(e.current)).Some? then
      FormatColor(Opponent(e.current)).value
    else
      assert moves != [] ==> moves[0] in moves;
      "unknown"
  }

  /**
   * `gogui-rules_side_to_move` as written: it names the opponent of the
   * current player, so it answers the side that is NOT to move, and the
   * empty answer when the current player is not a player.
   */
  function SideToMoveAsWritten(e: Engine): (r: string)
    ensures e.current == Black <==> r == "white"
    ensures e.current == White <==> r == "black"
    ensures !IsPlayer(e.current) <==> r == ""
  {
    match FormatColor(Opponent(e.current))
    case Some(name) => name
    case None => ""
  }

  /** On a new session BLACK is to move, yet the written command answers "white". */
  lemma SideToMoveNamesWaitingSide()
    ensures NewEngine().current == Black && SideToMoveAsWritten(NewEngine()) == "white"
  {
  }

  /**
   * `gogui-rules_side_to_move` corrected: it names the current player,
   * whose colour `parse_color` reads back from the answer's first letter.
   */
  function SideToMove(e: Engine): (r: string)
    ensures IsPlayer(e.current) <==> r != ""
    ensures IsPlayer(e.current) ==> ParseColor(r[..1]) == Some(e.current)
  {
    match FormatColor(e.current)
    case Some(name) => name
    case None => ""
  }

  /**
   * The engine resigns exactly when the rules would call the game lost for
   * it: after at least one playout, `generate_move` for the side to move
   * finds no move precisely when the final result names its opponent.
   */
  lemma ResignMatchesFinalResult(e: Engine, bonus: (nat, nat) -> real,
                                 shuffle: (nat, seq<int>) -> seq<int>, draws: nat, count: nat)
    requires WellIndexed(e.board) && Permutes(shuffle) && IsPlayer(e.current) && count > 0
    ensures GenerateMove(e, e.current, bonus, shuffle, draws, count).move.None? <==>
              Some(FinalResult(e)) == FormatColor(Opponent(e.current))
  {
    var moves := LegalMovesFor(e.board, e.current);
    OpponentSwapsPlayers(e.current);
    if moves != [] {
      assert moves[0] in moves;
    }
  }
}
