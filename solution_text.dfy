/**
 * The text solve prints for each solution the search finds: one line per
 * grid row, each value in decimal followed by one space, each line ended by
 * a newline, and one empty line after the grid.
 *
 * FormatSolution builds that text with the source's two nested loops and is
 * proved to produce Layout. The layout loses nothing: ParseLayout reads the
 * grid back from it (LayoutRoundTrip).
 */
module SolutionText {

  datatype Option<T> = None | Some(value: T)

  predicate IsDigit(ch: char) {
    '0' <= ch <= '9'
  }

  function DigitChar(d: int): char
    requires 0 <= d < 10
  {
    ('0' as int + d) as char
  }

  function DigitValue(ch: char): int
    requires IsDigit(ch)
  {
    ch as int - '0' as int
  }

  predicate AllDigits(s: string) {
    forall i :: 0 <= i < |s| ==> IsDigit(s[i])
  }

  /** The number written by the decimal digits s, most significant first. */
  function DigitsValue(s: string): int
    requires AllDigits(s)
  {
    if s == [] then 0 else DigitsValue(s[..|s| - 1]) * 10 + DigitValue(s[|s| - 1])
  }

  /** Decimal digits of x, most significant first, without leading zeros. */
  function NatToString(x: nat): string {
    if x < 10 then [DigitChar(x)] else NatToString(x / 10) + [DigitChar(x % 10)]
  }

  /** Java's decimal rendering of an integer: a minus sign for negative values, then the digits of the magnitude. */
  function IntToString(x: int): string {
    if x < 0 then "-" + NatToString(-x) else NatToString(x)
  }

  /** The decimal text of x is a non-empty run of digits that denotes x. */
  lemma {:induction false} NatToStringDigits(x: nat)
    ensures |NatToString(x)| > 0 && AllDigits(NatToString(x))
    ensures DigitsValue(NatToString(x)) == x
  {
    if x >= 10 {
      NatToStringDigits(x / 10);
      var s := NatToString(x);
      assert s[..|s| - 1] == NatToString(x / 10);
    }
  }

  /** The text of x starts with '-' exactly when x is negative, and the rest denotes |x|. */
  lemma IntToStringDigits(x: int)
    ensures |IntToString(x)| > 0
    ensures IntToString(x)[0] == '-' <==> x < 0
    ensures x < 0 ==> AllDigits(IntToString(x)[1..]) && DigitsValue(IntToString(x)[1..]) == -x
    ensures x >= 0 ==> AllDigits(IntToString(x)) && DigitsValue(IntToString(x)) == x
  {
    if x < 0 {
      NatToStringDigits(-x);
      assert IntToString(x)[1..] == NatToString(-x);
    } else {
      NatToStringDigits(x);
    }
  }

  lemma AppendAssoc<T>(a: seq<T>, b: seq<T>, c: seq<T>)
    ensures (a + b) + c == a + (b + c)
  {
  }

  /** What the source prints for one value: its decimal text and one space. */
  function Cell(x: int): string {
    IntToString(x) + " "
  }

  /** The values of a row, each followed by one space. */
  function RowText(row: seq<int>): string {
    if row == [] then "" else Cell(row[0]) + RowText(row[1..])
  }

  /** The printed line of a row: its values, then a newline. */
  function Line(row: seq<int>): string {
    RowText(row) + "\n"
  }

  /** The printed lines of the rows of values. */
  function RowsText(values: seq<seq<int>>): string {
    if values == [] then "" else Line(values[0]) + RowsText(values[1..])
  }

  /** What solve prints for one solution: its lines, then an empty line. */
  function Layout(values: seq<seq<int>>): string {
    RowsText(values) + "\n"
  }

  /**
   * The printing at the start of each pass of the solution loop: the line
   * of every row, then a newline after the grid.
   */
  method FormatSolution(values: seq<seq<int>>) returns (text: string)
    requires forall i :: 0 <= i < |values| ==> |values[i]| == |values|
    ensures text == Layout(values)
  {
    var n := |values|;
    text := "";
    for i := 0 to n
      invariant text == RowsText(values[..i])
    {
      var line := FormatLine(values[i]);
      RowsTextSnoc(values[..i], values[i]);
      assert values[..i + 1] == values[..i] + [values[i]];
      text := text + line;
    }
    assert values[..n] == values;
    text := text + "\n";
  }

  /** The inner printing loop, every value followed by a space, and the newline after it. */
  method FormatLine(row: seq<int>) returns (line: string)
    ensures line == Line(row)
  {
    line := "";
    for j := 0 to |row|
      invariant line == RowText(row[..j])
    {
      RowTextSnoc(row[..j], row[j]);
      assert row[..j + 1] == row[..j] + [row[j]];
      line := line + Cell(row[j]);
    }
    assert row[..|row|] == row;
    line := line + "\n";
  }

  lemma {:induction false} RowTextSnoc(row: seq<int>, x: int)
    ensures RowText(row + [x]) == RowText(row) + Cell(x)
  {
    if row == [] {
      assert row + [x] == [x];
      assert [x][1..] == [];
    } else {
      var first, tail := Cell(row[0]), RowText(row[1..]);
      assert RowText(row + [x]) == first + RowText(row[1..] + [x]) by {
        assert (row + [x])[0] == row[0];
        assert (row + [x])[1..] == row[1..] + [x];
      }
      RowTextSnoc(row[1..], x);
      AppendAssoc(first, tail, Cell(x));
    }
  }

  lemma {:induction false} RowsTextSnoc(values: seq<seq<int>>, row: seq<int>)
    ensures RowsText(values + [row]) == RowsText(values) + Line(row)
  {
    if values == [] {
      assert values + [row] == [row];
      assert [row][1..] == [];
    } else {
      var first, tail := Line(values[0]), RowsText(values[1..]);
      assert RowsText(values + [row]) == first + RowsText(values[1..] + [row]) by {
        assert (values + [row])[0] == values[0];
        assert (values + [row])[1..] == values[1..] + [row];
      }
      RowsTextSnoc(values[1..], row);
      AppendAssoc(first, tail, Line(row));
    }
  }

  // ---------------------------------------------------------------------------
  // Reading the layout back
  // ---------------------------------------------------------------------------

  /** The length of the run of digits at the start of s. */
  function DigitSpan(s: string): (len: nat)
    ensures len <= |s|
    ensures AllDigits(s[..len])
    ensures len < |s| ==> !IsDigit(s[len])
  {
    if s != [] && IsDigit(s[0]) then
      var len := 1 + DigitSpan(s[1..]);
      assert s[..len] == [s[0]] + s[1..][..len - 1];
      len
    else 0
  }

  /** A decimal number at the start of s, and what follows it. */
  function ParseNat(s: string): (r: Option<(int, string)>)
    ensures r.Some? ==> |r.value.1| < |s|
  {
    var len := DigitSpan(s);
    if len == 0 then None else Some((DigitsValue(s[..len]), s[len..]))
  }

  /** An optionally negative decimal number at the start of s, and what follows it. */
  function ParseInt(s: string): (r: Option<(int, string)>)
    ensures r.Some? ==> |r.value.1| < |s|
  {
    if s != [] && s[0] == '-' then
      match ParseNat(s[1..])
      case None => None
      case Some((v, rest)) => Some((-v, rest))
    else ParseNat(s)
  }

  /** A line of values, each followed by one space, up to and including its newline. */
  function ParseRow(s: string): (r: Option<(seq<int>, string)>)
    ensures r.Some? ==> |r.value.1| < |s|
    decreases |s|
  {
    if s == [] then None
    else if s[0] == '\n' then Some(([], s[1..]))
    else
      match ParseInt(s)
      case None => None
      case Some((x, rest)) =>
        if rest == [] || rest[0] != ' ' then None
        else
          match ParseRow(rest[1..])
          case None => None
          case Some((xs, after)) => Some(([x] + xs, after))
  }

  /** Lines of values up to the closing empty line, which must end the text. */
  function ParseLayout(s: string): Option<seq<seq<int>>>
    decreases |s|
  {
    if s == "\n" then Some([])
    else
      match ParseRow(s)
      case None => None
      case Some((row, rest)) =>
        match ParseLayout(rest)
        case None => None
        case Some(rows) => Some([row] + rows)
  }

  lemma {:induction false} DigitSpanOfDigits(digits: string, rest: string)
    requires AllDigits(digits)
    requires rest == [] || !IsDigit(rest[0])
    ensures DigitSpan(digits + rest) == |digits|
  {
    if digits != [] {
      assert (digits + rest)[1..] == digits[1..] + rest;
      DigitSpanOfDigits(digits[1..], rest);
    }
  }

  lemma ParseNatOfDigits(digits: string, rest: string)
    requires |digits| > 0 && AllDigits(digits)
    requires rest == [] || !IsDigit(rest[0])
    ensures ParseNat(digits + rest) == Some((DigitsValue(digits), rest))
  {
    DigitSpanOfDigits(digits, rest);
    assert (digits + rest)[..|digits|] == digits;
    assert (digits + rest)[|digits|..] == rest;
  }

  /** A rendered integer reads back as itself when no digit follows it. */
  lemma ParseIntRoundTrip(x: int, rest: string)
    requires rest == [] || !IsDigit(rest[0])
    ensures ParseInt(IntToString(x) + rest) == Some((x, rest))
  {
    var s := IntToString(x);
    IntToStringDigits(x);
    if x < 0 {
      assert (s + rest)[1..] == s[1..] + rest;
      ParseNatOfDigits(s[1..], rest);
    } else {
      ParseNatOfDigits(s, rest);
    }
  }

  /** A line that starts with a value followed by a space continues with the rest of the line. */
  lemma ParseRowStep(s: string, x: int, tail: string)
    requires s != [] && s[0] != '\n'
    requires ParseInt(s) == Some((x, tail))
    requires tail != [] && tail[0] == ' '
    requires ParseRow(tail[1..]).Some?
    ensures ParseRow(s) == Some(([x] + ParseRow(tail[1..]).value.0, ParseRow(tail[1..]).value.1))
  {
  }

  /** A value, a space and a parsable rest of a line parse as that value before the rest. */
  lemma ParseValueThenRow(x: int, after: string)
    requires ParseRow(after).Some?
    ensures ParseRow(IntToString(x) + (" " + after)) ==
            Some(([x] + ParseRow(after).value.0, ParseRow(after).value.1))
  {
    var tail := " " + after;
    var s := IntToString(x) + tail;
    IntToStringDigits(x);
    assert s[0] == IntToString(x)[0];
    ParseIntRoundTrip(x, tail);
    assert tail[1..] == after;
    ParseRowStep(s, x, tail);
  }

  /** The line of a non-empty row is its first value, a space, and the line of the other values. */
  lemma LineSplit(row: seq<int>, rest: string)
    requires row != []
    ensures Line(row) + rest == IntToString(row[0]) + (" " + (Line(row[1..]) + rest))
  {
    var num, tail := IntToString(row[0]), RowText(row[1..]);
    AppendAssoc(Cell(row[0]), tail, "\n");
    AppendAssoc(Cell(row[0]), Line(row[1..]), rest);
    AppendAssoc(num, " ", Line(row[1..]) + rest);
  }

  lemma {:induction false} ParseRowRoundTrip(row: seq<int>, rest: string)
    ensures ParseRow(Line(row) + rest) == Some((row, rest))
  {
    if row == [] {
      assert Line(row) + rest == "\n" + rest;
    } else {
      LineSplit(row, rest);
      ParseRowRoundTrip(row[1..], rest);
      ParseValueThenRow(row[0], Line(row[1..]) + rest);
      assert [row[0]] + row[1..] == row;
    }
  }

  /** The printed text of a solution determines the solution. */
  lemma {:induction false} LayoutRoundTrip(values: seq<seq<int>>)
    ensures ParseLayout(Layout(values)) == Some(values)
  {
    if values != [] {
      var line, rest := Line(values[0]), Layout(values[1..]);
      AppendAssoc(line, RowsText(values[1..]), "\n");
      assert Layout(values) == line + rest;
      assert |line| > 0 && |rest| > 0;
      ParseRowRoundTrip(values[0], rest);
      LayoutRoundTrip(values[1..]);
      assert [values[0]] + values[1..] == values;
    }
  }

  lemma IntToStringHasNoNewline(x: int)
    ensures '\n' !in IntToString(x)
  {
    IntToStringDigits(x);
    var t := IntToString(x);
    if x < 0 {
      assert t == [t[0]] + t[1..];
    }
  }

  lemma {:induction false} RowTextHasNoNewline(row: seq<int>)
    ensures multiset(RowText(row))['\n'] == 0
  {
    if row != [] {
      IntToStringHasNoNewline(row[0]);
      RowTextHasNoNewline(row[1..]);
      var num := IntToString(row[0]);
      assert multiset(num)['\n'] == 0;
      assert multiset(RowText(row)) == multiset(num) + multiset(" ") + multiset(RowText(row[1..]));
    }
  }

  lemma {:induction false} RowsTextLineCount(values: seq<seq<int>>)
    ensures multiset(RowsText(values))['\n'] == |values|
  {
    if values != [] {
      var row := values[0];
      RowTextHasNoNewline(row);
      RowsTextLineCount(values[1..]);
      assert multiset(RowsText(values)) ==
             multiset(RowText(row)) + multiset("\n") + multiset(RowsText(values[1..]));
    }
  }

  /** The text of a solution has |values| + 1 lines: one per row and the closing empty line. */
  lemma LayoutLineCount(values: seq<seq<int>>)
    ensures multiset(Layout(values))['\n'] == |values| + 1
  {
    RowsTextLineCount(values);
    assert multiset(Layout(values)) == multiset(RowsText(values)) + multiset("\n");
  }
}
