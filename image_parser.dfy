/**
  The image-line parser that the `preview`, `view_image_data` and `update`
  routes of the CSV uploader each carry a copy of: the file text loses its
  carriage returns and surrounding whitespace, is cut into lines, every line
  is cut on `;` into trimmed non-empty tokens, a line is kept when all its
  tokens are decimal numerals, and only the rows as wide as the widest kept
  row survive. `max()` over no kept row raises, which the routes turn into an
  error page.
*/
module ImageParser {
  import opened PyText

  /** `max()` of an empty sequence raises `ValueError`: no line was kept. */
  datatype ParseError = NoAcceptedLine

  datatype Result<T> = Ok(value: T) | Err(error: ParseError)

  /** One kept line: its tokens, still as text (the form `update` stores). */
  type Row = seq<string>

  // ---------------------------------------------------------------------
  // Filtering comprehensions `[row(x) for x in xs if ok(x)]`

  /** `[row(x) for x in xs if ok(x)]`, in order. */
  function Select<X, Y>(xs: seq<X>, ok: X -> bool, row: X -> Y): seq<Y>
  {
    if |xs| == 0 then []
    else
      var last := xs[|xs| - 1];
      Select(xs[..|xs| - 1], ok, row) + (if ok(last) then [row(last)] else [])
  }

  /** Filtering the two halves of a sequence separately gives the same result. */
  lemma {:induction false} SelectAppend<X, Y>(a: seq<X>, b: seq<X>, ok: X -> bool, row: X -> Y)
    ensures Select(a + b, ok, row) == Select(a, ok, row) + Select(b, ok, row)
  {
    if |b| > 0 {
      var front := b[..|b| - 1];
      SelectAppend(a, front, ok, row);
      assert (a + b)[..|a + b| - 1] == a + front;
      assert (a + b)[|a + b| - 1] == b[|b| - 1];
    } else {
      assert a + b == a;
    }
  }

  /**
    An element that passes the test is kept, in its place: after what the
    elements before it give and before what the elements after it give.
  */
  lemma SelectKeepsPassing<X, Y>(xs: seq<X>, ok: X -> bool, row: X -> Y, k: nat)
    requires k < |xs| && ok(xs[k])
    ensures Select(xs, ok, row) == Select(xs[..k], ok, row) + [row(xs[k])] + Select(xs[k + 1..], ok, row)
    ensures row(xs[k]) in Select(xs, ok, row)
  {
    assert xs == xs[..k] + [xs[k]] + xs[k + 1..];
    SelectAppend(xs[..k], [xs[k]], ok, row);
    SelectAppend(xs[..k] + [xs[k]], xs[k + 1..], ok, row);
    assert [xs[k]][..0] == [];
  }

  /** Nothing is selected exactly when no element passes the test. */
  lemma {:induction false} SelectEmptyIff<X, Y>(xs: seq<X>, ok: X -> bool, row: X -> Y)
    ensures Select(xs, ok, row) == [] <==> forall k :: 0 <= k < |xs| ==> !ok(xs[k])
  {
    if |xs| > 0 {
      var front := xs[..|xs| - 1];
      SelectEmptyIff(front, ok, row);
      assert forall k :: 0 <= k < |front| ==> front[k] == xs[k];
    }
  }

  /** Every selected item is the image of an element that passed the test. */
  lemma {:induction false} SelectFrom<X, Y>(xs: seq<X>, ok: X -> bool, row: X -> Y)
    ensures forall i :: 0 <= i < |Select(xs, ok, row)| ==>
      exists k :: 0 <= k < |xs| && ok(xs[k]) && Select(xs, ok, row)[i] == row(xs[k])
  {
    if |xs| > 0 {
      var front := xs[..|xs| - 1];
      SelectFrom(front, ok, row);
      var r := Select(xs, ok, row);
      var last := xs[|xs| - 1];
      assert r == Select(front, ok, row) + (if ok(last) then [row(last)] else []);
      forall i | 0 <= i < |r| ensures exists k :: 0 <= k < |xs| && ok(xs[k]) && r[i] == row(xs[k]) {
        if i < |Select(front, ok, row)| {
          assert r[i] == Select(front, ok, row)[i];
          var k :| 0 <= k < |front| && ok(front[k]) && Select(front, ok, row)[i] == row(front[k]);
          assert front[k] == xs[k];
        } else {
          assert ok(xs[|xs| - 1]) && r[i] == row(xs[|xs| - 1]);
        }
      }
    } else {
      assert Select(xs, ok, row) == [];
    }
  }

  /** A property every passing element's image has, every selected item has. */
  lemma SelectSatisfies<X, Y>(xs: seq<X>, ok: X -> bool, row: X -> Y, p: Y -> bool)
    requires forall k :: 0 <= k < |xs| && ok(xs[k]) ==> p(row(xs[k]))
    ensures forall i :: 0 <= i < |Select(xs, ok, row)| ==> p(Select(xs, ok, row)[i])
  {
    SelectFrom(xs, ok, row);
  }

  // ---------------------------------------------------------------------
  // Tokens of one line

  /** The comprehension's test `p.strip() != ''`. */
  predicate NonBlank(p: string) {
    Strip(p) != ""
  }

  /** `[p.strip() for p in parts if p.strip() != '']` */
  function StrippedNonEmpty(parts: seq<string>): seq<string>
  {
    Select(parts, NonBlank, Strip)
  }

  /** The tokens of one line: `[p.strip() for p in line.split(';') if p.strip() != '']`. */
  function Tokens(line: string): seq<string>
  {
    StrippedNonEmpty(Split(line, ';'))
  }

  /** A trimmed token: non-empty, no whitespace at either end, no `sep`. */
  predicate TrimmedToken(t: string, sep: char) {
    t != "" && !IsSpace(t[0]) && !IsSpace(t[|t| - 1]) && sep !in t
  }

  lemma StrippedNonEmptyShape(parts: seq<string>, sep: char)
    requires forall j :: 0 <= j < |parts| ==> sep !in parts[j]
    ensures forall i :: 0 <= i < |StrippedNonEmpty(parts)| ==> TrimmedToken(StrippedNonEmpty(parts)[i], sep)
  {
    forall j | 0 <= j < |parts| && NonBlank(parts[j]) ensures TrimmedToken(Strip(parts[j]), sep) {
      StripSpec(parts[j]);
      StripKeepsAbsentChar(parts[j], sep);
    }
    SelectSatisfies(parts, NonBlank, Strip, (t: string) => TrimmedToken(t, sep));
  }

  /**
    Every token is non-empty, has no whitespace at either end and holds no
    `;`: splitting, trimming and dropping empty pieces leave nothing else.
  */
  lemma TokensShape(line: string)
    ensures forall i :: 0 <= i < |Tokens(line)| ==> TrimmedToken(Tokens(line)[i], ';')
  {
    var parts := Split(line, ';');
    SplitPieces(line, ';');
    assert forall j :: 0 <= j < |parts| ==> PieceOf(parts[j], line, ';');
    StrippedNonEmptyShape(parts, ';');
  }

  /**
    The tokens of a line are the stripped `;`-pieces that are not blank:
    every such piece gives a token, and every token comes from one.
  */
  lemma TokensOfPieces(line: string)
    ensures forall k :: 0 <= k < |Split(line, ';')| && NonBlank(Split(line, ';')[k]) ==>
      Strip(Split(line, ';')[k]) in Tokens(line)
    ensures forall i :: 0 <= i < |Tokens(line)| ==>
      exists k :: 0 <= k < |Split(line, ';')| && NonBlank(Split(line, ';')[k]) && Tokens(line)[i] == Strip(Split(line, ';')[k])
  {
    var parts := Split(line, ';');
    forall k | 0 <= k < |parts| && NonBlank(parts[k]) ensures Strip(parts[k]) in Tokens(line) {
      SelectKeepsPassing(parts, NonBlank, Strip, k);
    }
    SelectFrom(parts, NonBlank, Strip);
  }

  /** The pieces of `"1; 2;;"`: the last two are empty. */
  lemma SplitExampleLine()
    ensures Split("1; 2;;", ';') == ["1", " 2", "", ""]
  {
    SplitNoSep("", ';');
    SplitAfterPiece("", ';', "");
    SplitAfterPiece(" 2", ';', ";");
    assert " 2" + [';'] + ";" == " 2;;";
    SplitAfterPiece("1", ';', " 2;;");
    assert "1" + [';'] + " 2;;" == "1; 2;;";
  }

  /** Stripping each piece of that line. */
  lemma StripExamples()
    ensures Strip("1") == "1" && Strip(" 2") == "2" && Strip("") == ""
  {
  }

  /** Pieces are trimmed, and empty pieces give no token. */
  lemma StrippedNonEmptyExample()
    ensures StrippedNonEmpty(["1", " 2", "", ""]) == ["1", "2"]
  {
    var parts := ["1", " 2", "", ""];
    StripExamples();
    assert parts[..1][..0] == [];
    assert Select(parts[..1], NonBlank, Strip) == ["1"];
    assert parts[..2][..1] == parts[..1];
    assert Select(parts[..2], NonBlank, Strip) == ["1", "2"];
    assert parts[..3][..2] == parts[..2];
    assert parts[..4][..3] == parts[..3];
    assert parts == parts[..4];
  }

  /** The tokens of `"1; 2;;"` are `"1"` and `"2"`: no token for the empty pieces after the last number. */
  lemma TokensExample()
    ensures Tokens("1; 2;;") == ["1", "2"]
  {
    SplitExampleLine();
    StrippedNonEmptyExample();
  }

  // ---------------------------------------------------------------------
  // The numeral test `part.replace('.', '', 1).isdigit()`

  predicate IsNumericToken(t: string) {
    IsDigitString(RemoveFirst(t, '.'))
  }

  predicate DigitsOrDots(t: string) {
    forall i :: 0 <= i < |t| ==> IsDigit(t[i]) || t[i] == '.'
  }

  /** The shape of a decimal numeral: digits and at most one point, and at least one digit. */
  predicate NumeralShape(t: string) {
    DigitsOrDots(t) && Count(t, '.') <= 1 && |t| > Count(t, '.')
  }

  lemma {:induction false} AllDigitsAfterRemoval(t: string)
    ensures AllDigits(RemoveFirst(t, '.')) <==> (Count(t, '.') <= 1 && DigitsOrDots(t))
  {
    if |t| > 0 {
      if t[0] == '.' {
        assert RemoveFirst(t, '.') == t[1..];
        assert Count(t, '.') == 1 + Count(t[1..], '.');
        if AllDigits(t[1..]) {
          assert DigitsOrDots(t) by {
            forall i | 0 <= i < |t| ensures IsDigit(t[i]) || t[i] == '.' {
              if i > 0 { assert t[i] == t[1..][i - 1]; }
            }
          }
        }
        if Count(t, '.') <= 1 && DigitsOrDots(t) {
          assert '.' !in t[1..];
          forall i | 0 <= i < |t[1..]| ensures IsDigit(t[1..][i]) {
            assert t[1..][i] == t[i + 1];
          }
        }
      } else {
        var r := RemoveFirst(t[1..], '.');
        assert RemoveFirst(t, '.') == [t[0]] + r;
        assert Count(t, '.') == Count(t[1..], '.');
        AllDigitsAfterRemoval(t[1..]);
        if AllDigits([t[0]] + r) {
          assert IsDigit(([t[0]] + r)[0]);
          assert AllDigits(r) by {
            forall i | 0 <= i < |r| ensures IsDigit(r[i]) { assert r[i] == ([t[0]] + r)[i + 1]; }
          }
          assert DigitsOrDots(t) by {
            forall i | 0 <= i < |t| ensures IsDigit(t[i]) || t[i] == '.' {
              if i > 0 { assert t[i] == t[1..][i - 1]; }
            }
          }
        }
        if Count(t, '.') <= 1 && DigitsOrDots(t) {
          assert IsDigit(t[0]);
          assert DigitsOrDots(t[1..]) by {
            forall i | 0 <= i < |t[1..]| ensures IsDigit(t[1..][i]) || t[1..][i] == '.' {
              assert t[1..][i] == t[i + 1];
            }
          }
          assert AllDigits([t[0]] + r) by {
            forall i | 0 <= i < |[t[0]] + r| ensures IsDigit(([t[0]] + r)[i]) {
              if i > 0 { assert ([t[0]] + r)[i] == r[i - 1]; }
            }
          }
        }
      }
    }
  }

  /**
    The numeral test accepts exactly the tokens made of digits and at most
    one `.` that hold at least one digit: no sign, no exponent.
  */
  lemma NumericTokenIff(t: string)
    ensures IsNumericToken(t) <==> NumeralShape(t)
  {
    AllDigitsAfterRemoval(t);
    RemoveFirstSpec(t, '.');
  }

  /** Plain integers and decimals with the point anywhere pass. */
  lemma NumeralsAccepted()
    ensures IsNumericToken("12") && IsNumericToken("1.5") && IsNumericToken(".5") && IsNumericToken("1.")
  {
    assert RemoveFirst("1.5", '.') == "15";
    assert RemoveFirst(".5", '.') == "5";
    assert RemoveFirst("1.", '.') == "1";
  }

  /** A sign, an exponent, a second point, a lone point and the empty token fail. */
  lemma NonNumeralsRejected()
    ensures !IsNumericToken("-1") && !IsNumericToken("1e5") && !IsNumericToken("1.2.3")
    ensures !IsNumericToken(".") && !IsNumericToken("")
  {
    assert RemoveFirst("-1", '.') == "-1" && !IsDigit("-1"[0]);
    assert RemoveFirst("1e5", '.') == "1e5" && !IsDigit("1e5"[1]);
    assert RemoveFirst("1.2.3", '.') == "12.3" && !IsDigit("12.3"[2]);
    assert RemoveFirst(".", '.') == "";
  }

  // ---------------------------------------------------------------------
  // Kept lines

  /** `all(part.replace('.', '', 1).isdigit() for part in parts)`: vacuously true of a blank line. */
  predicate LineAccepted(line: string) {
    AllNumeric(Tokens(line))
  }

  predicate AllNumeric(toks: seq<string>) {
    forall i :: 0 <= i < |toks| ==> IsNumericToken(toks[i])
  }

  /** A line with no tokens (blank, or only `;`) is kept, as an empty row. */
  lemma BlankLineAccepted(line: string)
    requires Tokens(line) == []
    ensures LineAccepted(line)
  {
  }

  /** The rows the parse loop appends, in line order. */
  function AcceptedRows(lines: seq<string>): seq<Row>
  {
    Select(lines, LineAccepted, Tokens)
  }

  /** Every kept row consists of numerals. */
  lemma AcceptedRowsNumeric(lines: seq<string>)
    ensures forall i :: 0 <= i < |AcceptedRows(lines)| ==> AllNumeric(AcceptedRows(lines)[i])
  {
    SelectSatisfies(lines, LineAccepted, Tokens, AllNumeric);
  }

  /** A line whose tokens are all numerals is kept, in its place among the kept rows. */
  lemma AcceptedRowsKeeps(lines: seq<string>, k: nat)
    requires k < |lines| && LineAccepted(lines[k])
    ensures AcceptedRows(lines) == AcceptedRows(lines[..k]) + [Tokens(lines[k])] + AcceptedRows(lines[k + 1..])
  {
    SelectKeepsPassing(lines, LineAccepted, Tokens, k);
  }

  /** Every kept row is the tokens of a line that passed the test. */
  lemma AcceptedRowsFrom(lines: seq<string>, i: nat)
    requires i < |AcceptedRows(lines)|
    ensures exists k :: 0 <= k < |lines| && LineAccepted(lines[k]) && AcceptedRows(lines)[i] == Tokens(lines[k])
  {
    SelectFrom(lines, LineAccepted, Tokens);
    var item := Select(lines, LineAccepted, Tokens)[i];
  }

  /** The parse loop keeps nothing exactly when no line passes the test. */
  lemma AcceptedRowsEmptyIff(lines: seq<string>)
    ensures AcceptedRows(lines) == [] <==> forall k :: 0 <= k < |lines| ==> !LineAccepted(lines[k])
  {
    SelectEmptyIff(lines, LineAccepted, Tokens);
  }

  /** `content.replace('\r', '').strip().split('\n')` */
  function Lines(content: string): seq<string>
  {
    Split(Strip(RemoveAll(content, '\r')), '\n')
  }

  /** There is always a line, and no line holds a line break or a carriage return. */
  lemma LinesShape(content: string)
    ensures |Lines(content)| >= 1
    ensures forall k :: 0 <= k < |Lines(content)| ==> '\n' !in Lines(content)[k] && '\r' !in Lines(content)[k]
  {
    var text := Strip(RemoveAll(content, '\r'));
    StripKeepsAbsentChar(RemoveAll(content, '\r'), '\r');
    SplitPieces(text, '\n');
    assert forall k :: 0 <= k < |Lines(content)| ==> PieceOf(Lines(content)[k], text, '\n');
  }

  // ---------------------------------------------------------------------
  // The width filter `[row for row in image_lines if len(row) == max_len]`

  /** `max(len(row) for row in rows)`, defined only where Python's `max` does not raise. */
  function MaxWidth<X>(rows: seq<seq<X>>): (m: nat)
    requires |rows| > 0
    ensures forall i :: 0 <= i < |rows| ==> |rows[i]| <= m
    ensures exists i :: 0 <= i < |rows| && |rows[i]| == m
  {
    if |rows| == 1 then |rows[0]|
    else
      var m := MaxWidth(rows[1..]);
      assert forall i :: 1 <= i < |rows| ==> rows[i] == rows[1..][i - 1];
      if |rows[0]| > m then |rows[0]| else m
  }

  /** `[row for row in rows if len(row) == w]`, in order; `KeepWidthCount` gives how often each row is kept. */
  function KeepWidth<X(==)>(rows: seq<seq<X>>, w: nat): (r: seq<seq<X>>)
    ensures forall i :: 0 <= i < |r| ==> |r[i]| == w && r[i] in rows
    ensures forall i :: 0 <= i < |rows| && |rows[i]| == w ==> rows[i] in r
    ensures IsSubsequence(r, rows)
  {
    if |rows| == 0 then []
    else
      var rest := KeepWidth(rows[1..], w);
      assert forall i :: 1 <= i < |rows| ==> rows[i] == rows[1..][i - 1];
      if |rows[0]| == w then
        assert ([rows[0]] + rest)[1..] == rest;
        [rows[0]] + rest
      else
        rest
  }

  /**
    The width filter of the parse block. It fails exactly when no row was
    kept; otherwise it returns a non-empty, order-preserving selection of the
    kept rows that holds every row of the widest width and nothing else;
    `WidthFilterCount` gives how often each row is kept.
  */
  function WidthFilter<X(==)>(rows: seq<seq<X>>): (r: Result<seq<seq<X>>>)
    ensures r.Err? <==> rows == []
    ensures r.Ok? ==> |r.value| > 0 && IsSubsequence(r.value, rows)
    ensures r.Ok? ==> forall i :: 0 <= i < |r.value| ==> |r.value[i]| == MaxWidth(rows) && r.value[i] in rows
    ensures r.Ok? ==> forall i :: 0 <= i < |rows| && |rows[i]| == MaxWidth(rows) ==> rows[i] in r.value
  {
    if |rows| == 0 then Err(NoAcceptedLine) else Ok(KeepWidth(rows, MaxWidth(rows)))
  }

  /** A row of width `w` is kept exactly as many times as it occurs; any other row not at all. */
  lemma {:induction false} KeepWidthCount<X>(rows: seq<seq<X>>, w: nat, x: seq<X>)
    ensures multiset(KeepWidth(rows, w))[x] == if |x| == w then multiset(rows)[x] else 0
  {
    if |rows| > 0 {
      KeepWidthCount(rows[1..], w, x);
      assert rows == [rows[0]] + rows[1..];
    }
  }

  /**
    The width filter keeps every row of the widest width as many times as it
    occurs, so the number of kept rows is the number of widest rows.
  */
  lemma WidthFilterCount<X>(rows: seq<seq<X>>, x: seq<X>)
    requires rows != []
    ensures multiset(WidthFilter(rows).value)[x] == if |x| == MaxWidth(rows) then multiset(rows)[x] else 0
  {
    KeepWidthCount(rows, MaxWidth(rows), x);
  }

  lemma {:induction false} KeepWidthAll<X>(rows: seq<seq<X>>, w: nat)
    requires forall i :: 0 <= i < |rows| ==> |rows[i]| == w
    ensures KeepWidth(rows, w) == rows
  {
    if |rows| > 0 {
      KeepWidthAll(rows[1..], w);
      assert rows == [rows[0]] + rows[1..];
    }
  }

  /** Filtering an already filtered result changes nothing. */
  lemma WidthFilterIdempotent<X>(rows: seq<seq<X>>)
    requires WidthFilter(rows).Ok?
    ensures WidthFilter(WidthFilter(rows).value) == WidthFilter(rows)
  {
    var r := WidthFilter(rows).value;
    var m := MaxWidth(rows);
    var k :| 0 <= k < |r| && |r[k]| == MaxWidth(r);
    assert MaxWidth(r) == m;
    KeepWidthAll(r, m);
  }

  // ---------------------------------------------------------------------
  // The whole parse block

  /** The rows the parse block of all three routes produces from a file's text. */
  function ImageRows(content: string): Result<seq<Row>>
  {
    WidthFilter(AcceptedRows(Lines(content)))
  }

  /**
    The parse block fails exactly when no line of the file passes the
    numeral test; otherwise it yields a non-empty rectangle of numerals.
  */
  lemma ImageRowsSpec(content: string)
    ensures ImageRows(content).Err? <==> forall k :: 0 <= k < |Lines(content)| ==> !LineAccepted(Lines(content)[k])
    ensures ImageRows(content).Ok? ==> |ImageRows(content).value| > 0
    ensures ImageRows(content).Ok? ==> forall i :: 0 <= i < |ImageRows(content).value| ==>
      |ImageRows(content).value[i]| == |ImageRows(content).value[0]| && AllNumeric(ImageRows(content).value[i])
  {
    var rows := AcceptedRows(Lines(content));
    AcceptedRowsEmptyIff(Lines(content));
    AcceptedRowsNumeric(Lines(content));
    if rows != [] {
      var r := WidthFilter(rows).value;
      forall i | 0 <= i < |r| ensures AllNumeric(r[i]) {
        assert r[i] in rows;
      }
    }
  }

  /**
    A file that is empty or only whitespace is not an error: it becomes one
    line with no tokens, which `all([])` keeps, so the result is one empty row.
  */
  lemma BlankFileIsOneEmptyRow(content: string)
    requires Strip(RemoveAll(content, '\r')) == ""
    ensures ImageRows(content) == Ok([[]])
  {
    assert Split("", '\n') == [""];
    assert Lines(content) == [""];
    assert Strip("") == "";
    assert Split("", ';') == [""];
    assert Tokens("") == [];
    assert [""][..0] == [];
    assert AcceptedRows([""]) == [[]];
    var one: seq<Row> := [[]];
    assert MaxWidth(one) == 0;
    assert one[1..] == [];
    assert KeepWidth(one, 0) == one;
  }

  /** The loop of the three routes: append the tokens of every kept line, in order. */
  method KeepNumericLines(lines: seq<string>) returns (imageLines: seq<Row>)
    ensures imageLines == AcceptedRows(lines)
  {
    imageLines := [];
    var i := 0;
    while i < |lines|
      invariant 0 <= i <= |lines|
      invariant imageLines == AcceptedRows(lines[..i])
    {
      var parts := Tokens(lines[i]);
      assert lines[..i + 1][..i] == lines[..i];
      assert AcceptedRows(lines[..i + 1]) == AcceptedRows(lines[..i]) + (if LineAccepted(lines[i]) then [parts] else []);
      if AllNumeric(parts) {
        imageLines := imageLines + [parts];
      }
      i := i + 1;
    }
    assert lines[..|lines|] == lines;
  }

  /** The parse block of the three routes: the loop over the lines, then the width filter. */
  method ReadImageLines(content: string) returns (r: Result<seq<Row>>)
    ensures r == ImageRows(content)
  {
    var lines := Lines(content);
    var imageLines := KeepNumericLines(lines);
    if |imageLines| == 0 {
      return Err(NoAcceptedLine);
    }
    var maxLen := MaxWidth(imageLines);
    r := Ok(KeepWidth(imageLines, maxLen));
  }

  // ---------------------------------------------------------------------
  // float(p): the value a kept token denotes

  /** Value of a string of decimal digits. */
  function DigitsValue(s: string): nat
    requires AllDigits(s)
  {
    if |s| == 0 then 0 else 10 * DigitsValue(s[..|s| - 1]) + (s[|s| - 1] as int - '0' as int)
  }

  function Pow10(k: nat): (p: nat)
    ensures p >= 1
  {
    if k == 0 then 1 else 10 * Pow10(k - 1)
  }

  /**
    The exact decimal value `float(t)` rounds: the digits with the point
    removed, scaled down by one power of ten per digit after the point.
  */
  function DecimalValue(t: string): (v: real)
    requires IsNumericToken(t)
    ensures v >= 0.0
  {
    var digits := RemoveFirst(t, '.');
    RemoveFirstSpec(t, '.');
    DigitsValue(digits) as real / Pow10(|digits| - IndexOf(t, '.')) as real
  }

  /** A token without a point denotes the integer its digits spell. */
  lemma DecimalValueInteger(t: string)
    requires IsDigitString(t)
    ensures IsNumericToken(t) && DecimalValue(t) == DigitsValue(t) as real
  {
    assert '.' !in t by {
      forall i | 0 <= i < |t| ensures t[i] != '.' { assert IsDigit(t[i]); }
    }
    RemoveFirstSpec(t, '.');
  }

  lemma DecimalValueExample1()
    ensures IsNumericToken("1.5") && DecimalValue("1.5") == 1.5
  {
    NumeralsAccepted();
    assert RemoveFirst("1.5", '.') == "15";
    assert DigitsValue("15") == 15 by { assert "15"[..1] == "1"; }
    assert IndexOf("1.5", '.') == 1;
  }

  lemma DecimalValueExample2()
    ensures IsNumericToken(".5") && DecimalValue(".5") == 0.5
  {
    NumeralsAccepted();
    assert RemoveFirst(".5", '.') == "5";
    assert DigitsValue("5") == 5;
  }

  lemma DecimalValueExample3()
    ensures IsNumericToken("1.") && DecimalValue("1.") == 1.0
  {
    NumeralsAccepted();
    assert RemoveFirst("1.", '.') == "1";
    assert DigitsValue("1") == 1;
    assert IndexOf("1.", '.') == 1;
  }

  /** `[float(p) for p in parts]`, taken exactly: no value is negative. */
  function DecimalRow(row: Row): (vals: seq<real>)
    requires AllNumeric(row)
    ensures forall j :: 0 <= j < |vals| ==> vals[j] >= 0.0
  {
    seq(|row|, j requires 0 <= j < |row| => DecimalValue(row[j]))
  }

  /** Every row converted: no cell of the frame is negative. */
  function DecimalRows(rows: seq<Row>): (vals: seq<seq<real>>)
    requires forall i :: 0 <= i < |rows| ==> AllNumeric(rows[i])
    ensures forall i, j :: 0 <= i < |vals| && 0 <= j < |vals[i]| ==> vals[i][j] >= 0.0
  {
    seq(|rows|, i requires 0 <= i < |rows| => DecimalRow(rows[i]))
  }

  /** Conversion keeps the number of rows and each row's length. */
  lemma DecimalRowsShape(rows: seq<Row>)
    requires forall i :: 0 <= i < |rows| ==> AllNumeric(rows[i])
    ensures |DecimalRows(rows)| == |rows|
    ensures forall i :: 0 <= i < |rows| ==> |DecimalRows(rows)[i]| == |rows[i]|
  {
  }

  /**
    The numeric frame of `preview` and `view_image_data`. They convert each
    token with `float` before the width filter; `DecimalFrameConvertFirst`
    shows that converting after the filter gives the same frame.
  */
  function DecimalFrame(content: string): (r: Result<seq<seq<real>>>)
    ensures r.Err? <==> ImageRows(content).Err?
    ensures r.Ok? ==> |r.value| > 0 && forall i :: 0 <= i < |r.value| ==> |r.value[i]| == |r.value[0]|
    ensures r.Ok? ==> forall i, j :: 0 <= i < |r.value| && 0 <= j < |r.value[i]| ==> r.value[i][j] >= 0.0
  {
    var parsed := ImageRows(content);
    ImageRowsSpec(content);
    if parsed.Err? then Err(parsed.error)
    else
      DecimalRowsShape(parsed.value);
      Ok(DecimalRows(parsed.value))
  }

  /**
    The frame has one row per parsed row, each of the same length, and every
    cell is the value of the token in its place.
  */
  lemma DecimalFrameRows(content: string)
    requires ImageRows(content).Ok?
    ensures |DecimalFrame(content).value| == |ImageRows(content).value|
    ensures forall i :: 0 <= i < |ImageRows(content).value| ==> |DecimalFrame(content).value[i]| == |ImageRows(content).value[i]|
    ensures forall i, j :: 0 <= i < |ImageRows(content).value| && 0 <= j < |ImageRows(content).value[i]| ==>
      IsNumericToken(ImageRows(content).value[i][j]) && DecimalFrame(content).value[i][j] == DecimalValue(ImageRows(content).value[i][j])
  {
    ImageRowsSpec(content);
    DecimalRowsShape(ImageRows(content).value);
  }

  /** `[float(p) for p in parts]` on a row of numerals; the routes never convert any other row. */
  function ConvertRow(row: Row): seq<real>
  {
    if AllNumeric(row) then DecimalRow(row) else []
  }

  /** The row `preview` appends for a kept line. */
  function FloatTokens(line: string): seq<real>
  {
    ConvertRow(Tokens(line))
  }

  /** `[f(row) for row in rows]` */
  function MapRows<X, Y>(rows: seq<seq<X>>, f: seq<X> -> seq<Y>): seq<seq<Y>>
  {
    seq(|rows|, i requires 0 <= i < |rows| => f(rows[i]))
  }

  /** On rows of numerals, converting each row is `DecimalRows`. */
  lemma DecimalRowsAsMap(rows: seq<Row>)
    requires forall i :: 0 <= i < |rows| ==> AllNumeric(rows[i])
    ensures DecimalRows(rows) == MapRows(rows, ConvertRow)
  {
    forall i | 0 <= i < |rows| ensures DecimalRows(rows)[i] == MapRows(rows, ConvertRow)[i] {
      assert ConvertRow(rows[i]) == DecimalRow(rows[i]);
    }
  }

  /** Converting two runs of rows one after the other. */
  lemma MapRowsAppend<X, Y>(a: seq<seq<X>>, b: seq<seq<X>>, f: seq<X> -> seq<Y>)
    ensures MapRows(a + b, f) == MapRows(a, f) + MapRows(b, f)
  {
  }

  /** Converting inside the parse loop gives the converted kept rows. */
  lemma {:induction false} SelectFloat(lines: seq<string>)
    ensures Select(lines, LineAccepted, FloatTokens) == MapRows(AcceptedRows(lines), ConvertRow)
  {
    if |lines| > 0 {
      var front := lines[..|lines| - 1];
      var last := lines[|lines| - 1];
      SelectFloat(front);
      var t: seq<Row> := if LineAccepted(last) then [Tokens(last)] else [];
      assert AcceptedRows(lines) == AcceptedRows(front) + t;
      MapRowsAppend(AcceptedRows(front), t, ConvertRow);
    }
  }

  /** Rows of numerals stay rows of numerals when some are dropped by width. */
  lemma {:induction false} KeepWidthNumeric(rows: seq<Row>, w: nat)
    requires forall i :: 0 <= i < |rows| ==> AllNumeric(rows[i])
    ensures forall i :: 0 <= i < |KeepWidth(rows, w)| ==> AllNumeric(KeepWidth(rows, w)[i])
  {
    if |rows| > 0 {
      KeepWidthNumeric(rows[1..], w);
    }
  }

  /** Converting rows one at a time, from the front. */
  lemma MapRowsCons<X, Y>(x: seq<X>, rest: seq<seq<X>>, f: seq<X> -> seq<Y>)
    ensures MapRows([x] + rest, f) == [f(x)] + MapRows(rest, f)
  {
  }

  /** The width filter decides about the first row and goes on with the rest. */
  lemma KeepWidthCons<X>(x: seq<X>, rest: seq<seq<X>>, w: nat)
    ensures KeepWidth([x] + rest, w) == if |x| == w then [x] + KeepWidth(rest, w) else KeepWidth(rest, w)
  {
    assert ([x] + rest)[1..] == rest;
  }

  /** A length-preserving conversion of the rows commutes with keeping the rows of one width. */
  lemma {:induction false} KeepWidthMap<X, Y>(rows: seq<seq<X>>, f: seq<X> -> seq<Y>, w: nat)
    requires forall i :: 0 <= i < |rows| ==> |f(rows[i])| == |rows[i]|
    ensures KeepWidth(MapRows(rows, f), w) == MapRows(KeepWidth(rows, w), f)
  {
    if |rows| > 0 {
      var x, rest := rows[0], rows[1..];
      assert rows == [x] + rest;
      assert forall i :: 0 <= i < |rest| ==> rest[i] == rows[i + 1];
      KeepWidthMap(rest, f, w);
      MapRowsCons(x, rest, f);
      KeepWidthCons(f(x), MapRows(rest, f), w);
      KeepWidthCons(x, rest, w);
      MapRowsCons(x, KeepWidth(rest, w), f);
    }
  }

  /** A length-preserving conversion keeps the widest width. */
  lemma MaxWidthMap<X, Y>(rows: seq<seq<X>>, f: seq<X> -> seq<Y>)
    requires |rows| > 0 && forall i :: 0 <= i < |rows| ==> |f(rows[i])| == |rows[i]|
    ensures MaxWidth(MapRows(rows, f)) == MaxWidth(rows)
  {
    var m := MapRows(rows, f);
    var i :| 0 <= i < |rows| && |rows[i]| == MaxWidth(rows);
    var j :| 0 <= j < |m| && |m[j]| == MaxWidth(m);
    assert |m[i]| <= MaxWidth(m);
    assert |rows[j]| <= MaxWidth(rows);
  }

  /**
    `preview` and `view_image_data` convert every kept line with `float` and
    then filter the converted rows by width: that is the frame `DecimalFrame`
    gives by filtering first.
  */
  lemma DecimalFrameConvertFirst(content: string)
    ensures DecimalFrame(content) == WidthFilter(Select(Lines(content), LineAccepted, FloatTokens))
  {
    var rows := AcceptedRows(Lines(content));
    SelectFloat(Lines(content));
    AcceptedRowsNumeric(Lines(content));
    if rows != [] {
      var w := MaxWidth(rows);
      assert forall i :: 0 <= i < |rows| ==> |ConvertRow(rows[i])| == |rows[i]|;
      MaxWidthMap(rows, ConvertRow);
      KeepWidthMap(rows, ConvertRow, w);
      KeepWidthNumeric(rows, w);
      DecimalRowsAsMap(KeepWidth(rows, w));
    }
  }
}
