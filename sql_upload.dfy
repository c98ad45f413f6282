/**
  The `update` route of the CSV uploader: the rows kept by the image-line
  parser are written to a PostgreSQL table named after the uploaded file,
  one INSERT statement per row, each value a single-quoted SQL literal.
*/
module SqlUpload {
  import opened PyText
  import opened ImageParser

  const Quote: char := '\''

  // ---------------------------------------------------------------------
  // Escaping: str(v).replace("'", "''")

  /** Every single quote doubled. */
  function Escape(s: string): string
  {
    if |s| == 0 then ""
    else (if s[0] == Quote then [Quote, Quote] else [s[0]]) + Escape(s[1..])
  }

  /** Python's `t.replace("''", "'")`: scanning left to right, each pair of quotes becomes one. */
  function Unescape(t: string): string
  {
    if |t| == 0 then ""
    else if |t| >= 2 && t[0] == Quote && t[1] == Quote then [Quote] + Unescape(t[2..])
    else [t[0]] + Unescape(t[1..])
  }

  /** Read left to right, every quote is the first of an adjacent pair. */
  predicate NoLoneQuote(t: string)
  {
    if |t| == 0 then true
    else if t[0] == Quote then |t| >= 2 && t[1] == Quote && NoLoneQuote(t[2..])
    else NoLoneQuote(t[1..])
  }

  lemma {:induction false} UnescapeEscape(s: string)
    ensures Unescape(Escape(s)) == s
  {
    if |s| > 0 {
      UnescapeEscape(s[1..]);
      var t := Escape(s);
      if s[0] == Quote {
        assert t == [Quote, Quote] + Escape(s[1..]);
        assert t[2..] == Escape(s[1..]);
      } else {
        assert t == [s[0]] + Escape(s[1..]);
        assert t[1..] == Escape(s[1..]);
      }
      assert s == [s[0]] + s[1..];
    }
  }

  lemma {:induction false} EscapeNoLoneQuote(s: string)
    ensures NoLoneQuote(Escape(s))
  {
    if |s| > 0 {
      EscapeNoLoneQuote(s[1..]);
      var t := Escape(s);
      if s[0] == Quote {
        assert t == [Quote, Quote] + Escape(s[1..]);
        assert t[2..] == Escape(s[1..]);
      } else {
        assert t == [s[0]] + Escape(s[1..]);
        assert t[1..] == Escape(s[1..]);
      }
    }
  }

  /** On a text without lone quotes, unescaping then escaping gives the text back. */
  lemma {:induction false} EscapeUnescape(t: string)
    requires NoLoneQuote(t)
    ensures Escape(Unescape(t)) == t
  {
    if |t| > 0 {
      if t[0] == Quote {
        EscapeUnescape(t[2..]);
        var u := Unescape(t);
        assert u == [Quote] + Unescape(t[2..]);
        assert u[1..] == Unescape(t[2..]);
        assert t == [Quote, Quote] + t[2..];
      } else {
        EscapeUnescape(t[1..]);
        var u := Unescape(t);
        assert u == [t[0]] + Unescape(t[1..]);
        assert u[1..] == Unescape(t[1..]);
        assert t == [t[0]] + t[1..];
      }
    }
  }

  /** A value without quotes is written as it is. */
  lemma {:induction false} EscapeNoQuote(s: string)
    requires Quote !in s
    ensures Escape(s) == s
  {
    if |s| > 0 {
      assert Quote !in s[1..];
      EscapeNoQuote(s[1..]);
      assert s == [s[0]] + s[1..];
    }
  }

  /** Tokens the parser accepts are numerals, so escaping leaves them unchanged. */
  lemma NumericTokenEscape(t: string)
    requires IsNumericToken(t)
    ensures Escape(t) == t
  {
    NumericTokenIff(t);
    EscapeNoQuote(t);
  }

  // ---------------------------------------------------------------------
  // The value list: "', '".join(...) between one pair of quotes

  function EscapeAll(row: Row): (r: seq<string>)
    ensures |r| == |row|
    ensures forall i :: 0 <= i < |row| ==> r[i] == Escape(row[i])
  {
    if |row| == 0 then [] else [Escape(row[0])] + EscapeAll(row[1..])
  }

  /** The escaped values joined by `', '`. */
  function ValuesList(row: Row): string
  {
    JoinWith(EscapeAll(row), "', '")
  }

  /** The text between the parentheses of `VALUES (...)`. */
  function ValuesTuple(row: Row): string
  {
    "'" + ValuesList(row) + "'"
  }

  function InsertStatement(table: string, row: Row): string
  {
    "INSERT INTO \"" + table + "\" VALUES (" + ValuesTuple(row) + ");"
  }

  // ---------------------------------------------------------------------
  // How a SQL reader reads the value list back

  /**
   * Reads the body of a string literal whose opening quote has been
   * consumed: `''` stands for one quote and a lone quote ends the literal.
   * Gives the value and the text after the closing quote, or None when
   * the literal is never closed.
   */
  function ReadLiteral(t: string): (r: Option<(string, string)>)
    ensures r.Some? ==> |r.value.1| < |t|
  {
    if |t| == 0 then None
    else if t[0] == Quote then
      if |t| >= 2 && t[1] == Quote then
        match ReadLiteral(t[2..])
        case None => None
        case Some(p) => Some(([Quote] + p.0, p.1))
      else Some(("", t[1..]))
    else
      match ReadLiteral(t[1..])
      case None => None
      case Some(p) => Some(([t[0]] + p.0, p.1))
  }

  /** Reads `'v1', 'v2', ..., 'vn'` into the list of values. */
  function ReadValues(t: string): Option<seq<string>>
    decreases |t|
  {
    if |t| == 0 || t[0] != Quote then None
    else
      match ReadLiteral(t[1..])
      case None => None
      case Some(p) =>
        if p.1 == "" then Some([p.0])
        else if |p.1| >= 2 && p.1[..2] == ", " then
          match ReadValues(p.1[2..])
          case None => None
          case Some(vs) => Some([p.0] + vs)
        else None
  }

  /** An escaped value followed by a closing quote reads back as the value. */
  lemma {:induction false} ReadLiteralEscape(s: string, rest: string)
    requires rest == "" || rest[0] != Quote
    ensures ReadLiteral(Escape(s) + [Quote] + rest) == Some((s, rest))
  {
    var t := Escape(s) + [Quote] + rest;
    if |s| == 0 {
      assert t == [Quote] + rest;
      assert t[1..] == rest;
    } else {
      ReadLiteralEscape(s[1..], rest);
      if s[0] == Quote {
        assert t == [Quote, Quote] + (Escape(s[1..]) + [Quote] + rest);
        assert t[2..] == Escape(s[1..]) + [Quote] + rest;
      } else {
        assert t == [s[0]] + (Escape(s[1..]) + [Quote] + rest);
        assert t[1..] == Escape(s[1..]) + [Quote] + rest;
      }
      assert s == [s[0]] + s[1..];
    }
  }

  lemma TupleCons(row: Row)
    requires |row| >= 2
    ensures ValuesTuple(row) == [Quote] + (Escape(row[0]) + [Quote] + (", " + ValuesTuple(row[1..])))
  {
    assert EscapeAll(row)[1..] == EscapeAll(row[1..]);
    assert ValuesList(row) == Escape(row[0]) + "', '" + ValuesList(row[1..]);
  }

  /** After the first literal and its `, `, reading goes on with the rest of the list. */
  lemma ReadValuesCons(s: string, tail: string)
    ensures ReadValues([Quote] + (Escape(s) + [Quote] + (", " + tail)))
      == (match ReadValues(tail) case None => None case Some(vs) => Some([s] + vs))
  {
    var rest := ", " + tail;
    var t := [Quote] + (Escape(s) + [Quote] + rest);
    assert t[1..] == Escape(s) + [Quote] + rest;
    ReadLiteralEscape(s, rest);
    assert rest[..2] == ", " && rest[2..] == tail;
  }

  /** The value list of a row with at least one value reads back as the row. */
  lemma {:induction false} ReadValuesTuple(row: Row)
    requires |row| >= 1
    ensures ReadValues(ValuesTuple(row)) == Some(row)
  {
    var t := ValuesTuple(row);
    if |row| == 1 {
      assert EscapeAll(row) == [Escape(row[0])];
      assert ValuesList(row) == Escape(row[0]);
      assert t == [Quote] + (Escape(row[0]) + [Quote] + "");
      assert t[1..] == Escape(row[0]) + [Quote] + "";
      ReadLiteralEscape(row[0], "");
      assert ReadLiteral(t[1..]) == Some((row[0], ""));
      assert row == [row[0]];
    } else {
      ReadValuesTuple(row[1..]);
      TupleCons(row);
      ReadValuesCons(row[0], ValuesTuple(row[1..]));
      assert row == [row[0]] + row[1..];
    }
  }

  /** A row with no values still writes one (empty) literal. */
  lemma EmptyRowTuple(row: Row)
    requires row == []
    ensures ValuesTuple(row) == "''"
    ensures ReadValues(ValuesTuple(row)) == Some([""])
  {
    assert ValuesTuple(row) == [Quote] + ("" + [Quote] + "");
    ReadLiteralEscape("", "");
  }

  /** The statement is the fixed INSERT text around a value list that reads back as the row. */
  lemma InsertStatementValues(table: string, row: Row)
    requires |row| >= 1
    ensures exists tuple ::
      InsertStatement(table, row) == "INSERT INTO \"" + table + "\" VALUES (" + tuple + ");" && ReadValues(tuple) == Some(row)
  {
    ReadValuesTuple(row);
    assert ReadValues(ValuesTuple(row)) == Some(row);
  }

  // ---------------------------------------------------------------------
  // Table name: os.path.splitext(secure_filename(f))[0].lower().replace(" ", "_")

  /** The last index below `n` holding `c`, or -1. */
  function LastBelow(s: string, c: char, n: nat): (i: int)
    requires n <= |s|
    ensures -1 <= i < n
  {
    if n == 0 then -1
    else if s[n - 1] == c then n - 1
    else LastBelow(s, c, n - 1)
  }

  /** Python's `s.rfind(c)`: the last index of `c`, or -1. */
  function RFind(s: string, c: char): (i: int)
    ensures -1 <= i < |s|
  {
    LastBelow(s, c, |s|)
  }

  lemma {:induction false} LastBelowSpec(s: string, c: char, n: nat)
    requires n <= |s|
    ensures LastBelow(s, c, n) >= 0 ==> s[LastBelow(s, c, n)] == c
    ensures forall j :: LastBelow(s, c, n) < j < n ==> s[j] != c
  {
    if n > 0 && s[n - 1] != c {
      LastBelowSpec(s, c, n - 1);
    }
  }

  /** `rfind` finds `c` at its result and nowhere after. */
  lemma RFindSpec(s: string, c: char)
    ensures RFind(s, c) >= 0 ==> s[RFind(s, c)] == c
    ensures forall j :: RFind(s, c) < j < |s| ==> s[j] != c
    ensures RFind(s, c) == -1 <==> c !in s
  {
    LastBelowSpec(s, c, |s|);
  }

  /** Some index in `lo..hi` holds a character other than `.`. */
  predicate NonDotBetween(p: string, lo: int, hi: int)
    requires 0 <= lo && hi <= |p|
  {
    exists k :: lo <= k < hi && p[k] != '.'
  }

  /**
   * Where `posixpath.splitext` cuts: at the last `.` when it comes after
   * the last `/` and the last component has something other than dots
   * before it; otherwise at the end.
   */
  function ExtStart(p: string): (k: nat)
    ensures k <= |p|
  {
    var sep := RFind(p, '/');
    var dot := RFind(p, '.');
    if dot > sep && NonDotBetween(p, sep + 1, dot) then dot else |p|
  }

  function SplitExt(p: string): (string, string)
  {
    var k := ExtStart(p);
    (p[..k], p[k..])
  }

  /** Root and extension together are the path; the extension is empty or one `.` and no further `.` or `/`. */
  lemma SplitExtSpec(p: string)
    ensures SplitExt(p).0 + SplitExt(p).1 == p
    ensures SplitExt(p).1 == "" || (SplitExt(p).1[0] == '.' && '.' !in SplitExt(p).1[1..] && '/' !in SplitExt(p).1)
    ensures '.' !in p ==> SplitExt(p) == (p, "")
  {
    var k := ExtStart(p);
    assert p[..k] + p[k..] == p;
    RFindSpec(p, '/');
    RFindSpec(p, '.');
    if '.' !in p {
      assert k == |p|;
      assert p[..k] == p && p[k..] == "";
    }
    if k < |p| {
      var e := p[k..];
      assert forall j :: 0 <= j < |e| ==> e[j] == p[k + j];
      assert forall j :: 1 <= j < |e| ==> e[j] != '.';
      assert forall j :: 0 <= j < |e| ==> e[j] != '/';
    }
  }

  /**
   * The last `/`-component of `p` has a `.` with some other character
   * before it in that component: `scan.csv`, `a/b.c.txt`, but not `.csv`,
   * `..csv` or `dir.d/file`.
   */
  predicate HasExtension(p: string)
  {
    exists k, i :: 0 <= k < i < |p| && p[k] != '.' && p[i] == '.' && '/' !in p[k..]
  }

  /**
   * `splitext` cuts off an extension exactly when the last component has a
   * `.` after some other character, and then it cuts at the last `.`.
   */
  lemma SplitExtCuts(p: string)
    ensures SplitExt(p).1 != "" <==> HasExtension(p)
    ensures SplitExt(p).1 != "" ==> |SplitExt(p).0| == RFind(p, '.')
  {
    var sep := RFind(p, '/');
    var dot := RFind(p, '.');
    RFindSpec(p, '/');
    RFindSpec(p, '.');
    if HasExtension(p) {
      var k, i :| 0 <= k < i < |p| && p[k] != '.' && p[i] == '.' && '/' !in p[k..];
      assert forall j :: k <= j < |p| ==> p[j] != '/' by {
        forall j | k <= j < |p| ensures p[j] != '/' {
          assert p[j] == p[k..][j - k];
        }
      }
      assert sep < k && i <= dot;
      assert NonDotBetween(p, sep + 1, dot);
    }
    if ExtStart(p) < |p| {
      var k :| sep + 1 <= k < dot && p[k] != '.';
      assert forall j :: 0 <= j < |p[k..]| ==> p[k..][j] == p[k + j];
      assert '/' !in p[k..];
      assert p[dot] == '.';
    }
  }

  /**
   * A name whose last component has dots only at its front, such as the
   * hidden file `.csv` or `..csv`, has no extension.
   */
  lemma SplitExtHidden(p: string)
    requires forall k, i :: 0 <= k < i < |p| && p[i] == '.' && '/' !in p[k..] ==> p[k] == '.'
    ensures SplitExt(p) == (p, "")
  {
    SplitExtCuts(p);
    SplitExtSpec(p);
    assert SplitExt(p).0 + "" == SplitExt(p).0;
  }

  /** The extension of an upload with a name like `scan.csv`. */
  lemma SplitExtExample(p: string)
    requires p == "scan.csv"
    ensures SplitExt(p) == ("scan", ".csv")
  {
    RFindSpec(p, '/');
    assert '/' !in p;
    assert p[4] == '.' && p[5] != '.' && p[6] != '.' && p[7] != '.';
    assert LastBelow(p, '.', 5) == 4;
    assert LastBelow(p, '.', 6) == 4;
    assert LastBelow(p, '.', 7) == 4;
    assert LastBelow(p, '.', 8) == 4;
    assert RFind(p, '/') == -1 && RFind(p, '.') == 4;
    assert p[0] != '.';
    assert NonDotBetween(p, 0, 4);
    assert ExtStart(p) == 4;
    assert p[..4] == "scan" && p[4..] == ".csv";
  }

  /** The hidden file `.csv` has no extension. */
  lemma SplitExtDotfile(p: string)
    requires p == ".csv"
    ensures SplitExt(p) == (p, "")
  {
    RFindSpec(p, '/');
    assert '/' !in p;
    assert p[0] == '.' && p[1] != '.' && p[2] != '.' && p[3] != '.';
    assert LastBelow(p, '.', 1) == 0;
    assert LastBelow(p, '.', 2) == 0;
    assert LastBelow(p, '.', 3) == 0;
    assert LastBelow(p, '.', 4) == 0;
    assert RFind(p, '/') == -1 && RFind(p, '.') == 0;
    assert ExtStart(p) == |p|;
    assert p[..|p|] == p && p[|p|..] == "";
  }

  function TableName(secured: string): string
  {
    ReplaceChar(LowerAscii(SplitExt(secured).0), ' ', '_')
  }

  /** The table name is the root, character by character lowered and with spaces turned to `_`. */
  lemma TableNameSpec(secured: string)
    ensures |TableName(secured)| == |SplitExt(secured).0|
    ensures ' ' !in TableName(secured)
    ensures forall i :: 0 <= i < |TableName(secured)| ==> !IsUpperAscii(TableName(secured)[i])
    ensures forall i :: 0 <= i < |TableName(secured)| ==>
      TableName(secured)[i] == (if SplitExt(secured).0[i] == ' ' then '_' else LowerChar(SplitExt(secured).0[i]))
  {
    var root := SplitExt(secured).0;
    var low := LowerAscii(root);
    var r := TableName(secured);
    forall i | 0 <= i < |r|
      ensures r[i] != ' ' && !IsUpperAscii(r[i])
      ensures r[i] == (if root[i] == ' ' then '_' else LowerChar(root[i]))
    {
      assert low[i] == LowerChar(root[i]);
    }
  }

  // ---------------------------------------------------------------------
  // The route

  /**
   * One INSERT per row, in row order.
   */
  method BuildInserts(table: string, rows: seq<Row>) returns (stmts: seq<string>)
    ensures |stmts| == |rows|
    ensures forall i :: 0 <= i < |rows| ==> stmts[i] == InsertStatement(table, rows[i])
  {
    stmts := [];
    var i := 0;
    while i < |rows|
      invariant 0 <= i <= |rows|
      invariant |stmts| == i
      invariant forall k :: 0 <= k < i ==> stmts[k] == InsertStatement(table, rows[k])
    {
      var values := ValuesList(rows[i]);
      stmts := stmts + ["INSERT INTO \"" + table + "\" VALUES ('" + values + "');"];
      i := i + 1;
    }
  }

  /**
   * What `update` does: the table it writes, its column count, the
   * statements it runs and its message (the page is answered with 200),
   * or the error the route answers with 500.
   */
  datatype Upload =
    | Uploaded(table: string, columns: nat, inserts: seq<string>, message: string)
    | UploadError

  /**
   * The `update` route over the file's content; `secure` stands for
   * werkzeug's `secure_filename`.
   */
  method Update(filename: string, content: string, secure: string -> string) returns (u: Upload)
    ensures u.UploadError? <==> ImageRows(content).Err?
    ensures u.Uploaded? ==>
      && u.table == TableName(secure(filename))
      && u.message == "'" + filename + "' uploaded to database successfully!"
      && |u.inserts| == |ImageRows(content).value|
      && (forall i :: 0 <= i < |u.inserts| ==>
            && u.inserts[i] == InsertStatement(u.table, ImageRows(content).value[i])
            && |ImageRows(content).value[i]| == u.columns)
  {
    var parsed := ReadImageLines(content);
    if parsed.Err? {
      return UploadError;
    }
    ImageRowsSpec(content);
    var rows := parsed.value;
    var table := TableName(secure(filename));
    var columns := |rows[0]|;
    var inserts := BuildInserts(table, rows);
    u := Uploaded(table, columns, inserts, "'" + filename + "' uploaded to database successfully!");
  }

  /** Every statement of a successful upload carries a value list that reads back as its row, unchanged by escaping. */
  lemma UploadedRowsReadBack(content: string, table: string, i: int)
    requires ImageRows(content).Ok?
    requires 0 <= i < |ImageRows(content).value|
    requires |ImageRows(content).value[i]| >= 1
    ensures ReadValues(ValuesTuple(ImageRows(content).value[i])) == Some(ImageRows(content).value[i])
    ensures ValuesList(ImageRows(content).value[i]) == JoinWith(ImageRows(content).value[i], "', '")
  {
    ImageRowsSpec(content);
    var row := ImageRows(content).value[i];
    ReadValuesTuple(row);
    forall k | 0 <= k < |row| ensures EscapeAll(row)[k] == row[k] {
      NumericTokenEscape(row[k]);
    }
    assert EscapeAll(row) == row;
  }
}
