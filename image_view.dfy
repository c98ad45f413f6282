/**
  The coloured table of the `view_image_data` route: the parsed frame is
  normalised to its own minimum and maximum, every odd row is shown
  right-to-left (a boustrophedon order), and each cell becomes a `<td>`
  whose background is the `#rrggbb` form of its colour.
*/
module ImageView {
  import opened PyText
  import opened ImageParser

  // ---------------------------------------------------------------------
  // row[::-1] and the boustrophedon order

  /** Python's `row[::-1]`. */
  function Reverse<X>(s: seq<X>): seq<X>
  {
    if |s| == 0 then [] else Reverse(s[1..]) + [s[0]]
  }

  /** Reversal keeps the length and mirrors every position. */
  lemma {:induction false} ReverseAt<X>(s: seq<X>)
    ensures |Reverse(s)| == |s|
    ensures forall k :: 0 <= k < |s| ==> Reverse(s)[k] == s[|s| - 1 - k]
  {
    if |s| > 0 {
      ReverseAt(s[1..]);
    }
  }

  /** Reversing twice gives back the row. */
  lemma ReverseReverse<X>(s: seq<X>)
    ensures Reverse(Reverse(s)) == s
  {
    ReverseAt(s);
    ReverseAt(Reverse(s));
  }

  /** Row `i` in colouring order: as it is when `i` is even, reversed when odd. */
  function Oriented<X>(row: seq<X>, i: nat): seq<X>
  {
    if i % 2 == 0 then row else Reverse(row)
  }

  /** The colouring order: rows at even positions as they are, rows at odd positions reversed. */
  function Boustrophedon<X>(rows: seq<seq<X>>): seq<seq<X>>
  {
    seq(|rows|, i requires 0 <= i < |rows| => Oriented(rows[i], i))
  }

  /**
    The order keeps the number of rows and each row's length; cell `j` of an
    even row is the original cell `j`, of an odd row the mirrored cell.
  */
  lemma BoustrophedonAt<X>(rows: seq<seq<X>>)
    ensures |Boustrophedon(rows)| == |rows|
    ensures forall i :: 0 <= i < |rows| ==> |Boustrophedon(rows)[i]| == |rows[i]|
    ensures forall i, j :: 0 <= i < |rows| && 0 <= j < |rows[i]| ==>
      Boustrophedon(rows)[i][j] == rows[i][if i % 2 == 0 then j else |rows[i]| - 1 - j]
  {
    forall i | 0 <= i < |rows| {
      ReverseAt(rows[i]);
    }
  }

  /** Applying the order twice gives back the frame. */
  lemma BoustrophedonInvolution<X>(rows: seq<seq<X>>)
    ensures Boustrophedon(Boustrophedon(rows)) == rows
  {
    forall i | 0 <= i < |rows| ensures Boustrophedon(Boustrophedon(rows))[i] == rows[i] {
      if i % 2 == 1 {
        ReverseReverse(rows[i]);
      }
    }
  }

  // ---------------------------------------------------------------------
  // df.values.min() and df.values.max()

  /** All cells of the frame, row after row. */
  function Cells(rows: seq<seq<real>>): (cs: seq<real>)
    ensures forall i, j :: 0 <= i < |rows| && 0 <= j < |rows[i]| ==> rows[i][j] in cs
    ensures forall x :: x in cs ==> exists i, j :: 0 <= i < |rows| && 0 <= j < |rows[i]| && rows[i][j] == x
  {
    if |rows| == 0 then []
    else
      var rest := Cells(rows[1..]);
      assert forall i :: 1 <= i < |rows| ==> rows[i] == rows[1..][i - 1];
      rows[0] + rest
  }

  /** The frame minimum: a cell that no cell is below. */
  function MinOf(s: seq<real>): (m: real)
    requires |s| > 0
    ensures m in s && forall k :: 0 <= k < |s| ==> m <= s[k]
  {
    if |s| == 1 then s[0]
    else
      var m := MinOf(s[1..]);
      assert forall k :: 1 <= k < |s| ==> s[k] == s[1..][k - 1];
      if s[0] <= m then s[0] else m
  }

  /** The frame maximum: a cell that no cell is above. */
  function MaxOf(s: seq<real>): (m: real)
    requires |s| > 0
    ensures m in s && forall k :: 0 <= k < |s| ==> s[k] <= m
  {
    if |s| == 1 then s[0]
    else
      var m := MaxOf(s[1..]);
      assert forall k :: 1 <= k < |s| ==> s[k] == s[1..][k - 1];
      if s[0] >= m then s[0] else m
  }

  // ---------------------------------------------------------------------
  // '#%02x%02x%02x'

  /** The channels `tuple(int(255 * c) for c in color[:3])`. */
  datatype Rgb = Rgb(red: nat, green: nat, blue: nat)

  predicate IsHexDigit(c: char) {
    ('0' <= c <= '9') || ('a' <= c <= 'f')
  }

  function HexDigit(d: nat): (c: char)
    requires d < 16
    ensures IsHexDigit(c)
  {
    if d < 10 then ('0' as int + d) as char else ('a' as int + d - 10) as char
  }

  function HexDigitValue(c: char): (d: nat)
    requires IsHexDigit(c)
    ensures d < 16
  {
    if c <= '9' then c as int - '0' as int else c as int - 'a' as int + 10
  }

  /** `%x`: lower-case hexadecimal, no leading zeros (`0` is `"0"`). */
  function HexDigits(n: nat): (s: string)
    ensures |s| >= 1
    ensures forall k :: 0 <= k < |s| ==> IsHexDigit(s[k])
  {
    if n < 16 then [HexDigit(n)] else HexDigits(n / 16) + [HexDigit(n % 16)]
  }

  /** `%02x`: the hexadecimal digits, zero-padded to at least two. */
  function Format02x(n: nat): string
  {
    var h := HexDigits(n);
    if |h| < 2 then "0" + h else h
  }

  /** The value a string of hexadecimal digits denotes. */
  function HexValue(s: string): nat
    requires forall k :: 0 <= k < |s| ==> IsHexDigit(s[k])
  {
    if |s| == 0 then 0 else 16 * HexValue(s[..|s| - 1]) + HexDigitValue(s[|s| - 1])
  }

  lemma {:induction false} HexDigitsValue(n: nat)
    ensures HexValue(HexDigits(n)) == n
  {
    if n >= 16 {
      HexDigitsValue(n / 16);
      var s := HexDigits(n);
      assert s[..|s| - 1] == HexDigits(n / 16);
    }
  }

  lemma {:induction false} HexDigitsLength(n: nat)
    ensures n < 16 ==> |HexDigits(n)| == 1
    ensures 16 <= n < 256 ==> |HexDigits(n)| == 2
    ensures n >= 256 ==> |HexDigits(n)| > 2
  {
    if n >= 16 {
      HexDigitsLength(n / 16);
    }
  }

  lemma {:induction false} HexValueLeadingZero(s: string)
    requires forall k :: 0 <= k < |s| ==> IsHexDigit(s[k])
    ensures HexValue("0" + s) == HexValue(s)
  {
    if |s| > 0 {
      var t := "0" + s;
      assert t[..|t| - 1] == "0" + s[..|s| - 1];
      HexValueLeadingZero(s[..|s| - 1]);
    } else {
      assert "0"[..0] == "";
    }
  }

  /** `%02x` loses nothing: reading the digits back gives the number. */
  lemma Format02xRoundTrip(n: nat)
    ensures forall k :: 0 <= k < |Format02x(n)| ==> IsHexDigit(Format02x(n)[k])
    ensures HexValue(Format02x(n)) == n
  {
    HexDigitsValue(n);
    HexDigitsLength(n);
    if n < 16 {
      HexValueLeadingZero(HexDigits(n));
    }
  }

  /** `%02x` is exactly two characters wide precisely for the channel range 0..255. */
  lemma Format02xWidth(n: nat)
    ensures |Format02x(n)| == 2 <==> n < 256
  {
    HexDigitsLength(n);
  }

  /** `'#%02x%02x%02x' % (r, g, b)` */
  function HexColor(c: Rgb): string
  {
    "#" + Format02x(c.red) + Format02x(c.green) + Format02x(c.blue)
  }

  /**
    For channels in 0..255 the colour is `#` and six hexadecimal digits, two
    per channel, from which each channel reads back.
  */
  lemma HexColorRoundTrip(c: Rgb)
    requires c.red < 256 && c.green < 256 && c.blue < 256
    ensures |HexColor(c)| == 7 && HexColor(c)[0] == '#'
    ensures forall k :: 1 <= k < 7 ==> IsHexDigit(HexColor(c)[k])
    ensures HexValue(HexColor(c)[1..3]) == c.red
    ensures HexValue(HexColor(c)[3..5]) == c.green
    ensures HexValue(HexColor(c)[5..7]) == c.blue
  {
    Format02xWidth(c.red);
    Format02xWidth(c.green);
    Format02xWidth(c.blue);
    Format02xRoundTrip(c.red);
    Format02xRoundTrip(c.green);
    Format02xRoundTrip(c.blue);
    var h := HexColor(c);
    assert h[1..3] == Format02x(c.red);
    assert h[3..5] == Format02x(c.green);
    assert h[5..7] == Format02x(c.blue);
  }

  // ---------------------------------------------------------------------
  // The HTML table

  const TableOpen := "<table class=\"table table-bordered\" style=\"border-collapse: collapse;\">"
  const TableClose := "</table>"
  const RowOpen := "<tr>"
  const RowClose := "</tr>"

  /**
    The colour of one cell. `colormap(lo, hi, v)` stands for the channels
    `int(255 * c)` of `cm.rainbow(plt.Normalize(lo, hi)(v))`, which the model
    leaves abstract; `lo` and `hi` are the frame's minimum and maximum.
  */
  function CellHtml(v: real, lo: real, hi: real, colormap: (real, real, real) -> Rgb, caption: real -> string): string
  {
    "<td style=\"background-color: " + HexColor(colormap(lo, hi, v)) + "; color: black; text-align: center;\">"
    + caption(v) + "</td>"
  }

  /** The cells of one row, in the order given. */
  function CellsHtml(cells: seq<real>, lo: real, hi: real, colormap: (real, real, real) -> Rgb, caption: real -> string): string
  {
    if |cells| == 0 then ""
    else CellsHtml(cells[..|cells| - 1], lo, hi, colormap, caption) + CellHtml(cells[|cells| - 1], lo, hi, colormap, caption)
  }

  /** One row: its cells, in the order given, inside `<tr>`. */
  function RowHtml(cells: seq<real>, lo: real, hi: real, colormap: (real, real, real) -> Rgb, caption: real -> string): string
  {
    RowOpen + CellsHtml(cells, lo, hi, colormap, caption) + RowClose
  }

  /** The rows, in the order given. */
  function RowsHtml(rows: seq<seq<real>>, lo: real, hi: real, colormap: (real, real, real) -> Rgb, caption: real -> string): string
  {
    if |rows| == 0 then ""
    else RowsHtml(rows[..|rows| - 1], lo, hi, colormap, caption) + RowHtml(rows[|rows| - 1], lo, hi, colormap, caption)
  }

  /** The table `view_image_data` renders: the rows in boustrophedon order. */
  function TableHtml(rows: seq<seq<real>>, lo: real, hi: real, colormap: (real, real, real) -> Rgb, caption: real -> string): string
  {
    TableOpen + RowsHtml(Boustrophedon(rows), lo, hi, colormap, caption) + TableClose
  }

  lemma CellsHtmlStep(cells: seq<real>, j: nat, lo: real, hi: real, colormap: (real, real, real) -> Rgb, caption: real -> string)
    requires j < |cells|
    ensures CellsHtml(cells[..j + 1], lo, hi, colormap, caption)
      == CellsHtml(cells[..j], lo, hi, colormap, caption) + CellHtml(cells[j], lo, hi, colormap, caption)
  {
    assert cells[..j + 1][..j] == cells[..j];
  }

  /** The inner loop: append one `<td>` per cell of the row, in the order given. */
  method RenderCells(cells: seq<real>, lo: real, hi: real, colormap: (real, real, real) -> Rgb, caption: real -> string)
    returns (html: string)
    ensures html == CellsHtml(cells, lo, hi, colormap, caption)
  {
    html := "";
    var j := 0;
    while j < |cells|
      invariant 0 <= j <= |cells|
      invariant html == CellsHtml(cells[..j], lo, hi, colormap, caption)
    {
      CellsHtmlStep(cells, j, lo, hi, colormap, caption);
      html := html + CellHtml(cells[j], lo, hi, colormap, caption);
      j := j + 1;
    }
    assert cells[..|cells|] == cells;
  }

  /** One pass of the outer loop appends the next row, in colouring order. */
  lemma RowsHtmlStep(rows: seq<seq<real>>, i: nat, body: string, tr: string,
                     lo: real, hi: real, colormap: (real, real, real) -> Rgb, caption: real -> string)
    requires i < |rows|
    requires body == RowsHtml(Boustrophedon(rows)[..i], lo, hi, colormap, caption)
    requires tr == RowHtml(Oriented(rows[i], i), lo, hi, colormap, caption)
    ensures body + tr == RowsHtml(Boustrophedon(rows)[..i + 1], lo, hi, colormap, caption)
  {
    var order := Boustrophedon(rows);
    assert order[..i + 1][..i] == order[..i];
    assert order[..i + 1][i] == Oriented(rows[i], i);
  }

  /** One row of the outer loop: its cells, reversed when the row index is odd, inside `<tr>`. */
  method RenderRow(row: seq<real>, i: nat, lo: real, hi: real, colormap: (real, real, real) -> Rgb, caption: real -> string)
    returns (tr: string)
    ensures tr == RowHtml(Oriented(row, i), lo, hi, colormap, caption)
  {
    var cells := if i % 2 == 0 then row else Reverse(row);
    var tds := RenderCells(cells, lo, hi, colormap, caption);
    tr := RowOpen + tds + RowClose;
  }

  /** The outer loop: one `<tr>` per row, odd rows reversed, inside the table tags. */
  method RenderTable(rows: seq<seq<real>>, lo: real, hi: real, colormap: (real, real, real) -> Rgb, caption: real -> string)
    returns (html: string)
    ensures html == TableHtml(rows, lo, hi, colormap, caption)
  {
    var body := "";
    var i := 0;
    while i < |rows|
      invariant 0 <= i <= |rows|
      invariant body == RowsHtml(Boustrophedon(rows)[..i], lo, hi, colormap, caption)
    {
      var tr := RenderRow(rows[i], i, lo, hi, colormap, caption);
      RowsHtmlStep(rows, i, body, tr, lo, hi, colormap, caption);
      body := body + tr;
      i := i + 1;
    }
    assert Boustrophedon(rows)[..|rows|] == Boustrophedon(rows);
    html := TableOpen + body + TableClose;
  }

  // ---------------------------------------------------------------------
  // The route

  /** What the route sends back: the page, or an error answer with status 500. */
  datatype Page = Rendered(html: string) | ServerError

  /**
    `preview` on the text of a file: the frame it hands to pandas, whose
    columns are labelled `col1` to `colN` for `columns` = N, or status 500
    when no line is accepted. The table markup of `to_html` is not modelled.
  */
  method Preview(content: string) returns (page: Result<seq<seq<real>>>, columns: nat)
    ensures page.Err? <==> ImageRows(content).Err?
    ensures page.Ok? ==>
      && page == DecimalFrame(content)
      && forall i :: 0 <= i < |page.value| ==> |page.value[i]| == columns
  {
    page := DecimalFrame(content);
    columns := 0;
    if page.Ok? {
      columns := |page.value[0]|;
    }
  }

  /**
    `view_image_data` on the text of a file: a parse failure, or a frame
    without cells (for which `min()` raises), gives status 500; otherwise the
    page is the coloured table normalised to the frame's own range.
  */
  method ViewImageData(content: string, colormap: (real, real, real) -> Rgb, caption: real -> string)
    returns (page: Page)
    ensures page.ServerError? <==> DecimalFrame(content).Err? || Cells(DecimalFrame(content).value) == []
    ensures page.Rendered? ==>
      var frame := DecimalFrame(content).value;
      page.html == TableHtml(frame, MinOf(Cells(frame)), MaxOf(Cells(frame)), colormap, caption)
  {
    var parsed := DecimalFrame(content);
    if parsed.Err? {
      return ServerError;
    }
    var frame := parsed.value;
    var cells := Cells(frame);
    if |cells| == 0 {
      return ServerError;
    }
    var lo := MinOf(cells);
    var hi := MaxOf(cells);
    var html := RenderTable(frame, lo, hi, colormap, caption);
    page := Rendered(html);
  }

  /**
    A blank file is a table for `preview` (one empty row) but an error for
    `view_image_data`, whose `min()` over no cell raises.
  */
  lemma BlankFileViewFails(content: string)
    requires Strip(RemoveAll(content, '\r')) == ""
    ensures DecimalFrame(content).Ok? && Cells(DecimalFrame(content).value) == []
  {
    BlankFileIsOneEmptyRow(content);
    var frame := DecimalFrame(content).value;
    assert |frame| == 1 && frame[0] == [];
    assert frame[1..] == [];
  }
}
