# CSV uploader core, modelled in Dafny

This project models the sensor-data CSV uploader of the ClauseBot research
project (`Research_Project/CSV_Uploader/app.py`), a Flask application.
Users upload `.csv` files of semicolon-separated measurements. The
application has these parts:

- **The image-line parser.** It is copied into `preview`, `view_image_data`
  and `update`. It removes carriage returns, trims the text and splits it
  into lines, then splits each line on `;` into trimmed, non-empty tokens.
  A line is kept when every token is a decimal numeral. Only rows as wide
  as the widest kept row survive. When no line is kept, `max()` raises and
  the route answers with status 500.
- **The colouring page** (`view_image_data`). It is an HTML table in
  boustrophedon order, meaning even rows as they are and odd rows reversed.
  Each cell is coloured `#rrggbb` by its place between the frame's minimum
  and maximum.
- **The database upload** (`update`). It derives a table name from the
  file name and issues one `INSERT` per kept row. Every value is a quoted
  SQL literal, with each `'` doubled.
- **The "cleared files" list.** It is a soft-delete list kept in the
  session. `clear_selected` and `delete_file` append names to it,
  `upload_file` removes names from it, and `index` hides the listed names.

Modules, one file each:

| file | module | contents |
|---|---|---|
| `pytext.dfy` | `PyText` | Python `str` operations the routes use: `strip`, `split`, `join`, `replace`, `isdigit`, `endswith`, `lower` |
| `image_parser.dfy` | `ImageParser` | the image-line parser, as functions and as the imperative parse loop |
| `image_view.dfy` | `ImageView` | row reversal, frame minimum/maximum, `%02x` colours, the HTML table loops, the `preview` and `view_image_data` routes |
| `sql_upload.dfy` | `SqlUpload` | quote escaping and its inverse, a reader for the `VALUES (...)` list, `splitext`, the table name, the INSERT loop, the `update` route |
| `cleared_files.dfy` | `ClearedFiles` | the cleared-files list as a class over `seq<string>`, with the four routes that read or change it |

Three facts about what the parser accepts:

- It looks for no header line and expects no fixed column count. The
  number of columns comes from the data.
- It keeps the rows of the **widest** accepted width and drops all others.
- A blank file is not an error. `all([])` holds, so the single empty line
  is kept as an empty row and the frame is `[[]]`. That frame previews as
  an empty table. `view_image_data` still fails on it, because `min()`
  over no cell raises (`BlankFileIsOneEmptyRow`, `BlankFileViewFails`).

Functions given as parameters stand for foreign code the model does not
define:

- `secure` stands for werkzeug's `secure_filename`.
- `colormap(lo, hi, v)` stands for the channels `int(255*c)` of
  `cm.rainbow(plt.Normalize(lo, hi)(v))`.
- `caption(v)` stands for `f"{val:.2f}"`.

The routes take the file's text, that is what `file.read()` returns, as
the parameter `content`.

## Model

Source paths are relative to the repository root.

| member | source | states |
|---|---|---|
| PyText.Strip | Research_Project/CSV_Uploader/app.py:62 | `s.strip()`, as the text between the leading and the trailing whitespace run; `StripSpec`, `StripIdempotent` and `StripEmptyIff` specify it |
| PyText.LeadingSpacesSpec | Research_Project/CSV_Uploader/app.py:62 | the whitespace `strip()` removes at the front is whitespace and is the whole leading run |
| PyText.TrailingSpacesSpec | Research_Project/CSV_Uploader/app.py:62 | the whitespace `strip()` removes at the back is whitespace and is the whole trailing run (above a lower bound) |
| PyText.StripSpec | Research_Project/CSV_Uploader/app.py:62 | `s.strip()` is one contiguous piece of `s`, everything outside it is whitespace, and it neither starts nor ends with whitespace |
| PyText.StripKeepsAbsentChar | Research_Project/CSV_Uploader/app.py:62 | stripping adds no character, so text without `\r` stays without `\r` |
| PyText.StripIdempotent | Research_Project/CSV_Uploader/app.py:62 | stripping twice is stripping once |
| PyText.StripEmptyIff | Research_Project/CSV_Uploader/app.py:66 | `p.strip() == ''` exactly when every character of `p` is whitespace |
| PyText.Split | Research_Project/CSV_Uploader/app.py:63 | `split(sep)` always gives at least one piece |
| PyText.SplitPieces | Research_Project/CSV_Uploader/app.py:63 | no piece of `split(sep)` holds the separator, and every piece is made of characters of the input |
| PyText.JoinWith | Research_Project/CSV_Uploader/app.py:132 | `sep.join(parts)`; `JoinSplit` and `SplitJoin` tie it to `Split`, and `ReadValuesTuple` reads the `', '` join back |
| PyText.JoinSplit | Research_Project/CSV_Uploader/app.py:63 | joining the pieces with the separator gives back the input |
| PyText.SplitNoSep | Research_Project/CSV_Uploader/app.py:66 | text without the separator splits into itself alone |
| PyText.SplitAfterPiece | Research_Project/CSV_Uploader/app.py:66 | a separator-free prefix and a separator split into that prefix, then the split of the rest |
| PyText.SplitJoin | Research_Project/CSV_Uploader/app.py:66 | splitting the join of separator-free pieces gives back the pieces |
| PyText.IndexOf | Research_Project/CSV_Uploader/app.py:67 | the position of the first occurrence of a character, or the length when it is absent: the character is there and at no earlier position |
| PyText.RemoveFirst | Research_Project/CSV_Uploader/app.py:67 | `replace('.', '', 1)` on text, and `list.remove` on the cleared list (lines 42-43); `RemoveFirstSpec`, `RemoveFirstAt` and `RemoveNameSpec` specify it |
| PyText.RemoveFirstSpec | Research_Project/CSV_Uploader/app.py:67 | `replace('.', '', 1)` is one character shorter and has one `.` fewer when there is a `.`, and changes nothing otherwise |
| PyText.RemoveFirstAt | Research_Project/CSV_Uploader/app.py:67 | `replace('.', '', 1)` and `list.remove` cut out exactly the first occurrence, and everything before and after it stays in place |
| PyText.RemoveAll | Research_Project/CSV_Uploader/app.py:62 | `replace('\r', '')` holds exactly the characters of the input other than `\r`, as a set |
| PyText.RemoveAllSpec | Research_Project/CSV_Uploader/app.py:62 | `replace('\r', '')` leaves no `\r`, and keeps every other character as often as it occurs and in its order |
| PyText.ReplaceChar | Research_Project/CSV_Uploader/app.py:127 | `replace(" ", "_")` keeps the length and changes exactly the spaces, position by position |
| PyText.LowerAscii | Research_Project/CSV_Uploader/app.py:127 | `lower()` keeps the length and lowers each character in place |
| ImageParser.Select | Research_Project/CSV_Uploader/app.py:65-68 | `[row(x) for x in xs if ok(x)]`, the shape of both filters of the parse; `SelectKeepsPassing`, `SelectFrom` and `SelectEmptyIff` specify it |
| ImageParser.SelectAppend | Research_Project/CSV_Uploader/app.py:65-68 | filtering two runs of elements one after the other gives the two filtered runs one after the other |
| ImageParser.SelectKeepsPassing | Research_Project/CSV_Uploader/app.py:65-68 | an element that passes the test is kept, in its place: after the results for the elements before it and before the results for those after it |
| ImageParser.SelectFrom | Research_Project/CSV_Uploader/app.py:65-68 | every kept item is the image of an element that passed the test |
| ImageParser.SelectEmptyIff | Research_Project/CSV_Uploader/app.py:65-68 | a filtering loop appends nothing exactly when no element passes its test |
| ImageParser.SelectSatisfies | Research_Project/CSV_Uploader/app.py:65-68 | a property that every passing element's image has, every kept item has |
| ImageParser.NonBlank | Research_Project/CSV_Uploader/app.py:66 | the test `p.strip() != ''`; `TokensOfPieces` specifies what it selects |
| ImageParser.StrippedNonEmpty | Research_Project/CSV_Uploader/app.py:66 | `[p.strip() for p in parts if p.strip() != '']` as a `Select`; `StrippedNonEmptyShape`, `TokensOfPieces` and `StrippedNonEmptyExample` specify it |
| ImageParser.Tokens | Research_Project/CSV_Uploader/app.py:66 | the tokens of one line; `TokensShape`, `TokensOfPieces` and `TokensExample` specify them |
| ImageParser.StrippedNonEmptyShape | Research_Project/CSV_Uploader/app.py:66 | the comprehension keeps only stripped pieces that are non-empty, have no whitespace at either end, and hold no separator |
| ImageParser.TokensShape | Research_Project/CSV_Uploader/app.py:66 | every token of a line is non-empty, has no surrounding whitespace and holds no `;` |
| ImageParser.TokensOfPieces | Research_Project/CSV_Uploader/app.py:66 | every `;`-piece of a line that is not blank gives its stripped text as a token, and every token is the stripped text of such a piece |
| ImageParser.SplitExampleLine | Research_Project/CSV_Uploader/app.py:66 | `"1; 2;;".split(';')` is `["1", " 2", "", ""]` |
| ImageParser.StrippedNonEmptyExample | Research_Project/CSV_Uploader/app.py:66 | the comprehension turns `["1", " 2", "", ""]` into `["1", "2"]` |
| ImageParser.TokensExample | Research_Project/CSV_Uploader/app.py:66 | the tokens of `"1; 2;;"` are `"1"` and `"2"` |
| ImageParser.IsNumericToken | Research_Project/CSV_Uploader/app.py:67 | `part.replace('.', '', 1).isdigit()`; `NumericTokenIff` characterises it |
| ImageParser.AllDigitsAfterRemoval | Research_Project/CSV_Uploader/app.py:67 | after one `.` is removed, the text is all digits exactly when the token was digits and dots with at most one dot |
| ImageParser.NumericTokenIff | Research_Project/CSV_Uploader/app.py:67 | a token passes `replace('.', '', 1).isdigit()` exactly when it is digits with at most one `.` and at least one digit |
| ImageParser.NumeralsAccepted | Research_Project/CSV_Uploader/app.py:67 | `"12"`, `"1.5"`, `".5"` and `"1."` pass the test |
| ImageParser.NonNumeralsRejected | Research_Project/CSV_Uploader/app.py:67 | `"-1"`, `"1e5"`, `"1.2.3"`, `"."` and `""` fail the test |
| ImageParser.LineAccepted | Research_Project/CSV_Uploader/app.py:67 | `all(...)` over the tokens of a line; `BlankLineAccepted` and `AcceptedRowsNumeric` specify it |
| ImageParser.BlankLineAccepted | Research_Project/CSV_Uploader/app.py:67-68 | a line with no tokens is kept, because `all([])` holds |
| ImageParser.AcceptedRows | Research_Project/CSV_Uploader/app.py:64-68 | the rows the parse loop appends; `AcceptedRowsKeeps`, `AcceptedRowsFrom`, `AcceptedRowsNumeric`, `AcceptedRowsEmptyIff` and `KeepNumericLines` specify them |
| ImageParser.AcceptedRowsKeeps | Research_Project/CSV_Uploader/app.py:65-68 | a line whose tokens are all numerals is kept, in its place among the kept rows |
| ImageParser.AcceptedRowsFrom | Research_Project/CSV_Uploader/app.py:65-68 | every kept row is the token list of a line that passed the test |
| ImageParser.AcceptedRowsNumeric | Research_Project/CSV_Uploader/app.py:65-68 | every kept row consists of numerals |
| ImageParser.AcceptedRowsEmptyIff | Research_Project/CSV_Uploader/app.py:65-69 | the loop keeps no row exactly when no line passes the test |
| ImageParser.Lines | Research_Project/CSV_Uploader/app.py:62-63 | the lines of the text; `LinesShape` specifies them |
| ImageParser.LinesShape | Research_Project/CSV_Uploader/app.py:62-63 | the text always has at least one line, and no line holds `\n` or `\r` |
| ImageParser.MaxWidth | Research_Project/CSV_Uploader/app.py:69 | `max(len(row) ...)` bounds every row's width and is the width of some row |
| ImageParser.KeepWidth | Research_Project/CSV_Uploader/app.py:70 | the comprehension keeps, in order, only rows of the given width, and every row of that width at least once |
| ImageParser.WidthFilter | Research_Project/CSV_Uploader/app.py:69-70 | fails exactly on no rows; otherwise gives a non-empty, order-preserving selection of rows of the maximum width that includes every such row |
| ImageParser.KeepWidthCount | Research_Project/CSV_Uploader/app.py:70 | each row of the given width is kept exactly as often as it occurs, and no other row is kept; with the order this fixes the result |
| ImageParser.WidthFilterCount | Research_Project/CSV_Uploader/app.py:69-70 | each row of the maximum width is kept exactly as often as it occurs, so the frame height and the number of INSERTs are the number of widest rows |
| ImageParser.KeepWidthAll | Research_Project/CSV_Uploader/app.py:70 | keeping a width that every row has changes nothing |
| ImageParser.WidthFilterIdempotent | Research_Project/CSV_Uploader/app.py:69-70 | applying the width filter again changes nothing |
| ImageParser.ImageRows | Research_Project/CSV_Uploader/app.py:62-70 | the parse block of the three routes; `ImageRowsSpec`, `BlankFileIsOneEmptyRow` and `ReadImageLines` specify it |
| ImageParser.ImageRowsSpec | Research_Project/CSV_Uploader/app.py:114-123 | the parse fails exactly when no line passes the test; otherwise the rows are non-empty, all of one width, and all numerals |
| ImageParser.BlankFileIsOneEmptyRow | Research_Project/CSV_Uploader/app.py:62-70 | a file that is blank after trimming parses to one empty row, not to an error |
| ImageParser.KeepNumericLines | Research_Project/CSV_Uploader/app.py:117-121 | the loop of `update` appends, line by line, exactly the token lists of the kept lines |
| ImageParser.ReadImageLines | Research_Project/CSV_Uploader/app.py:114-123 | the parse block of `update`, the loop followed by the width filter, computes the parse function |
| ImageParser.Pow10 | Research_Project/CSV_Uploader/app.py:68 | the scale of a decimal is at least 1 |
| ImageParser.DecimalValue | Research_Project/CSV_Uploader/app.py:68 | `float(p)` of an accepted token, taken as an exact decimal, is never negative |
| ImageParser.DecimalValueInteger | Research_Project/CSV_Uploader/app.py:68 | a token without `.` denotes the integer its digits spell |
| ImageParser.DecimalValueExample1 | Research_Project/CSV_Uploader/app.py:68 | `"1.5"` denotes 1.5 |
| ImageParser.DecimalValueExample2 | Research_Project/CSV_Uploader/app.py:68 | `".5"` denotes 0.5 |
| ImageParser.DecimalValueExample3 | Research_Project/CSV_Uploader/app.py:68 | `"1."` denotes 1.0 |
| ImageParser.DecimalRow | Research_Project/CSV_Uploader/app.py:68 | `[float(p) for p in parts]` gives no negative value |
| ImageParser.DecimalRows | Research_Project/CSV_Uploader/app.py:89 | no cell of the converted frame is negative |
| ImageParser.DecimalRowsShape | Research_Project/CSV_Uploader/app.py:89 | conversion keeps the number of rows and each row's length |
| ImageParser.DecimalFrame | Research_Project/CSV_Uploader/app.py:83-91 | the numeric frame fails exactly when the parse fails; otherwise it is non-empty, rectangular and non-negative; `DecimalFrameRows` and `DecimalFrameConvertFirst` tie it to the parse |
| ImageParser.DecimalFrameRows | Research_Project/CSV_Uploader/app.py:83-91 | the frame has as many rows as the parse keeps, each as long as its token row, and each cell is the value of the token in its place |
| ImageParser.ConvertRow | Research_Project/CSV_Uploader/app.py:89 | `[float(p) for p in parts]` of a row of numerals, as a total function; `DecimalRowsAsMap` ties it to `DecimalRows` |
| ImageParser.FloatTokens | Research_Project/CSV_Uploader/app.py:88-89 | the converted row the loop appends for a kept line; `SelectFloat` specifies it |
| ImageParser.MapRows | Research_Project/CSV_Uploader/app.py:89 | converting every row; `KeepWidthMap` and `MaxWidthMap` specify it |
| ImageParser.SelectFloat | Research_Project/CSV_Uploader/app.py:86-89 | appending converted rows in the loop gives the converted kept token rows |
| ImageParser.KeepWidthNumeric | Research_Project/CSV_Uploader/app.py:91 | the width filter keeps rows of numerals rows of numerals |
| ImageParser.KeepWidthMap | Research_Project/CSV_Uploader/app.py:91 | a conversion that keeps row lengths commutes with the width filter |
| ImageParser.MaxWidthMap | Research_Project/CSV_Uploader/app.py:90 | a conversion that keeps row lengths keeps the widest width |
| ImageParser.DecimalFrameConvertFirst | Research_Project/CSV_Uploader/app.py:83-91 | the routes' order (convert each kept line with `float`, then filter by width) gives the same result as `DecimalFrame`, which filters first |
| ImageView.Reverse | Research_Project/CSV_Uploader/app.py:98 | `row[::-1]`; `ReverseAt` and `ReverseReverse` specify it |
| ImageView.ReverseAt | Research_Project/CSV_Uploader/app.py:98 | `row[::-1]` keeps the length and mirrors every position |
| ImageView.ReverseReverse | Research_Project/CSV_Uploader/app.py:98 | reversing twice gives back the row |
| ImageView.Boustrophedon | Research_Project/CSV_Uploader/app.py:96-98 | the colouring order of the rows; `BoustrophedonAt` and `BoustrophedonInvolution` specify it |
| ImageView.Oriented | Research_Project/CSV_Uploader/app.py:98 | `row if i % 2 == 0 else row[::-1]`; `BoustrophedonAt` specifies it position by position |
| ImageView.BoustrophedonAt | Research_Project/CSV_Uploader/app.py:96-98 | the colouring order keeps the row count and each row's length; even rows are unchanged and odd rows are mirrored |
| ImageView.BoustrophedonInvolution | Research_Project/CSV_Uploader/app.py:96-98 | applying the colouring order twice gives back the frame |
| ImageView.Cells | Research_Project/CSV_Uploader/app.py:94 | `df.values` holds exactly the cells of the frame |
| ImageView.MinOf | Research_Project/CSV_Uploader/app.py:94 | `min()` is a cell that no cell is below |
| ImageView.MaxOf | Research_Project/CSV_Uploader/app.py:94 | `max()` is a cell that no cell is above |
| ImageView.HexDigit | Research_Project/CSV_Uploader/app.py:102 | a value below 16 becomes one lower-case hex digit |
| ImageView.HexDigitValue | Research_Project/CSV_Uploader/app.py:102 | a hex digit denotes a value below 16 |
| ImageView.HexDigits | Research_Project/CSV_Uploader/app.py:102 | `%x` gives at least one character, all of them hex digits |
| ImageView.HexDigitsValue | Research_Project/CSV_Uploader/app.py:102 | reading the `%x` digits back gives the number |
| ImageView.HexDigitsLength | Research_Project/CSV_Uploader/app.py:102 | `%x` has one digit below 16, two from 16 to 255, and more from 256 up |
| ImageView.HexValueLeadingZero | Research_Project/CSV_Uploader/app.py:102 | a leading `0` does not change the value read |
| ImageView.Format02x | Research_Project/CSV_Uploader/app.py:102 | `%02x`; `Format02xRoundTrip` and `Format02xWidth` specify it |
| ImageView.Format02xRoundTrip | Research_Project/CSV_Uploader/app.py:102 | `%02x` gives hex digits that read back as the number |
| ImageView.Format02xWidth | Research_Project/CSV_Uploader/app.py:102 | `%02x` is exactly two characters wide exactly for 0..255 |
| ImageView.HexColor | Research_Project/CSV_Uploader/app.py:102 | `'#%02x%02x%02x'`; `HexColorRoundTrip` specifies it |
| ImageView.HexColorRoundTrip | Research_Project/CSV_Uploader/app.py:102 | for channels in 0..255, `'#%02x%02x%02x'` is `#` and six hex digits, and each pair reads back as its channel |
| ImageView.CellHtml | Research_Project/CSV_Uploader/app.py:100-103 | the `<td>` of one cell, coloured `HexColor` of its colour and captioned; `RenderCells` proves the loop appends one per cell |
| ImageView.CellsHtmlStep | Research_Project/CSV_Uploader/app.py:99-103 | one step of the cell loop appends the next cell's `<td>` |
| ImageView.RenderCells | Research_Project/CSV_Uploader/app.py:99-103 | the cell loop builds the `<td>` of every cell, in the order given |
| ImageView.RowsHtmlStep | Research_Project/CSV_Uploader/app.py:96-104 | one step of the row loop appends the next row in colouring order |
| ImageView.RenderRow | Research_Project/CSV_Uploader/app.py:97-104 | one row is opened with `<tr>`, its cells follow, reversed when the row index is odd, and it is closed with `</tr>` |
| ImageView.TableHtml | Research_Project/CSV_Uploader/app.py:95-105 | the table `view_image_data` builds; `RenderTable` proves the loops build it and `BoustrophedonAt` gives its row order |
| ImageView.RenderTable | Research_Project/CSV_Uploader/app.py:95-105 | the nested loops build the table tags around every row in colouring order |
| ImageView.Preview | Research_Project/CSV_Uploader/app.py:57-76 | `preview` fails exactly when the parse fails; otherwise it shows the numeric frame (whose rows and cells `DecimalFrameRows` gives), every row with the same column count |
| ImageView.ViewImageData | Research_Project/CSV_Uploader/app.py:78-108 | `view_image_data` fails exactly when the parse fails or the frame has no cell; otherwise it renders the coloured table of the numeric frame (whose rows and cells `DecimalFrameRows` gives), normalised to the frame's minimum and maximum |
| ImageView.BlankFileViewFails | Research_Project/CSV_Uploader/app.py:83-94 | a blank file parses, but its frame has no cell for `min()` |
| SqlUpload.Escape | Research_Project/CSV_Uploader/app.py:132 | `str(v).replace("'", "''")`; `UnescapeEscape`, `EscapeNoLoneQuote`, `EscapeUnescape` and `EscapeNoQuote` specify it |
| SqlUpload.Unescape | Research_Project/CSV_Uploader/app.py:132 | the inverse a SQL reader applies, `replace("''", "'")`; `UnescapeEscape` and `EscapeUnescape` tie it to `Escape` |
| SqlUpload.UnescapeEscape | Research_Project/CSV_Uploader/app.py:132 | replacing `''` by `'` recovers the value from its escaped form |
| SqlUpload.EscapeNoLoneQuote | Research_Project/CSV_Uploader/app.py:132 | an escaped value has no lone quote |
| SqlUpload.EscapeUnescape | Research_Project/CSV_Uploader/app.py:132 | a text without lone quotes is the escaped form of its unescaping |
| SqlUpload.EscapeNoQuote | Research_Project/CSV_Uploader/app.py:132 | a value without quotes is written unchanged |
| SqlUpload.NumericTokenEscape | Research_Project/CSV_Uploader/app.py:120-132 | the accepted tokens are numerals, so escaping leaves them unchanged |
| SqlUpload.EscapeAll | Research_Project/CSV_Uploader/app.py:132 | each value of the row is escaped, in place |
| SqlUpload.ValuesList | Research_Project/CSV_Uploader/app.py:132 | the `', '`-join of the escaped values; `TupleCons` and `UploadedRowsReadBack` specify it |
| SqlUpload.InsertStatement | Research_Project/CSV_Uploader/app.py:133 | the INSERT text of one row; `InsertStatementValues` specifies it |
| SqlUpload.ValuesTuple | Research_Project/CSV_Uploader/app.py:133 | `'{values}'` inside `VALUES (...)`; `ReadValuesTuple` and `EmptyRowTuple` tie it to `ReadValues` |
| SqlUpload.ReadLiteral | Research_Project/CSV_Uploader/app.py:133 | reading a literal consumes at least its closing quote |
| SqlUpload.ReadLiteralEscape | Research_Project/CSV_Uploader/app.py:133 | an escaped value and a closing quote read back as the value, with the rest untouched |
| SqlUpload.TupleCons | Research_Project/CSV_Uploader/app.py:132-133 | a value list is the first quoted value, then `, ` and the list of the remaining values |
| SqlUpload.ReadValues | Research_Project/CSV_Uploader/app.py:133 | how a SQL reader reads the value list back; `ReadValuesTuple` and `EmptyRowTuple` tie it to `ValuesTuple` |
| SqlUpload.ReadValuesCons | Research_Project/CSV_Uploader/app.py:133 | after the first literal and `, `, reading continues with the rest of the list |
| SqlUpload.ReadValuesTuple | Research_Project/CSV_Uploader/app.py:132-133 | the `VALUES (...)` list of a row with at least one value reads back exactly as the row |
| SqlUpload.EmptyRowTuple | Research_Project/CSV_Uploader/app.py:131-133 | a row with no values still writes `('')`, which reads as one empty value |
| SqlUpload.InsertStatementValues | Research_Project/CSV_Uploader/app.py:133 | each INSERT is the fixed statement text around a value list that reads back as its row |
| SqlUpload.LastBelow | Research_Project/CSV_Uploader/app.py:127 | the backwards search result lies below its bound, or is -1 |
| SqlUpload.LastBelowSpec | Research_Project/CSV_Uploader/app.py:127 | the backwards search finds the character at its result and nowhere between the result and the bound |
| SqlUpload.RFind | Research_Project/CSV_Uploader/app.py:127 | `rfind` gives an index of the text or -1 |
| SqlUpload.RFindSpec | Research_Project/CSV_Uploader/app.py:127 | `rfind` finds the last occurrence, and gives -1 exactly when the character is absent |
| SqlUpload.ExtStart | Research_Project/CSV_Uploader/app.py:127 | `splitext` cuts within the name |
| SqlUpload.SplitExt | Research_Project/CSV_Uploader/app.py:127 | `os.path.splitext`; `SplitExtSpec`, `SplitExtCuts` and `SplitExtHidden` specify it |
| SqlUpload.SplitExtSpec | Research_Project/CSV_Uploader/app.py:127 | root and extension concatenate to the name; the extension is empty or is one `.` followed by no `.` or `/`; a name without `.` has no extension |
| SqlUpload.SplitExtCuts | Research_Project/CSV_Uploader/app.py:127 | an extension is cut off exactly when the last `/`-component has a `.` after some other character, and then the cut is at the last `.` |
| SqlUpload.SplitExtExample | Research_Project/CSV_Uploader/app.py:127 | `scan.csv` splits into `scan` and `.csv` |
| SqlUpload.SplitExtHidden | Research_Project/CSV_Uploader/app.py:127 | a name whose last component has dots only at its front, such as `.csv` or `..csv`, has no extension |
| SqlUpload.SplitExtDotfile | Research_Project/CSV_Uploader/app.py:127 | the hidden file `.csv` splits into itself and an empty extension |
| SqlUpload.TableName | Research_Project/CSV_Uploader/app.py:127 | the table name; `TableNameSpec` specifies it |
| SqlUpload.TableNameSpec | Research_Project/CSV_Uploader/app.py:127 | the table name has the root's length, no space and no upper-case ASCII letter, and is the root position by position lowered with spaces turned to `_` |
| SqlUpload.BuildInserts | Research_Project/CSV_Uploader/app.py:131-133 | the loop issues one INSERT per row, in row order |
| SqlUpload.Update | Research_Project/CSV_Uploader/app.py:110-140 | `update` fails with 500 exactly when the parse fails; otherwise it names the table from the secured file name, sends one INSERT per kept row, records a column count every row has, and reports success |
| SqlUpload.UploadedRowsReadBack | Research_Project/CSV_Uploader/app.py:120-133 | for an uploaded row, the value list is the plain `', '`-join of its tokens and reads back as the row |
| ClearedFiles.NoDuplicatesCons | Research_Project/CSV_Uploader/app.py:52-53 | a list has no duplicates exactly when its head is not in its tail and its tail has none |
| ClearedFiles.AddAbsent | Research_Project/CSV_Uploader/app.py:148-149 | appending a name when it is absent keeps the old entries as a prefix and then holds exactly the old names and the new one |
| ClearedFiles.AddAbsentNoDuplicates | Research_Project/CSV_Uploader/app.py:52-53 | appending only absent names never creates a duplicate |
| ClearedFiles.AddAbsentTwice | Research_Project/CSV_Uploader/app.py:145-151 | deleting a file twice is the same as deleting it once |
| ClearedFiles.AddAll | Research_Project/CSV_Uploader/app.py:51-53 | the loop of `clear_selected`; `AddAllSpec`, `AddAllPresent` and `AddAllTwice` specify it |
| ClearedFiles.AddAllSpec | Research_Project/CSV_Uploader/app.py:50-54 | `clear_selected` keeps earlier entries in order, ends with exactly the old and the selected names, and keeps the list free of duplicates |
| ClearedFiles.AddAllPresent | Research_Project/CSV_Uploader/app.py:51-53 | selecting names that are already listed changes nothing |
| ClearedFiles.AddAllTwice | Research_Project/CSV_Uploader/app.py:47-55 | clearing the same selection twice is the same as clearing it once |
| ClearedFiles.RemoveNameSpec | Research_Project/CSV_Uploader/app.py:42-43 | `if x in names: names.remove(x)`, as `RemoveFirst`, drops one entry when the name is listed and nothing otherwise; on a list without duplicates exactly that name goes |
| ClearedFiles.IsCsvName | Research_Project/CSV_Uploader/app.py:29 | `endswith('.csv')`, also at line 38; `VisibleSpec` and `SavedNames` specify what it selects |
| ClearedFiles.SavedNames | Research_Project/CSV_Uploader/app.py:37-40 | `upload_file` saves exactly the secured names of the files whose names end in `.csv` |
| ClearedFiles.UploadAll | Research_Project/CSV_Uploader/app.py:37-44 | the loop of `upload_file` over the list; `UploadAllSpec` and `UploadedNotCleared` specify it |
| ClearedFiles.UploadAllSpec | Research_Project/CSV_Uploader/app.py:37-44 | on a list without duplicates, uploading leaves exactly the entries that were not saved again, still without duplicates |
| ClearedFiles.UploadedNotCleared | Research_Project/CSV_Uploader/app.py:38-44 | after an upload, no saved name is on the list |
| ClearedFiles.Visible | Research_Project/CSV_Uploader/app.py:29 | the comprehension of `index`; `VisibleSpec` specifies it |
| ClearedFiles.VisibleSpec | Research_Project/CSV_Uploader/app.py:29 | the visible files are exactly the listed `.csv` files not on the list, in listing order |
| ClearedFiles.ClearedList.constructor | Research_Project/CSV_Uploader/app.py:28 | a fresh session's list is empty |
| ClearedFiles.ClearedList.Index | Research_Project/CSV_Uploader/app.py:26-30 | `index` shows exactly the `.csv` files of the listing that are not on the list, in listing order |
| ClearedFiles.ClearedList.ClearSelected | Research_Project/CSV_Uploader/app.py:47-55 | the loop appends each absent selected name in turn and keeps the list free of duplicates |
| ClearedFiles.ClearedList.DeleteFile | Research_Project/CSV_Uploader/app.py:145-151 | `delete_file` appends the name when it is absent and keeps the list free of duplicates |
| ClearedFiles.ClearedList.UploadFiles | Research_Project/CSV_Uploader/app.py:32-45 | without the `files[]` part gives 400 and changes nothing; otherwise gives the 302 redirect, saves the secured `.csv` names, and takes each saved name off the list |

## Left out

- Flask routing, templates, redirects and session storage are left out. The session list is plain state in a class.
- File reading and saving, `os.listdir` and `os.makedirs` are I/O. The listing is a parameter, in whatever order the OS gives.
- Text decoding and the newline translation of `open(..., 'r')` are left out. `content` is the decoded text. With the default `newline=None`, every `\r` and `\r\n` is read as `\n`, so no `\r` can reach the code; the model removes `\r` only because `app.py` line 62 does.
- psycopg2 (connect, cursor, DROP, CREATE, commit, close) is a foreign database client. The model gives the statements and the column count, not their execution. Database errors are not modelled, and so not their 500 answer. One such error follows from a blank file. Its frame is one empty row, so `CREATE TABLE` makes a table with no columns, and its one `INSERT ... VALUES ('')` (`EmptyRowTuple`) is rejected. The route then answers 500, while `Update` reports `Uploaded`.
- pandas `DataFrame` and `to_html` are left out. `Preview` gives the frame and its column count, not the markup. The column labels appear only as that count.
- `plt.Normalize`, `cm.rainbow` and `int(255 * c)` are floating-point library work, taken as the parameter `colormap`; `{val:.2f}` is the parameter `caption`.
- ImageParser.DecimalValue: `float(p)` is the exact decimal value, not the rounded double.
- ImageView.ViewImageData and ImageView.Preview: the routes convert each token with `float` before the width filter; `DecimalFrame` converts after it. `DecimalFrameConvertFirst` proves the two orders give the same frame.
- SqlUpload.SplitExt: `os.path` is taken as `posixpath`, the server's platform. The `\` separator and the drive letters of `ntpath.splitext` are left out.
- werkzeug `secure_filename` is the parameter `secure`, with no properties assumed.
- PyText.StripSpec: whitespace is the ASCII set of Python's `isspace`. Other Unicode whitespace is left out, and so are the non-ASCII digits of `isdigit` and the non-ASCII case mappings of `lower`.
- ClearedFiles.UploadFiles: the `file` truthiness test is taken as part of the `.csv` suffix test, since an empty name fails both.
- The repository's top-level `app.py` and the frontend and agent sources are left out. They are plumbing over PDF libraries, a hosted language model and UI components.
