# Food tracker core, in Dafny

`main.py` is a PyQt desktop script that logs dishes: a name, calories,
proteins, fats and carbohydrates per 100 g, and a date. It keeps them in the
`dishes` table of the SQLite file `food.db`. The first tab has a form, an add
button and a table of every stored dish. The second tab has two date widgets
and draws a chart of calories per dish for the chosen period.

This project models the script's logic and proves properties of it:

- `sqlite_like` and `sqlite_like_escape` (module `Like`). They are meant to
  give SQL `LIKE` case-insensitive matching for Russian text. The model
  follows their steps one by one:
  - `str.lower()` on both arguments;
  - the chain of fourteen `str.replace` calls;
  - a parser for the small regular-expression language that chain can
    produce (literals, escaped literals, `.`, `.*?` and a top-level `|`);
  - the meaning `re.match` gives the result: anchored at the start of the
    value only, and `.` does not match a newline.

  `SqlLike` is a reference definition of SQL `LIKE` with the same case
  folding. Lemmas relate the two.
- `sqlite_nocase_collation` (module `Collation`). It encodes both strings as
  UTF-8 (module `Utf8`), folds the bytes with `bytes.lower()` and returns
  `(a < b) - (a > b)`. Byte order is module `Lex`.
- `create_db`, and the INSERT and SELECTs the window sends (module `Store`).
  The SQLite file becomes an object holding the rows of `dishes` in rowid
  order. It also holds the AUTOINCREMENT counter and whether the table
  exists.
- The window's `add_dish`, `fill_table` and `show_chart` (module `Window`).
  - The table widget is an object whose rows change in place.
  - The text fields and date widgets are fields of the window object.
  - The three slots are methods with their loops.
- Python's `str(n)`, `int(s)` and the characters involved (module `Text`).
  The `yyyyMMdd` text of a date and its `DD.MM.YYYY` display (module `Dates`).

Neither helper is registered with the connection: the `create_collation` and
`create_function` calls are commented out (main.py:50-53). Their models stand
alone, and the queries use SQLite's own comparison. Modules `Store` and
`Utf8` model that comparison: byte order of the UTF-8 encodings, which is
code-point order.

The range query splices the two `yyyyMMdd` texts into the SQL unquoted, as
numbers. Each is eight digits, so SQLite reads it as an integer literal
(`DateBoundIsLiteral`). It then compares the `date` column, which has TEXT
affinity, with the text of each number's value:
- `BoundText` gives that text for a non-empty digit text whose value fits in
  64 bits, and `BoundTextIsNumber` shows that it has leading zeros removed;
- widget dates never start with `0` (`CompactCanonical`), so the bounds are
  the `yyyyMMdd` texts themselves.

## Model

| member | source | states |
|---|---|---|
| Like.LikeEscape | main.py:16-23 | `sqlite_like_escape`: compile the rewritten lowered template, then `re.match` the lowered value; `None` where the rewritten template is not a pattern the model compiles; meaning in `LikeByAlternatives`, `LikePlain` and `LikeIsPrefixSpan` |
| Like.Replace | main.py:17-22 | one `str.replace` with a one-character needle: every occurrence replaced, everything else kept; meaning in `ReplaceConcat`, `ReplaceAbsent` and `ReplaceOne` |
| Like.Chain | main.py:17-22 | the fourteen replace calls from the k-th on, in source order; meaning in `ChainConcat`, `ChainChar` and `ChainIsEscapeAll` |
| Like.RegexSource | main.py:17-22 | the lowered template after the whole replace chain; meaning in `ChainIsEscapeAll` |
| Like.Compile | main.py:17 | `re.compile` on the patterns the chain can produce: a non-empty list of `\|`-separated alternatives, each a possibly empty list of literal, one-character and lazy-run tokens; meaning in `CompileEscaped` |
| Like.Matches | main.py:23 | the backtracking regular-expression matcher, start-anchored or whole-value, dot with or without newline; meaning in `WholeMatchIsSpan` and `MatchIsSpanOfPrefix` |
| Like.SqlLike | main.py:16-23 | reference definition of SQL LIKE without escape: whole-value, `_` any one character, `%` any run; meaning in `SqlLikeIsSpan` |
| Like.Like | main.py:11-13 | `sqlite_like` gives the same answer as `sqlite_like_escape` for every escape argument: the escape is ignored |
| Like.ChainIsEscapeAll | main.py:17-22 | the fourteen replace calls, applied in order, rewrite each character independently: the twelve metacharacters get a backslash, `_` becomes `.`, `%` becomes `.*?`, everything else is kept |
| Like.CompileEscaped | main.py:17-23 | for a template without a backslash, the compiled regular expression is the template's `\|`-separated alternatives of literal, one-character and run tokens |
| Like.LikeByAlternatives | main.py:16-23 | without a backslash the template always compiles, and LIKE holds iff some alternative of the lowered template matches at the start of the lowered value |
| Like.LikePlain | main.py:16-23 | without backslash and `\|`, LIKE is the token matcher run in `re.match` mode on the lowered template and value |
| Like.LikeIsPrefixSpan | main.py:16-23 | without backslash and `\|`, LIKE holds iff some prefix of the lowered value splits into pieces: one non-newline character per `_`, a run of them per `%`, the equal character for any other |
| Like.WholeMatchIsSpan | main.py:23 | the recursive matcher in whole-value mode succeeds iff the value splits into the tokens' pieces |
| Like.MatchIsSpanOfPrefix | main.py:23 | in start-anchored mode the matcher succeeds iff some prefix of the value splits into the tokens' pieces |
| Like.MatchExtends | main.py:23 | a start-anchored match survives appending anything to the value |
| Like.AnyAlternativeIsSome | main.py:23 | a compiled pattern with alternatives matches iff one of its alternatives does |
| Like.LikeIgnoresCase | main.py:17-23 | lowering either argument first does not change the result |
| Like.LikeExtends | main.py:23 | a value that matches still matches with anything appended |
| Like.LikeAgreesWithSqlLike | main.py:16-23 | for a template ending in `%`, without backslash and `\|`, and a value without newline, the helper agrees with SQL LIKE |
| Like.SqlLikeIsSpan | main.py:16-23 | SQL LIKE holds iff the whole lowered value splits into the lowered template's pieces, newlines included |
| Like.SqlLikeIgnoresCase | main.py:17-23 | the reference LIKE is case-insensitive in both arguments |
| Like.UnderscoreExample | main.py:16-23 | `"a_c"` matches `"abcd"` |
| Like.UpperCaseExample | main.py:16-23 | `"A_C"` matches `"ABC"` |
| Like.UnderscoreIsOneExample | main.py:16-23 | `"A_C"` does not match `"ABBC"`: `_` is one character |
| Like.EscapedUnderscoreExample | main.py:17-23 | a backslash before `_` survives the chain and escapes the `.` that `_` becomes: the template matches `"."` and not `"a"` |
| Like.CyrillicExample | main.py:16-23 | `"%блюдо%"` matches `"МойБлюдо"` |
| Like.BarIsAlternation | main.py:17-23 | `"x\|y"` matches `"y"` as written, but not under SQL LIKE |
| Like.PrefixIsEnough | main.py:23 | `"a"` matches `"abc"` as written, but not under SQL LIKE |
| Like.UnderscoreSkipsNewline | main.py:22-23 | `"_"` does not match a newline as written, but does under SQL LIKE |
| Collation.LowerBytes | main.py:27-28 | `bytes.lower()`: same length, each byte `A`-`Z` moved down by 32, every other byte kept |
| Collation.Key | main.py:27-28 | the compared key: the lowered UTF-8 bytes of a string; meaning in `KeyIsEncodedAsciiFold` |
| Collation.NocaseCollation | main.py:26-28 | `(a<b)-(a>b)` on the ASCII-folded UTF-8 bytes; meaning in `CollationDecidedByAsciiFold`, `CollationSign` and `CollationTransitive` |
| Collation.IntendedCollation | main.py:26-28 | reference definition of a case-insensitive collation: negative when the first lowered string sorts first; meaning in `IntendedCollationOrder` |
| Collation.KeyIsEncodedAsciiFold | main.py:27-28 | folding the bytes of the UTF-8 encoding equals encoding the string with only its ASCII capitals lowered |
| Collation.CollationDecidedByAsciiFold | main.py:26-28 | the result is 1 iff the ASCII-folded first string is smaller by code point, -1 iff it is larger, 0 iff the folded strings are equal |
| Collation.CollationSign | main.py:26-28 | the result is in {-1, 0, 1}, swapping the arguments negates it, and a string compared with itself gives 0 |
| Collation.CollationTransitive | main.py:26-28 | the order the result induces is consistent: a non-negative result for (a, b) and for (b, c) gives a non-negative result for (a, c) |
| Collation.AsciiCaseIgnored | main.py:27-28 | `"ABC"` and `"abc"` give 0 |
| Collation.SignInverted | main.py:26-28 | `("a", "b")` gives +1, where the intended collation gives -1 |
| Collation.CyrillicNotFolded | main.py:27-28 | `("Б", "б")` gives +1, where the intended collation gives 0 |
| Collation.IntendedCollationOrder | main.py:26-28 | the corrected collation is 0 iff the lowered strings are equal, negative iff the first sorts first, antisymmetric and transitive |
| Utf8.Encode | main.py:27 | `str.encode('utf-8')`: the concatenated encodings of the characters, empty iff the string is; meaning in `EncodeOrder` and `EncodeInjective` |
| Utf8.EncodeChar | main.py:27 | each character is one to four bytes; ASCII is its own single byte; any other character gives only bytes of 0x80 and above |
| Utf8.EncodeOrder | main.py:27-28 | byte order of UTF-8 encodings is code-point order of the strings |
| Utf8.EncodeInjective | main.py:27-28 | different strings have different encodings |
| Utf8.BinaryOrderIsCodePointOrder | main.py:181-182 | SQLite's byte comparison of stored text is code-point order |
| Lex.LessEqTotalOrder | main.py:27-28 | byte-string order is total and antisymmetric |
| Text.LowerStr | main.py:17-23 | `str.lower()`: same length, each character lowered on its own; meaning in `LowerStrIdempotent` |
| Text.ParseInt | main.py:147 | `int()` on a text: surrounding whitespace stripped, an optional sign, then one or more digits, otherwise a failure; meaning in `ParseIntStr`, `ParseIntAccepts` and `ParseIntRejects` |
| Text.Str | main.py:170-173 | `str()` of an integer: a `-` for negatives, then the decimal digits without leading zero; meaning in `ParseIntStr` and `CanonicalRoundTrip` |
| Text.LowerStrIdempotent | main.py:17-23 | lowering twice is lowering once |
| Text.ParseIntStr | main.py:147 | `int(str(n)) == n` for every integer |
| Text.ParseIntAccepts | main.py:147 | `int()` accepts surrounding whitespace and a sign |
| Text.ParseIntRejects | main.py:147 | `int()` rejects an empty text, a bare sign, a letter and a fraction |
| Text.CanonicalRoundTrip | main.py:181-182 | a digit text without a leading zero is the decimal text of its value |
| Text.DigitsOrder | main.py:177-182 | for digit texts of one length, text order is numeric order |
| Text.StrLeTotalOrder | main.py:181-182 | text comparison is a total order |
| Dates.Digits | main.py:140 | zero-padded decimal: exactly `width` digits, whose value is the number |
| Dates.Compact | main.py:140 | a widget date's `yyyyMMdd` text has eight digits |
| Dates.CompactOrder | main.py:177-182 | comparing two `yyyyMMdd` texts is comparing the dates, both strictly and non-strictly, and equal texts mean equal dates |
| Dates.CompactCanonical | main.py:181-182 | a widget date's text does not start with `0` |
| Dates.Slice | main.py:174 | Python slicing: the in-range slice, the rest of the text when only the end is past it, and empty when the start is past the end or the end is before the start |
| Dates.Display | main.py:174 | `date[6:] + '.' + date[4:6] + '.' + date[:4]`, the stored text's day, month and year parts joined by dots; meaning in `DisplayEight`, `DisplayOfDate` and `DisplayShort` |
| Dates.DisplayEight | main.py:174 | an eight-character date shows as ten characters with dots at 2 and 5, from which it can be read back |
| Dates.DisplayFromDisplay | main.py:174 | every `DD.MM.YYYY`-shaped text is the display of the text read out of it |
| Dates.DisplayOfDate | main.py:174 | a widget date shows as day, month, then four-digit year |
| Dates.DisplayShort | main.py:174 | a short date text is not rejected: `"2024"` shows as `"..2024"` |
| Store.Database.NewFile | main.py:47 | a new file has no table, no rows and an unused counter |
| Store.Database.Existing | main.py:47 | an existing file keeps its table and rows |
| Store.Database.CreateDb | main.py:31-40 | after `create_db` the table exists, with its rows and counter unchanged |
| Store.CreateDbTwice | main.py:31-40 | running `create_db` twice is running it once |
| Store.Database.Insert | main.py:145-147 | a successful INSERT appends exactly one row with the next rowid and keeps the earlier rows; a failed one changes nothing |
| Store.InsertOutcome | main.py:145-147 | the INSERT succeeds iff the table exists, all four numbers fit 64 bits and the counter is below its maximum; the new rowid is one more than the last |
| Store.BoundText | main.py:182 | the text an unquoted integer-literal bound (non-empty, at most 2^63-1) is compared as: the decimal text of its value; meaning in `BoundTextIsNumber` |
| Store.DateBoundIsLiteral | main.py:177-182 | an eight-digit `yyyyMMdd` bound is an integer literal SQLite reads within 64 bits |
| Store.SelectPeriod | main.py:181-182 | the rows, in table order, whose date text lies between the two bounds; never more rows than stored; meaning in `SelectPeriodMembers`, `SelectPeriodCounts` and `SelectPeriodKeepsOrder` |
| Store.ChartQuery | main.py:177-182 | the SELECT `show_chart` runs, with both widget dates spliced in as numbers; meaning in `Window.ChartPeriod` and `Window.ReversedPeriodIsEmpty` |
| Store.BoundTextIsNumber | main.py:182 | a non-empty digit bound within 64 bits, spliced in as a number, compares as the decimal text of its value |
| Store.SelectPeriodMembers | main.py:181-182 | a row is returned iff it is stored and its date lies between the bounds, both included |
| Store.SelectPeriodCounts | main.py:181-187 | each selected row comes back as often as it is stored: duplicates are kept |
| Store.SelectPeriodKeepsOrder | main.py:181-182 | results come back in table order |
| Store.EmptyPeriod | main.py:181-182 | with the upper bound below the lower bound nothing is returned |
| Store.OneDayPeriod | main.py:181-182 | with equal bounds exactly the rows of that date are returned |
| Window.EmptyRow | main.py:168 | reference definition of the row `insertRow` adds: six empty cells; `FilledRow` and `MainWindow.AppendRow` are proved from it |
| Window.RemoveAt | main.py:161 | reference definition of Qt's `removeRow`: row i dropped, the others kept in order, no change out of range; the countdown loop of `MainWindow.FillTable` is proved to empty the table with it |
| Window.InsertAt | main.py:168 | reference definition of Qt's `insertRow`: an empty row before row i or at the end, no change for other indices; `MainWindow.AppendRow` is proved against it |
| Window.SetAt | main.py:169-174 | reference definition of Qt's `setItem`: exactly one cell changes, a cell outside the table is ignored; `FilledRow` proves six calls build the record's row |
| Window.Table.constructor | main.py:103-104 | the table widget starts with no rows |
| Window.Table.RemoveRow | main.py:161 | the rows after removing row i |
| Window.Table.InsertRow | main.py:168 | the rows after inserting an empty row at i |
| Window.Table.SetItem | main.py:169-174 | the rows after setting one cell |
| Window.RowOf | main.py:169-174 | a record's row has the six columns |
| Window.Render | main.py:166-174 | reference definition of the filled table: one `RowOf` per record, in table order; `MainWindow.FillTable` is proved to leave exactly this |
| Window.RenderSnoc | main.py:166-174 | one more record gives one more row at the end |
| Window.RowReadsBack | main.py:169-173 | a row shows the record's name, and `int()` reads its four numbers back |
| Window.RowDateReadsBack | main.py:174 | the stored date can be read back out of the date column |
| Window.FilledRow | main.py:167-174 | a new last row with its six cells set in column order is the record's row |
| Window.MainWindow.FillTable | main.py:158-174 | the countdown loop removes every row; the second loop leaves exactly one row per stored record, in table order |
| Window.MainWindow.AppendRow | main.py:166-174 | one round of the second loop appends the record's row and changes nothing else |
| Window.ReadEntry | main.py:135-147 | the entry is missing iff one of the six fields is empty; it is read iff none is empty and all four numbers parse, and it is then exactly the parsed values; otherwise the first unparsable field in parameter order is reported |
| Window.ReadEntryRoundTrip | main.py:135-147 | fields holding a name, a date and the decimal text of four numbers read back as exactly those values |
| Window.DateNeverMissing | main.py:140-142 | a widget date is never an empty field, so the warning depends on the five text fields only |
| Window.AddOutcomeOf | main.py:142-147 | a press adds a record iff the fields read and the INSERT succeeds; it warns iff a field is empty; it reports a bad number in field f iff reading stopped at f; the new id is the next rowid |
| Window.MainWindow.AddDish | main.py:134-156 | on success one record with the parsed values is appended, earlier records are kept, the table shows all records and the text fields are emptied; on a warning, bad number or INSERT error nothing changes |
| Window.MainWindow.Commit | main.py:145-155 | the INSERT, then on success the refreshed table and the emptied text fields; on failure nothing changes |
| Window.MainWindow.constructor | main.py:44-55 | after start-up the table exists, the stored rows are kept, the table widget shows them all, the text fields are empty, the input date and the period's end are today, and the period's start is the widget's default date |
| Window.MainWindow.ShowChart | main.py:176-187 | the plotted names and calories are those of the records the range query returns, in its order |
| Window.Columns | main.py:183-187 | the loop builds the name list and the calorie list of the rows, of equal length and in row order |
| Window.Names | main.py:185-186 | reference definition of the plotted names: one per fetched row, in order; `Columns` and `MainWindow.ShowChart` are proved to build it |
| Window.CaloriesOf | main.py:185-187 | reference definition of the plotted calories: one per fetched row, in order; `Columns` and `MainWindow.ShowChart` are proved to build it |
| Window.ChartPeriod | main.py:176-182 | for records stored by the program, the chart covers exactly those dated from the first chosen date through the second, both included |
| Window.ReversedPeriodIsEmpty | main.py:176-182 | with the first chosen date after the second the chart is empty |
| Window.ChartOfTwo | main.py:176-187 | dishes on 2024-01-01 and 2024-01-05, charted from 2024-01-01 to 2024-01-03: only the first is shown |

## Left out

- The widgets, layouts, tabs, message box and plotting (main.py:57-132, 143, 189-205) are not modelled. Only the `names` and `calories` lists handed to `ax.plot` are.
- The debug `print` in `show_chart` (main.py:179) is output only.
- `date.today()` (main.py:89, 116) is a parameter of the window's constructor.
- The SQLite file, connection, cursor, `commit` and SQL text are not modelled. A file's contents are an in-memory object, and rows are returned in insertion (rowid) order: there is no `ORDER BY`.
- A pre-existing `dishes` table with another schema is not modelled. Neither are rows with non-integer numbers, or stored dates other than text.
- Exceptions from `add_dish` (`ValueError` from `int()`, the INSERT's errors) become outcomes with nothing changed. What the Qt event loop does after an uncaught exception in a slot is not modelled.
- Window.MainWindow.AddDish: the final `date_input.clear()` (main.py:156) is not modelled. The date the widget holds after it is Qt's behaviour, so the model keeps the date it had.
- Like.LikeEscape: a backslash in the template passes through the replace chain unescaped and can produce any regular expression. The model decides such a template only when every backslash is directly followed by `_`, which gives an escaped dot (a literal `.`); for every other backslash template it gives `None` and does not decide a match.
- Text.LowerStr: `str.lower()` is modelled for ASCII, the Latin-1 capitals and the basic Cyrillic capitals (U+0400..U+042F). Every other character maps to itself.
- Text.ParseInt: `int()` is modelled on ASCII whitespace, an optional sign and ASCII digits. Underscores between digits, non-ASCII digits and non-ASCII whitespace are not accepted by the model. Python's limit on integer string conversion (by default `int()` rejects a text of more than 4300 digits with `ValueError`) is not modelled either: for such a field the model parses the number, and `Window.AddOutcomeOf` reports the INSERT's `Overflow` where the program stops in `int()`.
- Store.BoundText, Store.ChartQuery: only bounds that SQLite reads as integer literals are modelled, which covers every bound the program sends (eight digits). An empty bound, which makes the query a syntax error, and a bound above 2^63-1, which SQLite reads as a REAL and compares as that REAL's text, are outside the model.
- Registering the helpers with the connection (main.py:50-53) is commented out in the source and is not modelled.

## Findings

| source | as written | input that shows it | evidently intended | confidence | as-written member | corrected member |
|---|---|---|---|---|---|---|
| main.py:17-22 | `\|` is not escaped, so it splits the pattern into regex alternatives | template `x\|y`, value `y`: matches | `\|` matches itself, as in SQL LIKE (Like.SqlLikeIsSpan) | high, not executed | Like.BarIsAlternation | Like.SqlLike |
| main.py:23 | `re.match` anchors at the start only, so a template matching a prefix of the value succeeds | template `a`, value `abc`: matches | the whole value must match, as in SQL LIKE (Like.SqlLikeIsSpan) | high, not executed | Like.PrefixIsEnough | Like.SqlLike |
| main.py:22-23 | `.` and `.*?` without `re.DOTALL` do not match a newline | template `_`, value a single newline: no match | `_` and `%` match any character (Like.SqlLikeIsSpan) | medium, not executed | Like.UnderscoreSkipsNewline | Like.SqlLike |
| main.py:26-28 | `(a < b) - (a > b)` is +1 when the first argument is smaller, which is the reverse of a collation's convention | `"a"`, `"b"`: +1 | negative when the first argument sorts first (Collation.IntendedCollationOrder) | high, not executed | Collation.SignInverted | Collation.IntendedCollation |
| main.py:27-28 | `bytes.lower()` folds only ASCII capitals, yet the helper is meant for Russian text | `"Б"`, `"б"`: +1, not equal | case-insensitive for Cyrillic letters too (Collation.IntendedCollationOrder) | high, not executed | Collation.CyrillicNotFolded | Collation.IntendedCollation |
