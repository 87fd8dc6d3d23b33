# NGX daily price list: table pipeline model

`scrape_and_push.py` drives a headless browser to the NGX equities price
list, reads the rendered price table, cleans it and overwrites a Google
Sheet with it. Almost all of that is I/O. This project models the pure data
path inside `scrape_and_push()`:

1. **Extraction** (`text.dfy`, `tables.dfy`): every `<th>` text and every
   `<td>` text goes through Python's `str.strip()`. The parsed HTML is the
   input: a list of raw header strings and a list of rows of raw cell
   strings.
2. **Emptiness checkpoint** (`tables.dfy`): the table is rejected when
   pandas calls it empty, i.e. when it has no data rows or no columns.
3. **Company cleaning** (`text.dfy`, `tables.dfy`): each value in the
   `"Company"` column becomes `value.split(r"\s|\[", n=1)[0]`, i.e. what
   comes before the first whitespace character or `[`. If there is no
   such column, `df["Company"]` raises `KeyError`. If there are two,
   pandas returns a DataFrame, which has no `.str`.
4. **Upload payload** (`tables.dfy`): the sheet receives the header row
   followed by every data row, in order.

`pipeline.dfy` composes the four steps into `Pipeline.Run`. It proves
which inputs are rejected and with which error, what every cell of the
payload is, and that running the pipeline again on its own payload gives
the same payload.

Strings are `seq<char>` over Unicode scalar values. `Text.IsSpace` is
Python's whitespace class, the one that both `str.strip()` and the regex
class `\s` use: U+0009–U+000D, U+001C–U+001F, U+0020, U+0085, U+00A0,
U+1680, U+2000–U+200A, U+2028, U+2029, U+202F, U+205F and U+3000. It
follows current Unicode data, so it approximates the set of any given
Python build.

The recursive helpers `TrimStart`, `TrimEnd` and `FirstDelim`, and
`SplitOnce`, have their specifications in separate lemmas
(`TrimStartSpec`, `TrimEndSpec`, `FirstDelimSpec`, `SplitOnceSpec`). The
callers' proofs then stay small.

`Pipeline.RunExample` is proved with four helper lemmas that serve only
that example: `Pipeline.RunOfStripped`, `Pipeline.ExampleExtract`,
`Pipeline.ExampleClean` and `Pipeline.CleanTwoRows`. `CleanTwoRows`
covers only two-by-two tables whose first header is "Company".

## Model

| member | source | states |
|---|---|---|
| Text.TrimStartSpec | scrape_and_push.py:85-87 | the leading-whitespace step of `strip()` removes only whitespace, keeps a suffix of the text, and leaves nothing that starts with whitespace |
| Text.TrimEndSpec | scrape_and_push.py:85-87 | the trailing-whitespace step of `strip()` removes only whitespace, keeps a prefix of the text, and leaves nothing that ends with whitespace |
| Text.Strip | scrape_and_push.py:85-87 | a stripped header or cell text neither starts nor ends with whitespace and is no longer than the raw text |
| Text.StripSplits | scrape_and_push.py:85-87 | the raw text is a whitespace-only prefix, then the stripped text, then a whitespace-only suffix |
| Text.StripUnique | scrape_and_push.py:85-87 | conversely, whenever a text is whitespace + trimmed middle + whitespace, stripping yields that middle, so `Strip` is fully characterised |
| Text.StripTrimmed | scrape_and_push.py:85-87 | text with no surrounding whitespace is left unchanged by `strip()` |
| Text.StripIdempotent | scrape_and_push.py:85-87 | stripping twice equals stripping once |
| Text.FirstDelimSpec | scrape_and_push.py:100 | the search for `\s\|\[` stops at the first match: nothing before it matches, and it is a match unless it is the end of the text |
| Text.SplitOnceSpec | scrape_and_push.py:100 | the `n=1` split gives one part (the whole value) exactly when nothing matches, otherwise two parts; the first has no delimiter, and the two parts joined by the matched character rebuild the value |
| Text.CleanName | scrape_and_push.py:100 | the cleaned company value is a prefix of the original, contains no whitespace and no `[`, and stops either at the end of the value or just before a delimiter |
| Text.CleanNameUnique | scrape_and_push.py:100 | any prefix with those three properties equals the cleaned value, so `CleanName`'s contract determines it uniquely |
| Text.CleanNameNoDelim | scrape_and_push.py:100 | a value with no whitespace and no `[` comes back unchanged; the `n=1` split finds nothing to cut |
| Text.CleanNameIdempotent | scrape_and_push.py:100 | cleaning a cleaned company value changes nothing |
| Text.CleanNameTrimmed | scrape_and_push.py:100 | a cleaned value has no surrounding whitespace, so stripping it again is a no-op |
| Text.CleanNameFootnoted | scrape_and_push.py:100 | `"ABC PLC [NOTE]"` cleans to `"ABC"` |
| Text.CleanNameBracket | scrape_and_push.py:100 | `"DANGCEM[BLS]"` cleans to `"DANGCEM"`: a `[` cuts as well as whitespace does |
| Text.CleanNameBare | scrape_and_push.py:100 | `"XYZ"` is kept whole |
| Tables.StripAll | scrape_and_push.py:85-88 | the stripped list has the same length and order as the raw list, one stripped entry per raw entry |
| Tables.Extract | scrape_and_push.py:85-89 | the extracted table has the stripped headers, one row per body row in order, each row its cells stripped in order, and every header and cell trimmed |
| Tables.ExtractStripped | scrape_and_push.py:85-89 | extracting text that is already stripped returns the same table |
| Tables.Validate | scrape_and_push.py:91-95 | a table is rejected with `EmptyTable` exactly when it has no rows or no columns; otherwise it passes unchanged |
| Tables.FindFrom | scrape_and_push.py:100 | the header search returns the first position from `from` on that holds the name, or none exactly when no later header holds it |
| Tables.ColumnIndex | scrape_and_push.py:100 | `df[name]` gives the one position holding `name`. `MissingColumn` comes back exactly when no header is `name` (the KeyError), and `DuplicateColumn` exactly when two headers are |
| Tables.CleanRow | scrape_and_push.py:100 | one row keeps its length, its Company cell is cleaned, and every other cell is unchanged |
| Tables.CleanTable | scrape_and_push.py:100 | cleaning fails exactly when the Company header is missing or repeated, with that error. On success the headers, the row count and every row length stay the same. Cells under "Company" are replaced by `CleanName` of themselves; all other cells are unchanged |
| Tables.CleanTableStripped | scrape_and_push.py:85-100 | cleaning a fully stripped table leaves it fully stripped |
| Tables.CleanTableIdempotent | scrape_and_push.py:100 | cleaning an already-cleaned table succeeds and returns the same table |
| Tables.UploadMatrix | scrape_and_push.py:125 | the payload has `|rows| + 1` entries; entry 0 is the header list and entry `i + 1` is data row `i` |
| Tables.UploadMatrixInverse | scrape_and_push.py:125 | the table can be read back from the payload: its first row and the rest give the headers and rows |
| Pipeline.Run | scrape_and_push.py:85-125 | a successful run's payload is the stripped header row followed by one row per scraped row, in order, each as long as the scraped row |
| Pipeline.RunOutcome | scrape_and_push.py:85-100 | the run fails with `EmptyTable` exactly when there are no rows or no headers. Otherwise it fails with `MissingColumn` exactly when no stripped header is "Company", and with `DuplicateColumn` exactly when two are. It succeeds exactly in the remaining case |
| Pipeline.RunCell | scrape_and_push.py:85-125 | every payload data cell is the stripped scraped text, cut to its leading token when its column is the "Company" column, and left as it is otherwise |
| Pipeline.RunCompanyValues | scrape_and_push.py:100 | every company value in the payload is a prefix of the stripped scraped value and holds no whitespace and no `[` |
| Pipeline.RunIdempotent | scrape_and_push.py:85-125 | running the pipeline on its own payload (header row as headers, the rest as rows) succeeds and gives the same payload |
| Pipeline.RunExample | scrape_and_push.py:85-125 | headers `["Company","Price"]` with rows `["ABC PLC [X]","12.50"]`, `["DEF Ltd","7.00"]` give the payload `["Company","Price"]`, `["ABC","12.50"]`, `["DEF","7.00"]` |

## Left out

- Browser session: the Chrome options, navigation to the URL, `handle_cookie_consent`, the 20-second waits, the `time.sleep` calls, the "show all rows" click and `driver.quit()` in `finally` (`scrape_and_push.py:39-47`, `:53-81`, `:135-137`). These are browser-process I/O and timing.
- HTML parsing by BeautifulSoup (`:83`), including a missing `<thead>`/`<tbody>`. This is a foreign library. Its output, the header and cell texts, is the model's input.
- Ragged rows. `pd.DataFrame(rows, columns=headers)` (`:91`) pads rows shorter than the widest one with missing values. It raises `ValueError` when the widest row's width differs from the header count. The model does not check row widths: every row is kept as scraped, and `Tables.CleanRow` leaves unchanged a row too short to have a Company cell.
- Pipeline.RunOutcome: its success case also covers ragged input, where the program raises instead. For example, headers `["Company","Price"]` with the one row `["A B","1","x"]` give the payload `["Company","Price"]`, `["A","1","x"]`. For such input the lemma describes the model, not the program.
- Pipeline.Run: its row lengths follow the scraped rows, even for ragged input that the program rejects at `:91`.
- Pipeline.RunCell: it also describes cells beyond the header count (`j >= |rawHeaders|`), which exist only in ragged input that the program rejects at `:91`.
- Tables.Validate: for zero headers with rows that hold cells, pandas raises a `ValueError` from the `DataFrame` constructor, not from the `df.empty` check. When every row is itself empty, the constructor builds a frame with no columns, and the `ValueError` comes from `df.empty` at `:94-95`. The model reports `EmptyTable` in both cases, since both end the run with a `ValueError` before cleaning.
- CSV output and the dated filename from `datetime.now()` (`:21`, `:32`, `:101`). These depend on the clock and the file system.
- `log_message` (`:34-37`): console output and an append-only log file with wall-clock timestamps.
- The Google Sheets side: the `GOOGLE_CREDS_JSON` environment check, JSON credential parsing, `gspread` authorisation, opening the spreadsheet, `sheet.clear()` and `sheet.update` (`:105-126`). These are network and foreign API calls. Only the payload shape of `:125` is modelled.
- The `except`/`raise` wrapper (`:130-133`). It only logs and re-raises. In the model, errors are `Result` values returned unchanged by `Pipeline.Run`.
- Python's exact whitespace set depends on the Unicode database of the interpreter build; `Text.IsSpace` fixes the current one.
