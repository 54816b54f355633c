# Score lookup: parse and lookup core

This project models the logic behind a static exam-score lookup page.
The page loads a score file `diem_thi.csv`, parses it once into an ordered list of student records (`studentData`), and then finds one record by exam candidate number (SBD, *số báo danh*).

The model covers five parts of `script.js`:

- **Score coercion** (`isValidScore`, `parseScore`), in module `Scores`.
  - An empty cell becomes `null`.
  - `VẮNG`/`VANG` in any case becomes the marker `VẮNG`.
  - A cell whose first comma, turned into a point, parses as a number becomes that number.
  - Any other cell is kept unchanged.
- **The total** (`calculateTotalScore`), in module `Scores`: a loop that adds the numeric scores of Toán, Văn and Anh.
- **The CSV parser** (`parseCSV`), in module `Csv`.
  - It drops blank lines.
  - It splits the header line on every comma.
  - It splits each data line with a quote-aware character loop.
  - It keeps only rows with one cell per header.
  - It types each cell by its header: the known text columns keep the raw cell, every other column goes through `parseScore`.
  - It adds the derived field `Tổng điểm`.
- **The lookup** (`findStudentBySBD`), in module `Lookup`. It picks the SBD header from a fixed candidate list, tested against the first record. It then returns the first record whose SBD, converted with `String` and trimmed, equals the trimmed query.
- **The session array `studentData`**: a field of the class `Lookup.Session`. It is replaced by the result of a parse and read by the lookup.

Two support modules hold the JavaScript built-ins the code relies on:

- `JsText`: `trim`, `split` and `join` on one character, `replace` of the first occurrence of a character, and `toUpperCase`/`toLowerCase`.
- `JsValue`: the cell values `null`/string/number, truthiness, `String(v)`, `Array.prototype.filter` and `Array.prototype.find`, and `KeepMap`, the specification of a loop that pushes the image of every element that passes a test.

The host's number conversions are parameters of every operation that needs them (the datatype `Host`):

- `parseFloat`: a partial function from text to a real, where `None` stands for NaN;
- `String(x)` of a number.

The loops of the source are methods:

- the character loop: `Csv.SplitRow`;
- the line loop: `Csv.ParseRows`, called by `Csv.ParseCsv`;
- the `forEach` that fills a record: `Csv.BuildStudent`;
- the accumulation of the total: `Scores.CalculateTotalScore`;
- the key search with `break` and the first-match scan: `Lookup.Session.FindStudentBySbd`.

Each method is proved equal to a specification function. The properties are proved about those functions.

Two behaviours of the code that its comments and names do not make plain:

- **Case.** The comment at script.js:179 speaks of normalizing both numbers, but the only normalization is `trim()`. The comparison in `findStudentBySBD` (script.js:186-190) is an exact `===` of trimmed strings with no case folding, so the lookup is case-sensitive (`Lookup.LookupIsCaseSensitive`).
- **The `Số báo danh` column.** Its lower-cased header, `số báo danh`, is not in the list of text columns (script.js:60), so its cells go through `parseScore`:
  - an empty number is stored as `null` and is found by the query `null` (`Lookup.EmptyLongHeaderSbdReadsNull`);
  - a number such as `012` is stored as 12 and compared through `String(12)` (`Lookup.NumericLongHeaderSbdComparedAsNumber`).

  Only the header `SBD`/`sbd` keeps the number as text.

## Model

| member | source | states |
|---|---|---|
| `Scores.IsValidScore` | script.js:7-17 | `null` is never valid. A number is valid exactly when it is non-zero (truthy). A string is valid exactly when it is non-empty, does not upper-case to `VẮNG` or `VANG`, and `parseFloat` accepts it after its first comma becomes a point. |
| `Scores.ParseScore` | script.js:19-29 | The result is `null` exactly for a falsy cell. It is a number exactly when `isValidScore` holds; that number is what `parseFloat` gives for the cell with its first comma turned into a point, and a number cell is returned as is. Any string result is the marker `VẮNG` or the cell itself. The marker comes back exactly for a non-empty string that upper-cases to `VẮNG` or `VANG`. |
| `Scores.AbsentSpellings` | script.js:10 | `VẮNG`, `vắng`, `VANG` and `vang` are all recognised as the absent marker. |
| `Scores.ParseScoreExamples` | script.js:19-29 | `vắng` and `vang` give `VẮNG`; `8,5` gives 8.5 when `parseFloat("8.5")` is 8.5; the empty cell gives `null`; `abc` is kept when `parseFloat` rejects it. |
| `Scores.ParsedCellIsNotNumericText` | script.js:19-29 | No string that `parseScore` returns from a cell still passes `isValidScore`. |
| `Scores.ContributionIsNumericValue` | script.js:34-40 | A subject adds exactly the number it holds. A missing, `null`, `VẮNG` or text subject adds 0, and a subject equal to 0 is skipped. |
| `Scores.CalculateTotalScore` | script.js:31-43 | The loop's result is the running total over Toán, Văn and Anh in that order. |
| `Scores.TotalIsSumOfNumbers` | script.js:31-43 | When no subject holds numeric text, the total is the sum of the numbers held by Toán, Văn and Anh. |
| `Scores.TotalScoreExamples` | script.js:31-43 | 8+7+9 gives 24; an absent subject adds nothing (15); `VẮNG` and `null` give 0. |
| `Csv.SplitRow` | script.js:66-82 | The character loop with its quote flag computes the cells of the line. |
| `Csv.RunTrimsRawCells` | script.js:66-82 | After any prefix, the loop's cells are the raw cells trimmed, and the current cell and flag are those of the raw scan. |
| `Csv.RawRunKeepsText` | script.js:66-82 | After any prefix, the raw cells joined by commas are the text scanned so far with its quotes removed, and no raw cell holds a quote. |
| `Csv.RunCountsCommas` | script.js:70-79 | After any prefix, the flag is the parity of the quotes seen, and one cell has been pushed per comma outside quotes. |
| `Csv.RowCellsAreTrimmedFields` | script.js:66-82 | The cells are the raw fields, trimmed. The raw fields joined by commas give back the line with its quotes removed. There is one cell more than there are commas outside quotes. |
| `Csv.RowCellsAreClean` | script.js:66-82 | No cell contains a double quote, and every cell is trimmed. |
| `Csv.RowCellsOfJoin` | script.js:66-82 | Cells without commas or quotes, joined by commas, split back into those cells, trimmed. |
| `Csv.QuotedCommaStays` | script.js:70-79 | A comma inside quotes stays in its cell: `"a,b",c` gives exactly the two cells `a,b` and `c`, trimmed. |
| `Csv.QuotedNameExample` | script.js:66-82 | `"Nguyễn, Văn A",10` gives the two cells `Nguyễn, Văn A` and `10`. |
| `Csv.NonBlankLinesAreTheNonBlankOnes` | script.js:49 | The kept lines are exactly the lines of the text whose trim is non-empty, and there are no more of them than there are lines. |
| `Csv.KeepAllNonBlank` | script.js:49 | Filtering lines that are all non-blank keeps every one of them. |
| `Csv.Headers` | script.js:56 | Splitting the header line always gives at least one header. |
| `Csv.TypedCell` | script.js:86-93 | A known text column stores the raw cell. Any other column stores a value that is never numeric text. |
| `Csv.Students` | script.js:62-102 | No more records than data lines. |
| `Csv.StudentsComeFromAcceptedLines` | script.js:62-98 | Every record comes from a non-blank data line with one cell per header, and every such line yields its record. |
| `Csv.StudentsAppend` | script.js:62-102 | Records keep the order of their lines: the records of `a + b` are those of `a` followed by those of `b`. |
| `Csv.ParsedStudents` | script.js:45-114 | The result is empty when the text has fewer than two non-blank lines. Otherwise there are at most as many records as non-blank lines minus one. |
| `Csv.StudentsSnoc` | script.js:84-98 | One more data line adds its record when it is accepted, and nothing otherwise. |
| `Csv.ParseRows` | script.js:62-102 | The loop over the data lines computes the records of those lines. |
| `Csv.ParseCsv` | script.js:45-114 | The line loop, which skips blank lines and rows with the wrong cell count, computes the parsed records of the text. |
| `Csv.ParseOfJoinedLines` | script.js:49-62 | A header line and non-blank data lines joined by newlines parse to the records of those data lines, under the trimmed headers. |
| `Csv.BuildStudent` | script.js:85-95 | The `forEach` over the headers, followed by the total, builds the record of the row. |
| `Csv.FieldsKeys` | script.js:86-93 | The keys of the record being filled are the headers seen so far. |
| `Csv.FieldsHoldLastColumn` | script.js:86-93 | When two headers have the same name, the record holds the typed cell of the later column. |
| `Csv.FieldsScoreCells` | script.js:86-93 | No score column of a record holds text that still reads as a number. |
| `Csv.SubjectsAreScoreColumns` | script.js:33 | Toán, Văn and Anh are not text columns, so they are coerced with `parseScore`. |
| `Csv.KnownColumnSpellings` | script.js:60 | Every header that lower-cases to `sbd` or `họ và tên` is a text column, so `SBD`, `sbd` and `Họ và tên` are. `Số báo danh` and `Số Báo Danh` are not. |
| `Csv.LongHeaderIsScoreColumn` | script.js:60 | `Số báo danh` and `Số Báo Danh` lower-case to `số báo danh`, which is not in the list of text columns, so their cells go through `parseScore`. |
| `Csv.StudentRecordKeys` | script.js:86-95 | A record has one key per header, plus `Tổng điểm`. |
| `Csv.StudentRecordCells` | script.js:86-93 | Every column other than `Tổng điểm` holds the typed cell of its last occurrence in the row. |
| `Csv.StudentRecordTotal` | script.js:95 | `Tổng điểm` holds the sum of the numbers held by Toán, Văn and Anh in the same record, and overwrites any parsed column of that name. |
| `Csv.RecordOfJoinedCells` | script.js:63-96 | A trimmed line of clean cells joined by commas, one per header, is accepted, and its record is built from exactly those cells. |
| `JsText.TrimEmpty` | script.js:49 | A line trims to nothing exactly when all of its characters are whitespace. |
| `JsText.JoinSplit` | script.js:49 | Joining the pieces of a split with the same separator gives back the text. |
| `JsText.SplitPiecesLackSeparator` | script.js:56 | No piece of a split holds the separator. |
| `JsText.SplitJoin` | script.js:56 | Splitting a join of pieces that have no separator gives back the pieces. |
| `JsText.ReplaceFirst` | script.js:12 | Only the first occurrence of the character is replaced, and the length is unchanged. |
| `JsText.TrimPadded` | script.js:180 | A trimmed string surrounded by whitespace trims back to itself. |
| `JsValue.FilterKeepsPassing` | script.js:49 | `filter` keeps exactly the elements that pass the test, and no more elements than there were. |
| `JsValue.FilterAllPass` | script.js:49 | When every element passes, `filter` keeps them all. |
| `JsValue.KeepMapMembers` | script.js:84-98 | Every pushed record is the image of a kept line, and every kept line has its record pushed. There are no more records than lines. |
| `JsValue.KeepMapAppend` | script.js:62-98 | The pushed records keep the order of the lines. |
| `JsValue.FindNone` | script.js:186-191 | `find` returns nothing exactly when no record passes the test. |
| `JsValue.FindIsFirst` | script.js:186-191 | What `find` returns is the first record, in order, that passes the test. |
| `Lookup.FirstPresent` | script.js:162-172 | The chosen key is the first candidate that is a key of the first record. There is none exactly when no candidate is a key. |
| `Lookup.SbdUnderLongHeader` | script.js:162-172 | A first record without `SBD` or `sbd` but with `Số báo danh` is searched under `Số báo danh`. |
| `Lookup.SbdUnderShortHeader` | script.js:162-172 | A first record with `SBD` is searched under `SBD`. |
| `Lookup.LookupSingle` | script.js:180-201 | With a single record, the lookup finds it exactly when its SBD matches the query. |
| `Lookup.MatchesTrimmedField` | script.js:186-190 | A record whose SBD reads as a trimmed string matches exactly the queries that trim to that string. |
| `Lookup.LookupNull` | script.js:149-177 | `null` comes back exactly when there is no data, or when the first record has none of the candidate headers. |
| `Lookup.LookupNotFound` | script.js:180-201 | With an SBD column, `undefined` comes back exactly when no record's SBD, as a string and trimmed, equals the trimmed query. |
| `Lookup.LookupFindsFirstMatch` | script.js:180-201 | A record that is found is the first one in data order whose SBD matches the query. |
| `Lookup.LookupIsCaseSensitive` | script.js:186-190 | A query padded with spaces finds the record. The same number in lower case does not. |
| `Lookup.EmptyLongHeaderSbdReadsNull` | script.js:86-93 | An empty `Số báo danh` cell is stored as `null`, and only a query that trims to `null` finds it. |
| `Lookup.NumericLongHeaderSbdComparedAsNumber` | script.js:86-93 | A `Số báo danh` cell that reads as a number is stored as that number, and the query is compared with the host's rendering of it. |
| `Lookup.Session.constructor` | script.js:5 | The session starts with no records. |
| `Lookup.Session.Load` | script.js:116-146 | After a successful fetch, `studentData` is the parse of the text, and the load reports success exactly when that parse is non-empty. After a failed fetch, nothing changes and failure is reported. |
| `Lookup.Session.FindStudentBySbd` | script.js:148-202 | The key search with `break` and the first-match scan return the lookup result for the current `studentData`, changing nothing. |

## Left out

- The page wiring, the click handler and `displayScores`, with its HTML and `toFixed(2)` formatting (script.js:1-4, 204-297). This is user interface.
- The fetch in `loadStudentData`, its async control flow and its messages. `Lookup.Session.Load` takes the outcome of the fetch as a parameter: `None` when it failed, otherwise the text. The `catch` branch (script.js:133-136) is reached when `fetch` rejects, for instance on a network error. That outcome is `None`: the data stays as it was and `false` is returned.
- All `console` logging and the `GV-000015` debug lookup inside `parseCSV` (script.js:105-111). They do not affect any returned value.
- IEEE-754 arithmetic.
  - Numbers are reals and `+=` is exact.
  - `parseFloat` (with its lenient prefix parsing) and `String(x)` are parameters of the host.
  - NaN is `None`; infinities are not modelled.
- Scores.ParseScore: for a truthy number cell the model returns the number itself, where the source returns `parseFloat(x)`, which gives `x` back for every finite number. No cell that `parseCSV` produces is a number before coercion.
- The Unicode tables behind `toUpperCase`/`toLowerCase`. Only ASCII, the Latin-1 letters, Ă Đ Ĩ Ũ Ơ Ư and the block U+1EA0..U+1EF9 are mapped. Every other character is left as it is.
- Strings are sequences of code points, not of UTF-16 code units. The scan treats each code point as one character, which is the same for every character of the score file outside the astral planes.
- Object keys are a map. JavaScript's special handling of `__proto__` as a key, and its ordering of integer-like keys, are not modelled.
- `undefined` is never a stored value. A key missing from a record reads as the string `undefined` in the lookup, as `String(undefined)` does.
- convert_excel_to_csv.py is not part of this model. It wraps a spreadsheet library and the file system.
