/**
  `parseCSV` of the score lookup page: the quote-aware row splitter, the
  typing of each column, the filtering of rows by cell count, and the loop
  that turns the text of the score file into an ordered list of student
  records.
 */
module Csv {
  import opened JsText
  import opened JsValue
  import opened Scores

  /** Lower-cased headers whose column keeps the raw trimmed text. */
  const KnownStringColumns: seq<string> :=
    ["sbd", "họ và tên", "ngày tháng năm sinh", "giới tính", "số phòng", "điểm thi"]

  // ---------------------------------------------------------------------
  // The row splitter

  /** The variables of the character loop: the cells pushed so far, the
      cell being built and whether the scan is inside double quotes. */
  datatype Scan = Scan(values: seq<string>, current: string, inQuotes: bool)

  const Start: Scan := Scan([], "", false)

  /** One character of the loop: a quote flips the flag and is dropped, a
      comma outside quotes ends the cell (trimmed), anything else is kept. */
  function Step(st: Scan, c: char): Scan {
    if c == '"' then st.(inQuotes := !st.inQuotes)
    else if c == ',' && !st.inQuotes then Scan(st.values + [Trim(st.current)], "", st.inQuotes)
    else st.(current := st.current + [c])
  }

  /** The state after scanning all of `s`, starting from `st`. */
  function Run(st: Scan, s: string): Scan
    decreases |s|
  {
    if s == [] then st else Step(Run(st, s[..|s| - 1]), s[|s| - 1])
  }

  /** The cells of a (trimmed) data line: the cells the loop pushed, and
      the last one. */
  function RowCells(line: string): seq<string> {
    var st := Run(Start, line);
    st.values + [Trim(st.current)]
  }

  /** The character loop of `parseCSV` that splits one data line. */
  method SplitRow(line: string) returns (values: seq<string>)
    ensures values == RowCells(line)
  {
    values := [];
    var currentValue := "";
    var inQuotes := false;
    for j := 0 to |line|
      invariant Scan(values, currentValue, inQuotes) == Run(Start, line[..j])
    {
      assert line[..j + 1][..j] == line[..j];
      var c := line[j];
      if c == '"' {
        inQuotes := !inQuotes;
      } else if c == ',' && !inQuotes {
        values := values + [Trim(currentValue)];
        currentValue := "";
      } else {
        currentValue := currentValue + [c];
      }
    }
    assert line[..|line|] == line;
    values := values + [Trim(currentValue)];
  }

  // Independent descriptions of a line, used to state what the splitter does.

  function QuoteCount(s: string): nat {
    if s == [] then 0
    else QuoteCount(s[..|s| - 1]) + (if s[|s| - 1] == '"' then 1 else 0)
  }

  /** The commas that have an even number of quotes before them. */
  function CommasOutsideQuotes(s: string): nat {
    if s == [] then 0
    else
      var init := s[..|s| - 1];
      CommasOutsideQuotes(init) + (if s[|s| - 1] == ',' && QuoteCount(init) % 2 == 0 then 1 else 0)
  }

  /** `s` with every double quote removed. */
  function WithoutQuotes(s: string): (r: string)
    ensures '"' !in r
  {
    if s == [] then []
    else WithoutQuotes(s[..|s| - 1]) + (if s[|s| - 1] == '"' then [] else [s[|s| - 1]])
  }

  /** The same scan, keeping each cell before it is trimmed. */
  function RawStep(st: Scan, c: char): Scan {
    if c == '"' then st.(inQuotes := !st.inQuotes)
    else if c == ',' && !st.inQuotes then Scan(st.values + [st.current], "", st.inQuotes)
    else st.(current := st.current + [c])
  }

  function RawRun(s: string): Scan
    decreases |s|
  {
    if s == [] then Start else RawStep(RawRun(s[..|s| - 1]), s[|s| - 1])
  }

  /** The cells of a line before trimming. */
  function RawFields(line: string): seq<string> {
    var raw := RawRun(line);
    raw.values + [raw.current]
  }

  /** The loop's cells are the raw cells trimmed; the rest of the state is shared. */
  lemma {:induction false} RunTrimsRawCells(s: string)
    ensures var st, raw := Run(Start, s), RawRun(s);
      st == Scan(TrimAll(raw.values), raw.current, raw.inQuotes)
  {
    if s != [] {
      RunTrimsRawCells(s[..|s| - 1]);
      StepTrimsRawStep(RawRun(s[..|s| - 1]), s[|s| - 1]);
    }
  }

  lemma StepTrimsRawStep(raw: Scan, c: char)
    ensures var next := RawStep(raw, c);
      Step(Scan(TrimAll(raw.values), raw.current, raw.inQuotes), c)
      == Scan(TrimAll(next.values), next.current, next.inQuotes)
  {
    TrimAllSnoc(raw.values, raw.current);
  }

  /** After any prefix the flag is the parity of the quotes seen, and one
      cell has been pushed per comma outside quotes. */
  lemma {:induction false} RunCountsCommas(s: string)
    ensures Run(Start, s).inQuotes <==> QuoteCount(s) % 2 == 1
    ensures |Run(Start, s).values| == CommasOutsideQuotes(s)
  {
    if s != [] {
      var init, c := s[..|s| - 1], s[|s| - 1];
      RunCountsCommas(init);
      StepCounts(Run(Start, init), c, QuoteCount(init), CommasOutsideQuotes(init));
    }
  }

  lemma StepCounts(st: Scan, c: char, quotes: nat, commas: nat)
    requires st.inQuotes <==> quotes % 2 == 1
    requires |st.values| == commas
    ensures Step(st, c).inQuotes <==> (quotes + if c == '"' then 1 else 0) % 2 == 1
    ensures |Step(st, c).values| == commas + if c == ',' && quotes % 2 == 0 then 1 else 0
  {
  }

  /** The raw cells joined by commas are the text scanned so far, without
      its quotes; none of them holds a quote. */
  lemma {:induction false} RawRunKeepsText(s: string)
    ensures Join(RawFields(s), ',') == WithoutQuotes(s)
    ensures forall f :: f in RawFields(s) ==> '"' !in f
  {
    if s != [] {
      var init, c := s[..|s| - 1], s[|s| - 1];
      RawRunKeepsText(init);
      RawStepKeepsText(RawRun(init), c, WithoutQuotes(init));
    }
  }

  lemma RawStepKeepsText(raw: Scan, c: char, text: string)
    requires Join(raw.values + [raw.current], ',') == text
    requires forall f :: f in raw.values + [raw.current] ==> '"' !in f
    ensures var next := RawStep(raw, c);
      && Join(next.values + [next.current], ',') == text + (if c == '"' then [] else [c])
      && forall f :: f in next.values + [next.current] ==> '"' !in f
  {
    var fields := raw.values + [raw.current];
    assert raw.current in fields;
    if c == '"' {
      assert text + [] == text;
    } else if c == ',' && !raw.inQuotes {
      JoinSnoc(fields, ',', "");
      assert text + [','] + "" == text + [c];
    } else {
      assert fields[..|raw.values|] == raw.values;
      assert RawStep(raw, c).values + [RawStep(raw, c).current] == AppendToLast(fields, [c]);
      JoinAppendToLast(fields, ',', [c]);
    }
  }

  /** The splitter drops only the quotes and the whitespace at the ends of
      each cell: its cells are the raw fields trimmed, and the raw fields
      joined by commas give back the line without its quotes. There is one
      cell more than there are commas outside quotes. */
  lemma RowCellsAreTrimmedFields(line: string)
    ensures RowCells(line) == TrimAll(RawFields(line))
    ensures Join(RawFields(line), ',') == WithoutQuotes(line)
    ensures |RowCells(line)| == CommasOutsideQuotes(line) + 1
  {
    RunTrimsRawCells(line);
    RunCountsCommas(line);
    RawRunKeepsText(line);
    var raw := RawRun(line);
    TrimAllSnoc(raw.values, raw.current);
  }

  /** No cell holds a double quote and every cell is trimmed. */
  lemma RowCellsAreClean(line: string)
    ensures forall cell :: cell in RowCells(line) ==> '"' !in cell && IsTrimmed(cell)
  {
    RowCellsAreTrimmedFields(line);
    RawRunKeepsText(line);
    var raw := RawFields(line);
    forall cell | cell in RowCells(line) ensures '"' !in cell {
      var k :| 0 <= k < |raw| && RowCells(line)[k] == cell;
      assert raw[k] in raw;
      TrimKeepsCharacters(raw[k]);
    }
  }

  lemma {:induction false} RunAppend(st: Scan, a: string, b: string)
    ensures Run(st, a + b) == Run(Run(st, a), b)
    decreases |b|
  {
    if b == [] {
      assert a + b == a;
    } else {
      RunAppend(st, a, b[..|b| - 1]);
      assert (a + b)[..|a + b| - 1] == a + b[..|b| - 1];
    }
  }

  /** Text with no quote only grows the current cell, as long as it has no
      comma or the scan is inside quotes. */
  lemma {:induction false} RunPlain(st: Scan, t: string)
    requires '"' !in t
    requires st.inQuotes || ',' !in t
    ensures Run(st, t) == st.(current := st.current + t)
    decreases |t|
  {
    if t == [] {
      assert st.current + t == st.current;
    } else {
      var t' := t[..|t| - 1];
      assert t[|t| - 1] in t;
      assert forall ch :: ch in t' ==> ch in t;
      RunPlain(st, t');
      assert st.current + t' + [t[|t| - 1]] == st.current + t;
    }
  }

  lemma RunOne(st: Scan, c: char)
    ensures Run(st, [c]) == Step(st, c)
  {
    assert [c][..0] == [];
  }

  /** A comma outside quotes closes the last cell. */
  lemma CommaClosesCell(st: Scan, cells: seq<string>)
    requires |cells| >= 1
    requires st == Scan(TrimAll(cells[..|cells| - 1]), cells[|cells| - 1], false)
    ensures Step(st, ',') == Scan(TrimAll(cells), "", false)
  {
    var n := |cells|;
    TrimAllSnoc(cells[..n - 1], cells[n - 1]);
    assert cells[..n - 1] + [cells[n - 1]] == cells;
  }

  /** The end of the line closes the last cell. */
  lemma EndClosesCell(st: Scan, cells: seq<string>)
    requires |cells| >= 1
    requires st == Scan(TrimAll(cells[..|cells| - 1]), cells[|cells| - 1], false)
    ensures st.values + [Trim(st.current)] == TrimAll(cells)
  {
    var n := |cells|;
    TrimAllSnoc(cells[..n - 1], cells[n - 1]);
    assert cells[..n - 1] + [cells[n - 1]] == cells;
  }

  /** A comma and a plain cell after a scanned prefix. */
  lemma ScanThroughComma(scanned: string, cells: seq<string>, last: string)
    requires |cells| >= 1
    requires Run(Start, scanned) == Scan(TrimAll(cells[..|cells| - 1]), cells[|cells| - 1], false)
    requires ',' !in last && '"' !in last
    ensures Run(Start, scanned + [','] + last) == Scan(TrimAll(cells), last, false)
  {
    RunAppend(Start, scanned, [',']);
    RunOne(Run(Start, scanned), ',');
    CommaClosesCell(Run(Start, scanned), cells);
    RunAppend(Start, scanned + [','], last);
    RunPlain(Scan(TrimAll(cells), "", false), last);
    assert "" + last == last;
  }

  lemma RunJoinSingle(cells: seq<string>)
    requires |cells| == 1
    requires ',' !in cells[0] && '"' !in cells[0]
    ensures Run(Start, Join(cells, ',')) == Scan(TrimAll(cells[..0]), cells[0], false)
  {
    RunPlain(Start, cells[0]);
    assert "" + cells[0] == cells[0];
  }

  lemma RunJoinStep(cells: seq<string>)
    requires |cells| > 1
    requires ',' !in cells[|cells| - 1] && '"' !in cells[|cells| - 1]
    requires Run(Start, Join(cells[..|cells| - 1], ','))
          == Scan(TrimAll(cells[..|cells| - 2]), cells[|cells| - 2], false)
    ensures Run(Start, Join(cells, ',')) == Scan(TrimAll(cells[..|cells| - 1]), cells[|cells| - 1], false)
  {
    var n := |cells|;
    var front, last := cells[..n - 1], cells[n - 1];
    assert front + [last] == cells;
    JoinSnoc(front, ',', last);
    ScanThroughComma(Join(front, ','), front, last);
  }

  /** The scan of comma-joined plain cells: every cell but the last has
      been pushed, trimmed, and the last one is being built. */
  lemma {:induction false} RunJoin(cells: seq<string>)
    requires |cells| >= 1
    requires forall i :: 0 <= i < |cells| ==> ',' !in cells[i] && '"' !in cells[i]
    ensures Run(Start, Join(cells, ',')) == Scan(TrimAll(cells[..|cells| - 1]), cells[|cells| - 1], false)
  {
    if |cells| == 1 {
      RunJoinSingle(cells);
    } else {
      RunJoin(cells[..|cells| - 1]);
      RunJoinStep(cells);
    }
  }

  /** Splitting cells joined by commas gives back the cells, trimmed, when
      no cell holds a comma or a quote. */
  lemma RowCellsOfJoin(cells: seq<string>)
    requires |cells| >= 1
    requires forall i :: 0 <= i < |cells| ==> ',' !in cells[i] && '"' !in cells[i]
    ensures RowCells(Join(cells, ',')) == TrimAll(cells)
  {
    RunJoin(cells);
    EndClosesCell(Run(Start, Join(cells, ',')), cells);
  }

  /** An opening quote and quote-free text: still inside the first cell. */
  lemma ScanOpenQuote(quoted: string)
    requires '"' !in quoted
    ensures Run(Start, ['"'] + quoted) == Scan([], quoted, true)
  {
    RunOne(Start, '"');
    RunAppend(Start, ['"'], quoted);
    RunPlain(Scan([], "", true), quoted);
    assert "" + quoted == quoted;
  }

  /** The closing quote and a comma end the quoted cell. */
  lemma ScanCloseQuote(scanned: string, quoted: string)
    requires Run(Start, scanned) == Scan([], quoted, true)
    ensures Run(Start, scanned + ['"', ',']) == Scan([Trim(quoted)], "", false)
  {
    RunAppend(Start, scanned, ['"', ',']);
    assert ['"', ','] == ['"'] + [','];
    RunAppend(Scan([], quoted, true), ['"'], [',']);
    RunOne(Scan([], quoted, true), '"');
    RunOne(Scan([], quoted, false), ',');
  }

  /** A plain last cell after a comma. */
  lemma ScanPlainTail(scanned: string, values: seq<string>, rest: string)
    requires Run(Start, scanned) == Scan(values, "", false)
    requires '"' !in rest && ',' !in rest
    ensures RowCells(scanned + rest) == values + [Trim(rest)]
  {
    RunAppend(Start, scanned, rest);
    RunPlain(Scan(values, "", false), rest);
    assert "" + rest == rest;
  }

  /** A comma inside a quoted cell stays in that cell: a quoted cell
      followed by a comma and a plain cell gives exactly two cells. */
  lemma QuotedCommaStays(quoted: string, rest: string)
    requires '"' !in quoted
    requires '"' !in rest && ',' !in rest
    ensures RowCells(['"'] + quoted + ['"', ','] + rest) == [Trim(quoted), Trim(rest)]
  {
    ScanOpenQuote(quoted);
    ScanCloseQuote(['"'] + quoted, quoted);
    ScanPlainTail(['"'] + quoted + ['"', ','], [Trim(quoted)], rest);
  }

  /** The quoted-name example: `"Nguyễn, Văn A",10` has two cells. */
  lemma QuotedNameExample(name: string, score: string)
    requires name == "Nguyễn, Văn A" && score == "10"
    ensures RowCells(['"'] + name + ['"', ','] + score) == [name, score]
  {
    assert '"' !in name && IsTrimmed(name);
    assert '"' !in score && ',' !in score && IsTrimmed(score);
    QuotedCommaStays(name, score);
  }

  // ---------------------------------------------------------------------
  // From the text of the score file to student records

  /** The callback of `filter`: a line that is not blank once trimmed. */
  function NonBlank(): string -> bool {
    (line: string) => Trim(line) != ""
  }

  /** `csvText.split('\n').filter(line => line.trim())`. */
  function NonBlankLines(text: string): seq<string> {
    Filter(Split(text, '\n'), NonBlank())
  }

  /** The kept lines are exactly the lines of the text that are not blank,
      and there are no more of them than there are lines. */
  lemma NonBlankLinesAreTheNonBlankOnes(text: string)
    ensures |NonBlankLines(text)| <= |Split(text, '\n')|
    ensures forall l :: l in NonBlankLines(text) <==> l in Split(text, '\n') && Trim(l) != ""
  {
    FilterKeepsPassing(Split(text, '\n'), NonBlank());
  }

  /** The header line split on every comma (quotes are not special here)
      and trimmed. */
  function Headers(line: string): (headers: seq<string>)
    ensures |headers| >= 1
  {
    TrimAll(Split(line, ','))
  }

  /** A column whose lower-cased header is one of the known text columns. */
  predicate IsStringColumn(header: string) {
    Lower(header) in KnownStringColumns
  }

  /** The value stored for one cell: text columns keep the cell, every other
      column goes through `parseScore`. */
  function TypedCell(host: Host, header: string, cell: string): (v: Value)
    ensures IsStringColumn(header) ==> v == Str(cell)
    ensures !IsStringColumn(header) ==> !IsNumericText(host, v)
  {
    if IsStringColumn(header) then Str(cell)
    else
      ParsedCellIsNotNumericText(host, cell);
      ParseScore(host, Str(cell))
  }

  /** The object after the `headers.forEach` callback ran for the first
      `k` columns: each assignment overwrites an earlier equal header. */
  function Fields(host: Host, headers: seq<string>, values: seq<string>, k: nat): Record
    requires k <= |headers| == |values|
  {
    if k == 0 then map[]
    else Fields(host, headers, values, k - 1)[headers[k - 1] := TypedCell(host, headers[k - 1], values[k - 1])]
  }

  /** The record built from one accepted row: its columns, then the total. */
  function StudentRecord(host: Host, headers: seq<string>, values: seq<string>): Record
    requires |headers| == |values|
  {
    var fields := Fields(host, headers, values, |headers|);
    fields[TotalKey := Num(TotalScore(host, fields))]
  }

  /** A data line that yields a record: not blank, and with as many cells as
      there are headers once trimmed and split. */
  predicate Accepted(headers: seq<string>, line: string) {
    Trim(line) != "" && |RowCells(Trim(line))| == |headers|
  }

  /** The record a data line yields when it is accepted (a line that is
      not accepted is dropped, and the empty record here is never used). */
  function RecordOf(host: Host, headers: seq<string>, line: string): Record {
    var cells := RowCells(Trim(line));
    if |cells| == |headers| then StudentRecord(host, headers, cells) else map[]
  }

  function AcceptTest(headers: seq<string>): string -> bool {
    (line: string) => Accepted(headers, line)
  }

  function LineRecord(host: Host, headers: seq<string>): string -> Record {
    (line: string) => RecordOf(host, headers, line)
  }

  /** The records of the data lines, in order; a line with the wrong number
      of cells is skipped. */
  function Students(host: Host, headers: seq<string>, lines: seq<string>): (students: seq<Record>)
    ensures |students| <= |lines|
  {
    KeepMapMembers(lines, AcceptTest(headers), LineRecord(host, headers));
    KeepMap(lines, AcceptTest(headers), LineRecord(host, headers))
  }

  lemma SliceSnoc(lines: seq<string>, i: nat)
    requires 1 <= i < |lines|
    ensures lines[1..i + 1] == lines[1..i] + [lines[i]]
  {
  }

  /** One more data line adds its record when it is accepted, and nothing
      otherwise. */
  lemma StudentsSnoc(host: Host, headers: seq<string>, lines: seq<string>, line: string)
    ensures Students(host, headers, lines + [line])
         == if Accepted(headers, line) then Students(host, headers, lines) + [RecordOf(host, headers, line)]
            else Students(host, headers, lines)
  {
    KeepMapSnoc(lines, line, AcceptTest(headers), LineRecord(host, headers));
  }

  /** Every record comes from an accepted line, and every accepted line
      yields a record. */
  lemma StudentsComeFromAcceptedLines(host: Host, headers: seq<string>, lines: seq<string>)
    ensures forall s :: s in Students(host, headers, lines) ==>
      exists l :: l in lines && Accepted(headers, l) && s == RecordOf(host, headers, l)
    ensures forall l :: l in lines && Accepted(headers, l) ==> RecordOf(host, headers, l) in Students(host, headers, lines)
  {
    KeepMapMembers(lines, AcceptTest(headers), LineRecord(host, headers));
  }

  /** The value `parseCSV` returns for the text of the score file: nothing
      unless there is a header line and at least one more non-blank line. */
  function ParsedStudents(host: Host, text: string): (students: seq<Record>)
    ensures |NonBlankLines(text)| < 2 ==> students == []
    ensures |NonBlankLines(text)| >= 1 ==> |students| <= |NonBlankLines(text)| - 1
  {
    var lines := NonBlankLines(text);
    if |lines| < 2 then [] else Students(host, Headers(lines[0]), lines[1..])
  }

  /** The `headers.forEach` loop that fills one record, then the total. */
  method BuildStudent(host: Host, headers: seq<string>, values: seq<string>) returns (student: Record)
    requires |headers| == |values|
    ensures student == StudentRecord(host, headers, values)
  {
    student := map[];
    for index := 0 to |headers|
      invariant student == Fields(host, headers, values, index)
    {
      var header := headers[index];
      var lowerHeader := Lower(header);
      if lowerHeader in KnownStringColumns {
        student := student[header := Str(values[index])];
      } else {
        student := student[header := ParseScore(host, Str(values[index]))];
      }
    }
    var total := CalculateTotalScore(host, student);
    student := student[TotalKey := Num(total)];
  }

  /** The loop of `parseCSV` over the data lines (all lines after the
      first): a blank line is skipped, and a row is kept only when it has
      one cell per header. */
  method ParseRows(host: Host, headers: seq<string>, lines: seq<string>) returns (students: seq<Record>)
    requires |lines| >= 1
    ensures students == Students(host, headers, lines[1..])
  {
    students := [];
    for i := 1 to |lines|
      invariant students == Students(host, headers, lines[1..i])
    {
      SliceSnoc(lines, i);
      StudentsSnoc(host, headers, lines[1..i], lines[i]);
      var line := Trim(lines[i]);
      if line == "" {
        continue;
      }
      var values := SplitRow(line);
      if |values| == |headers| {
        var student := BuildStudent(host, headers, values);
        students := students + [student];
      }
    }
    assert lines[1..|lines|] == lines[1..];
  }

  /** `parseCSV`. */
  method ParseCsv(host: Host, csvText: string) returns (students: seq<Record>)
    ensures students == ParsedStudents(host, csvText)
  {
    var lines := NonBlankLines(csvText);
    if |lines| < 2 {
      return [];
    }
    var headers := TrimAll(Split(lines[0], ','));
    students := ParseRows(host, headers, lines);
  }

  // ---------------------------------------------------------------------
  // What the records hold

  /** The keys of the object are the headers seen so far. */
  lemma {:induction false} FieldsKeys(host: Host, headers: seq<string>, values: seq<string>, k: nat)
    requires k <= |headers| == |values|
    ensures Fields(host, headers, values, k).Keys == set j | 0 <= j < k :: headers[j]
  {
    if k > 0 {
      FieldsKeys(host, headers, values, k - 1);
    }
  }

  /** A header that occurs more than once holds the cell of its last column. */
  lemma {:induction false} FieldsHoldLastColumn(host: Host, headers: seq<string>, values: seq<string>, k: nat)
    requires k <= |headers| == |values|
    ensures forall j :: 0 <= j < k && headers[j] !in headers[j + 1..k] ==>
      headers[j] in Fields(host, headers, values, k)
      && Fields(host, headers, values, k)[headers[j]] == TypedCell(host, headers[j], values[j])
  {
    if k > 0 {
      FieldsHoldLastColumn(host, headers, values, k - 1);
      forall j | 0 <= j < k && headers[j] !in headers[j + 1..k]
        ensures headers[j] in Fields(host, headers, values, k)
             && Fields(host, headers, values, k)[headers[j]] == TypedCell(host, headers[j], values[j])
      {
        if j < k - 1 {
          assert headers[k - 1] in headers[j + 1..k];
          assert headers[j + 1..k - 1] == headers[j + 1..k][..k - 2 - j];
        }
      }
    }
  }

  /** No score column holds text that still reads as a number. */
  lemma {:induction false} FieldsScoreCells(host: Host, headers: seq<string>, values: seq<string>, k: nat)
    requires k <= |headers| == |values|
    ensures forall key :: key in Fields(host, headers, values, k) && !IsStringColumn(key) ==>
      !IsNumericText(host, Fields(host, headers, values, k)[key])
  {
    if k > 0 {
      FieldsScoreCells(host, headers, values, k - 1);
    }
  }

  /** The headers of the three subjects are score columns. */
  lemma SubjectsAreScoreColumns()
    ensures forall subject :: subject in Subjects ==> !IsStringColumn(subject)
  {
    assert Lower("Toán") == "toán" && Lower("Văn") == "văn" && Lower("Anh") == "anh";
  }

  /** A record has one key per header, plus `Tổng điểm`. */
  lemma StudentRecordKeys(host: Host, headers: seq<string>, values: seq<string>)
    requires |headers| == |values|
    ensures StudentRecord(host, headers, values).Keys == (set j | 0 <= j < |headers| :: headers[j]) + {TotalKey}
  {
    FieldsKeys(host, headers, values, |headers|);
  }

  /** Every column other than `Tổng điểm` holds the typed cell of its last
      occurrence in the row. */
  lemma StudentRecordCells(host: Host, headers: seq<string>, values: seq<string>)
    requires |headers| == |values|
    ensures forall j :: 0 <= j < |headers| && headers[j] != TotalKey && headers[j] !in headers[j + 1..] ==>
      headers[j] in StudentRecord(host, headers, values)
      && StudentRecord(host, headers, values)[headers[j]] == TypedCell(host, headers[j], values[j])
  {
    FieldsHoldLastColumn(host, headers, values, |headers|);
  }

  /** `Tổng điểm` is the sum of the numbers held by Toán, Văn and Anh in
      the same record. */
  lemma StudentRecordTotal(host: Host, headers: seq<string>, values: seq<string>)
    requires |headers| == |values|
    ensures var r := StudentRecord(host, headers, values);
      TotalKey in r && r[TotalKey] == Num(NumericValue(r, "Toán") + NumericValue(r, "Văn") + NumericValue(r, "Anh"))
  {
    var fields := Fields(host, headers, values, |headers|);
    FieldsScoreCells(host, headers, values, |headers|);
    SubjectsAreScoreColumns();
    TotalIsSumOfNumbers(host, fields);
    var r := StudentRecord(host, headers, values);
    assert NumericValue(r, "Toán") == NumericValue(fields, "Toán");
    assert NumericValue(r, "Văn") == NumericValue(fields, "Văn");
    assert NumericValue(r, "Anh") == NumericValue(fields, "Anh");
  }

  /** The `Số báo danh` header, in either capitalisation, is not a text
      column, so its cells go through `parseScore`. */
  lemma LongHeaderIsScoreColumn()
    ensures !IsStringColumn("Số báo danh") && !IsStringColumn("Số Báo Danh")
  {
    assert Lower("Số báo danh") == "số báo danh";
    assert Lower("Số Báo Danh") == "số báo danh";
  }

  /** A header is a text column whatever its case: every header that
      lower-cases to `sbd` or `họ và tên` is one. The long candidate-number
      headers are not. */
  lemma KnownColumnSpellings()
    ensures forall h :: Lower(h) == "sbd" ==> IsStringColumn(h)
    ensures forall h :: Lower(h) == "họ và tên" ==> IsStringColumn(h)
    ensures IsStringColumn("SBD") && IsStringColumn("sbd") && IsStringColumn("Họ và tên")
    ensures !IsStringColumn("Số báo danh") && !IsStringColumn("Số Báo Danh")
  {
    assert Lower("SBD") == "sbd" && Lower("sbd") == "sbd";
    assert Lower("Họ và tên") == "họ và tên";
    assert KnownStringColumns[0] == "sbd" && KnownStringColumns[1] == "họ và tên";
    LongHeaderIsScoreColumn();
  }

  // ---------------------------------------------------------------------
  // What the parse keeps

  /** Records keep the order of their lines. */
  lemma StudentsAppend(host: Host, headers: seq<string>, a: seq<string>, b: seq<string>)
    ensures Students(host, headers, a + b) == Students(host, headers, a) + Students(host, headers, b)
  {
    KeepMapAppend(a, b, AcceptTest(headers), LineRecord(host, headers));
  }

  /** Filtering lines that are all non-blank keeps them all. */
  lemma KeepAllNonBlank(lines: seq<string>)
    requires forall i :: 0 <= i < |lines| ==> Trim(lines[i]) != ""
    ensures Filter(lines, NonBlank()) == lines
  {
    FilterAllPass(lines, NonBlank());
  }

  /** Non-blank lines without newlines, joined by newlines, are kept as
      they are by the line split and the blank-line filter. */
  lemma JoinedLinesSplitBack(lines: seq<string>)
    requires |lines| >= 1
    requires forall i :: 0 <= i < |lines| ==> '\n' !in lines[i] && Trim(lines[i]) != ""
    ensures NonBlankLines(Join(lines, '\n')) == lines
  {
    SplitJoin(lines, '\n');
    assert Split(Join(lines, '\n'), '\n') == lines;
    KeepAllNonBlank(lines);
  }

  /** The parse of a text depends only on its non-blank lines. */
  lemma ParsedStudentsOfLines(host: Host, text: string, lines: seq<string>)
    requires NonBlankLines(text) == lines && |lines| >= 2
    ensures ParsedStudents(host, text) == Students(host, Headers(lines[0]), lines[1..])
  {
  }

  lemma HeaderAndRowsAreLines(header: string, rows: seq<string>)
    requires '\n' !in header && Trim(header) != ""
    requires forall i :: 0 <= i < |rows| ==> '\n' !in rows[i] && Trim(rows[i]) != ""
    ensures forall i :: 0 <= i < |[header] + rows| ==> '\n' !in ([header] + rows)[i] && Trim(([header] + rows)[i]) != ""
  {
    var lines := [header] + rows;
    forall i | 0 <= i < |lines|
      ensures '\n' !in lines[i] && Trim(lines[i]) != ""
    {
      if i > 0 { assert lines[i] == rows[i - 1]; }
    }
  }

  /** A file written as a header line and non-blank data lines, joined by
      newlines, parses to the records of those data lines. */
  lemma ParseOfJoinedLines(host: Host, header: string, rows: seq<string>)
    requires '\n' !in header && Trim(header) != ""
    requires |rows| >= 1
    requires forall i :: 0 <= i < |rows| ==> '\n' !in rows[i] && Trim(rows[i]) != ""
    ensures ParsedStudents(host, Join([header] + rows, '\n')) == Students(host, Headers(header), rows)
  {
    var lines := [header] + rows;
    HeaderAndRowsAreLines(header, rows);
    JoinedLinesSplitBack(lines);
    ParsedStudentsOfLines(host, Join(lines, '\n'), lines);
    assert lines[0] == header && lines[1..] == rows;
  }

  lemma RecordOfCells(host: Host, headers: seq<string>, line: string, cells: seq<string>)
    requires |cells| == |headers|
    requires Trim(line) != "" && RowCells(Trim(line)) == cells
    ensures Accepted(headers, line)
    ensures RecordOf(host, headers, line) == StudentRecord(host, headers, cells)
  {
  }

  lemma JoinedCellsSplitBack(cells: seq<string>)
    requires |cells| >= 1
    requires forall i :: 0 <= i < |cells| ==> ',' !in cells[i] && '"' !in cells[i] && IsTrimmed(cells[i])
    requires IsTrimmed(Join(cells, ','))
    ensures RowCells(Trim(Join(cells, ','))) == cells
  {
    RowCellsOfJoin(cells);
    TrimAllTrimmed(cells);
  }

  /** A data line written as clean cells joined by commas is accepted when
      it has one cell per header, and its record holds those cells. */
  lemma RecordOfJoinedCells(host: Host, headers: seq<string>, cells: seq<string>)
    requires |cells| == |headers| >= 1
    requires forall i :: 0 <= i < |cells| ==> ',' !in cells[i] && '"' !in cells[i] && IsTrimmed(cells[i])
    requires Join(cells, ',') != "" && IsTrimmed(Join(cells, ','))
    ensures Accepted(headers, Join(cells, ','))
    ensures RecordOf(host, headers, Join(cells, ',')) == StudentRecord(host, headers, cells)
  {
    JoinedCellsSplitBack(cells);
    RecordOfCells(host, headers, Join(cells, ','), cells);
  }
}
