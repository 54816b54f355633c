/**
  `findStudentBySBD` of the score lookup page and the `studentData` array
  it searches: the column that holds the candidate number (SBD) is chosen
  from the first record, then the first record whose SBD, converted with
  `String` and trimmed, equals the trimmed query is returned.
 */
module Lookup {
  import opened JsText
  import opened JsValue
  import opened Scores
  import opened Csv

  /** The header names tried, in order, for the SBD column. */
  const SbdCandidates: seq<string> := ["SBD", "sbd", "Số báo danh", "Số Báo Danh", "SBD", "SBD"]

  /** What `findStudentBySBD` returns: `null` when there is no data or no
      SBD column (kept apart here), `undefined` when no record matches, or
      the record. */
  datatype LookupResult = NoData | NoSbdColumn | NotFound | Found(student: Record)

  /** The first of `fields` that is a key of `record`. */
  function FirstPresent(record: Record, fields: seq<string>): (key: Option<string>)
    ensures key.None? <==> forall i :: 0 <= i < |fields| ==> fields[i] !in record
    ensures key.Some? ==> exists i :: (0 <= i < |fields| && fields[i] == key.value && key.value in record
      && forall j :: 0 <= j < i ==> fields[j] !in record)
  {
    if fields == [] then None
    else if fields[0] in record then Some(fields[0])
    else
      var key := FirstPresent(record, fields[1..]);
      assert forall i :: 1 <= i < |fields| ==> fields[i] == fields[1..][i - 1];
      key
  }

  /** The test of the `find` callback: the field, as a string, trimmed,
      equals the trimmed query. */
  predicate Matches(host: Host, student: Record, key: string, query: string) {
    Trim(FieldString(host, student, key)) == Trim(query)
  }

  /** The callback given to `find`. */
  function MatchTest(host: Host, key: string, query: string): Record -> bool {
    (student: Record) => Matches(host, student, key, query)
  }

  /** `data.find(...)` with that test. */
  function FirstMatch(host: Host, data: seq<Record>, key: string, query: string): Option<Record> {
    Find(data, MatchTest(host, key, query))
  }

  /** The value `findStudentBySBD` returns when `data` is the session array. */
  function FindBySbd(host: Host, data: seq<Record>, query: string): LookupResult {
    if |data| == 0 then NoData
    else
      match FirstPresent(data[0], SbdCandidates)
      case None => NoSbdColumn
      case Some(key) =>
        (match FirstMatch(host, data, key, query)
         case None => NotFound
         case Some(student) => Found(student))
  }

  /** The state of the page: the records loaded from the score file. */
  class Session {
    var studentData: seq<Record>

    constructor()
      ensures studentData == []
    {
      studentData := [];
    }

    /** `loadStudentData`, with the fetch given as its outcome: `None` when
        the file could not be fetched, which leaves the data as it was. */
    method Load(host: Host, response: Option<string>) returns (loaded: bool)
      modifies this
      ensures response.None? ==> studentData == old(studentData) && !loaded
      ensures response.Some? ==> studentData == ParsedStudents(host, response.value)
      ensures response.Some? ==> (loaded <==> |studentData| > 0)
    {
      if response.None? {
        return false;
      }
      studentData := ParseCsv(host, response.value);
      if |studentData| == 0 {
        return false;
      }
      return true;
    }

    /** `findStudentBySBD`. */
    method FindStudentBySbd(host: Host, sbdToFind: string) returns (r: LookupResult)
      ensures r == FindBySbd(host, studentData, sbdToFind)
    {
      if |studentData| == 0 {
        return NoData;
      }
      var first := studentData[0];
      var sbdKey: Option<string> := None;
      for n := 0 to |SbdCandidates|
        invariant sbdKey == None
        invariant FirstPresent(first, SbdCandidates) == FirstPresent(first, SbdCandidates[n..])
      {
        assert SbdCandidates[n..][1..] == SbdCandidates[n + 1..];
        var field := SbdCandidates[n];
        if field in first {
          sbdKey := Some(field);
          break;
        }
      }
      if sbdKey.None? {
        return NoSbdColumn;
      }
      var key := sbdKey.value;
      var normalizedSearchSbd := Trim(sbdToFind);
      var i := 0;
      while i < |studentData|
        invariant 0 <= i <= |studentData|
        invariant FirstMatch(host, studentData, key, sbdToFind) == Find(studentData[i..], MatchTest(host, key, sbdToFind))
      {
        assert studentData[i..][1..] == studentData[i + 1..];
        var studentSbd := Trim(FieldString(host, studentData[i], key));
        if studentSbd == normalizedSearchSbd {
          return Found(studentData[i]);
        }
        i := i + 1;
      }
      return NotFound;
    }
  }

  // ---------------------------------------------------------------------
  // What the lookup returns

  /** `null` comes back exactly when there is no data or the first record
      has none of the SBD headers. */
  lemma LookupNull(host: Host, data: seq<Record>, query: string)
    ensures FindBySbd(host, data, query) == NoData <==> |data| == 0
    ensures FindBySbd(host, data, query) == NoSbdColumn
        <==> |data| > 0 && forall i :: 0 <= i < |SbdCandidates| ==> SbdCandidates[i] !in data[0]
  {
  }

  /** With an SBD column, the lookup returns `undefined` exactly when no
      record's SBD matches the query. */
  lemma LookupNotFound(host: Host, data: seq<Record>, query: string)
    requires |data| > 0 && FirstPresent(data[0], SbdCandidates).Some?
    ensures var key := FirstPresent(data[0], SbdCandidates).value;
      FindBySbd(host, data, query) == NotFound <==> forall i :: 0 <= i < |data| ==> !Matches(host, data[i], key, query)
  {
    var key := FirstPresent(data[0], SbdCandidates).value;
    FindNone(data, MatchTest(host, key, query));
  }

  /** A record that is found is the first one whose SBD matches the query. */
  lemma LookupFindsFirstMatch(host: Host, data: seq<Record>, query: string)
    requires FindBySbd(host, data, query).Found?
    ensures var key := FirstPresent(data[0], SbdCandidates).value;
      exists i :: (0 <= i < |data| && data[i] == FindBySbd(host, data, query).student
        && Matches(host, data[i], key, query)
        && forall j :: 0 <= j < i ==> !Matches(host, data[j], key, query))
  {
    var key := FirstPresent(data[0], SbdCandidates).value;
    FindIsFirst(data, MatchTest(host, key, query));
  }

  /** The comparison is exact apart from surrounding whitespace: a query
      padded with spaces finds the record, one in another case does not. */
  lemma LookupIsCaseSensitive(host: Host, sbd: string)
    requires sbd != [] && IsTrimmed(sbd) && IsTrimmed(Lower(sbd)) && Lower(sbd) != sbd
    ensures var record := map["SBD" := Str(sbd)];
      && FindBySbd(host, [record], [' '] + sbd + [' ']) == Found(record)
      && FindBySbd(host, [record], Lower(sbd)) == NotFound
  {
    var record := map["SBD" := Str(sbd)];
    SbdUnderShortHeader(record);
    assert FieldString(host, record, "SBD") == sbd;
    var padded := [' '] + sbd + [' '];
    TrimPadded(' ', sbd, ' ');
    MatchesTrimmedField(host, record, "SBD", padded, sbd);
    LookupSingle(host, record, "SBD", padded);
    MatchesTrimmedField(host, record, "SBD", Lower(sbd), sbd);
    LookupSingle(host, record, "SBD", Lower(sbd));
  }

  /** A first record with `SBD` is searched under `SBD`. */
  lemma SbdUnderShortHeader(record: Record)
    requires "SBD" in record
    ensures FirstPresent(record, SbdCandidates) == Some("SBD")
  {
    assert SbdCandidates[0] == "SBD";
  }

  /** A record without `SBD` or `sbd` but with `Số báo danh` is looked up
      under that header. */
  lemma SbdUnderLongHeader(record: Record)
    requires "SBD" !in record && "sbd" !in record && "Số báo danh" in record
    ensures FirstPresent(record, SbdCandidates) == Some("Số báo danh")
  {
    assert SbdCandidates[0] == "SBD" && SbdCandidates[1] == "sbd" && SbdCandidates[2] == "Số báo danh";
  }

  /** With a single record, the lookup finds it exactly when it matches
      under the chosen key. */
  lemma LookupSingle(host: Host, record: Record, key: string, query: string)
    requires FirstPresent(record, SbdCandidates) == Some(key)
    ensures FindBySbd(host, [record], query) == if Matches(host, record, key, query) then Found(record) else NotFound
  {
    FindSingle(record, MatchTest(host, key, query));
  }

  lemma NullIsTrimmed()
    ensures IsTrimmed("null")
  {
  }

  /** A record whose field reads as an already trimmed string matches
      exactly the queries that trim to that string. */
  lemma MatchesTrimmedField(host: Host, record: Record, key: string, query: string, shown: string)
    requires FieldString(host, record, key) == shown && IsTrimmed(shown)
    ensures Matches(host, record, key, query) <==> Trim(query) == shown
  {
  }

  /** `Số báo danh` is not a text column, so an empty candidate number is
      stored as `null` and found by the query "null". */
  lemma EmptyLongHeaderSbdReadsNull(host: Host, record: Record, query: string)
    requires "SBD" !in record && "sbd" !in record && "Số báo danh" in record
    requires record["Số báo danh"] == TypedCell(host, "Số báo danh", "")
    ensures FindBySbd(host, [record], query) == (if Trim(query) == "null" then Found(record) else NotFound)
  {
    SbdUnderLongHeader(record);
    LongHeaderIsScoreColumn();
    assert record["Số báo danh"] == Null;
    NullIsTrimmed();
    MatchesTrimmedField(host, record, "Số báo danh", query, "null");
    LookupSingle(host, record, "Số báo danh", query);
  }

  /** A candidate number under `Số báo danh` that reads as a number is
      stored as that number, and the lookup compares the query with the
      host's rendering of it (so "012" is compared as 12). */
  lemma NumericLongHeaderSbdComparedAsNumber(host: Host, record: Record, cell: string, query: string)
    requires "SBD" !in record && "sbd" !in record && "Số báo danh" in record
    requires record["Số báo danh"] == TypedCell(host, "Số báo danh", cell)
    requires IsValidScore(host, Str(cell))
    ensures var x := host.parseFloat(NormalizeDecimal(cell)).value;
      FindBySbd(host, [record], query)
      == (if Trim(host.numberToString(x)) == Trim(query) then Found(record) else NotFound)
  {
    SbdUnderLongHeader(record);
    LongHeaderIsScoreColumn();
    LookupSingle(host, record, "Số báo danh", query);
  }
}
