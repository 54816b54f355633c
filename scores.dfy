/**
  Score coercion (`isValidScore`, `parseScore`) and the derived total
  (`calculateTotalScore`) of the score lookup page.
 */
module Scores {
  import opened JsText
  import opened JsValue

  /** The literal stored for an absent student. */
  const AbsentMarker: string := "VẮNG"

  /** The derived field that holds the total of a record. */
  const TotalKey: string := "Tổng điểm"

  /** The three subjects that make up the total, in the order they are added. */
  const Subjects: seq<string> := ["Toán", "Văn", "Anh"]

  /** The upper-cased cell is `VẮNG` or its unaccented spelling `VANG`. */
  predicate IsAbsent(s: string) {
    Upper(s) == AbsentMarker || Upper(s) == "VANG"
  }

  /** A decimal comma becomes a point; only the first comma is replaced. */
  function NormalizeDecimal(s: string): string {
    ReplaceFirst(s, ',', '.')
  }

  /** `isValidScore`: a truthy cell that is a number, or a string that is not
      the absent marker and whose normalized form `parseFloat` accepts.
      (For a finite number `x`, `parseFloat(x)` gives `x` back, so a truthy
      number is always valid.) */
  predicate IsValidScore(host: Host, score: Value): (valid: bool)
    ensures score.Null? ==> !valid
    ensures score.Num? ==> (valid <==> score.n != 0.0)
    ensures score.Str? ==>
      (valid <==> score.s != "" && !IsAbsent(score.s) && host.parseFloat(NormalizeDecimal(score.s)).Some?)
  {
    if !Truthy(score) then false
    else match score
      case Str(s) => !IsAbsent(s) && host.parseFloat(NormalizeDecimal(s)).Some?
      case Num(_) => true
      case Null => false
  }

  /** `parseScore`: `null` for a falsy cell, the marker `VẮNG` for an absent
      student, the parsed number when there is one, and otherwise the cell
      unchanged. */
  function ParseScore(host: Host, score: Value): (r: Value)
    ensures r == Null <==> !Truthy(score)
    ensures r.Num? <==> IsValidScore(host, score)
    ensures r.Num? && score.Str? ==> host.parseFloat(NormalizeDecimal(score.s)) == Some(r.n)
    ensures r.Num? && score.Num? ==> r == score
    ensures r.Str? ==> r == Str(AbsentMarker) || r == score
    ensures r == Str(AbsentMarker) <==> Truthy(score) && score.Str? && IsAbsent(score.s)
  {
    assert Upper(AbsentMarker) == AbsentMarker;
    if !Truthy(score) then Null
    else match score
      case Str(s) =>
        if IsAbsent(s) then Str(AbsentMarker)
        else (match host.parseFloat(NormalizeDecimal(s))
          case Some(x) => Num(x)
          case None => score)
      case Num(x) => Num(x)
      case Null => Null
  }

  /** A string cell that `isValidScore` accepts: text that still reads as a
      number. `parseScore` never leaves one behind. */
  predicate IsNumericText(host: Host, v: Value) {
    v.Str? && IsValidScore(host, v)
  }

  /** The number a subject holds, 0 when it is missing or not a number. */
  function NumericValue(student: Record, subject: string): real {
    if subject in student && student[subject].Num? then student[subject].n else 0.0
  }

  /** What one subject adds in `calculateTotalScore`: the parsed score when
      the field is truthy, valid and parses to a number, else nothing. */
  function Contribution(host: Host, student: Record, subject: string): real {
    if subject in student && Truthy(student[subject]) && IsValidScore(host, student[subject]) then
      match ParseScore(host, student[subject])
      case Num(x) => x
      case _ => 0.0
    else 0.0
  }

  /** The running total after the first `k` subjects. */
  function Subtotal(host: Host, student: Record, k: nat): real
    requires k <= |Subjects|
  {
    if k == 0 then 0.0 else Subtotal(host, student, k - 1) + Contribution(host, student, Subjects[k - 1])
  }

  /** The value `calculateTotalScore` returns. */
  function TotalScore(host: Host, student: Record): real {
    Subtotal(host, student, |Subjects|)
  }

  /** `calculateTotalScore`: accumulates the subjects one by one. */
  method CalculateTotalScore(host: Host, student: Record) returns (total: real)
    ensures total == TotalScore(host, student)
  {
    total := 0.0;
    var i := 0;
    while i < |Subjects|
      invariant 0 <= i <= |Subjects|
      invariant total == Subtotal(host, student, i)
    {
      var subject := Subjects[i];
      if subject in student && Truthy(student[subject]) && IsValidScore(host, student[subject]) {
        var score := ParseScore(host, student[subject]);
        if score.Num? {
          total := total + score.n;
        }
      }
      i := i + 1;
    }
  }

  /** Whatever `parseScore` returns for a cell is never numeric text. */
  lemma ParsedCellIsNotNumericText(host: Host, cell: string)
    ensures !IsNumericText(host, ParseScore(host, Str(cell)))
  {
    assert Upper(AbsentMarker) == AbsentMarker;
  }

  /** A subject adds exactly the number it holds: a missing, `null`, `VẮNG`
      or text subject adds 0, and a subject equal to 0 is skipped, which
      adds 0 as well. */
  lemma ContributionIsNumericValue(host: Host, student: Record, subject: string)
    requires subject in student ==> !IsNumericText(host, student[subject])
    ensures Contribution(host, student, subject) == NumericValue(student, subject)
  {
  }

  /** The total is the sum of the numbers held by Toán, Văn and Anh. */
  lemma TotalIsSumOfNumbers(host: Host, student: Record)
    requires forall subject :: subject in Subjects && subject in student ==> !IsNumericText(host, student[subject])
    ensures TotalScore(host, student)
         == NumericValue(student, "Toán") + NumericValue(student, "Văn") + NumericValue(student, "Anh")
  {
    assert Subjects[0] in Subjects && Subjects[1] in Subjects && Subjects[2] in Subjects;
    ContributionIsNumericValue(host, student, Subjects[0]);
    ContributionIsNumericValue(host, student, Subjects[1]);
    ContributionIsNumericValue(host, student, Subjects[2]);
    assert TotalScore(host, student) == Subtotal(host, student, 2) + Contribution(host, student, Subjects[2]);
    assert Subtotal(host, student, 2) == Subtotal(host, student, 1) + Contribution(host, student, Subjects[1]);
  }

  /** Both spellings of the absent marker, in either case, are recognised. */
  lemma AbsentSpellings()
    ensures IsAbsent("VẮNG") && IsAbsent("vắng") && IsAbsent("VANG") && IsAbsent("vang")
  {
    assert Upper("VẮNG") == AbsentMarker;
    assert Upper("vắng") == AbsentMarker;
    assert Upper("VANG") == "VANG";
    assert Upper("vang") == "VANG";
  }

  /** The coercion examples: the absent marker, a decimal comma, an empty
      cell and plain text. */
  lemma ParseScoreExamples(host: Host)
    requires host.parseFloat("8.5") == Some(8.5)
    requires host.parseFloat("abc") == None
    ensures ParseScore(host, Str("vắng")) == Str(AbsentMarker)
    ensures ParseScore(host, Str("vang")) == Str(AbsentMarker)
    ensures ParseScore(host, Str("8,5")) == Num(8.5)
    ensures ParseScore(host, Str("")) == Null
    ensures ParseScore(host, Str("abc")) == Str("abc")
  {
    AbsentSpellings();
    assert NormalizeDecimal("8,5") == "8.5";
    assert Upper("8,5") == "8,5";
    assert NormalizeDecimal("abc") == "abc";
    assert Upper("abc") == "ABC";
  }

  /** The total examples: 8 + 7 + 9, the same with Anh absent, and all absent. */
  lemma TotalScoreExamples(host: Host)
    ensures TotalScore(host, map["Toán" := Num(8.0), "Văn" := Num(7.0), "Anh" := Num(9.0)]) == 24.0
    ensures TotalScore(host, map["Toán" := Num(8.0), "Văn" := Num(7.0), "Anh" := Str(AbsentMarker)]) == 15.0
    ensures TotalScore(host, map["Toán" := Str(AbsentMarker), "Văn" := Null]) == 0.0
  {
    AbsentSpellings();
    TotalIsSumOfNumbers(host, map["Toán" := Num(8.0), "Văn" := Num(7.0), "Anh" := Num(9.0)]);
    TotalIsSumOfNumbers(host, map["Toán" := Num(8.0), "Văn" := Num(7.0), "Anh" := Str(AbsentMarker)]);
    TotalIsSumOfNumbers(host, map["Toán" := Str(AbsentMarker), "Văn" := Null]);
  }
}
