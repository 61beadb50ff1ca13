/**
 * The academic-details form: a list of education records the student edits, a validator
 * that reports every problem per section, and a save that replaces the student's stored
 * education history with the current records.
 */
module AcademicDetails {
  import opened Text
  import opened Tables

  /** One education section as the form holds it: every field is text. */
  datatype EducationRecord = EducationRecord(
    educationLevel: string,
    schoolCollegeName: string,
    degreeCertificate: string,
    yearOfGraduation: string,
    marksPercentage: string,
    schoolCollegeAddress: string,
    schoolType: string,
    subjects: string)

  /** The fields a section's inputs can change. */
  datatype Field =
    | EducationLevel | SchoolCollegeName | DegreeCertificate | YearOfGraduation
    | MarksPercentage | SchoolCollegeAddress | SchoolType | Subjects

  /** One stored row of the education history (its `student_id` and id are the row's own).
      A number that JSON cannot carry (NaN, an infinity) is stored as null, here `None`. */
  datatype EducationRow = EducationRow(
    educationLevel: string,
    schoolCollegeName: string,
    degreeCertificate: string,
    yearOfGraduation: Option<int>,
    marksPercentage: Option<real>,
    schoolCollegeAddress: Option<string>,
    schoolType: Option<string>,
    subjects: Option<string>)

  /** A fresh section: every field empty. */
  function EmptyRecord(): EducationRecord
  {
    EducationRecord("", "", "", "", "", "", "", "")
  }

  function Get(r: EducationRecord, f: Field): string
  {
    match f
    case EducationLevel => r.educationLevel
    case SchoolCollegeName => r.schoolCollegeName
    case DegreeCertificate => r.degreeCertificate
    case YearOfGraduation => r.yearOfGraduation
    case MarksPercentage => r.marksPercentage
    case SchoolCollegeAddress => r.schoolCollegeAddress
    case SchoolType => r.schoolType
    case Subjects => r.subjects
  }

  /** `{ ...record, [field]: value }`: the named field takes the new value and no other
      field changes. */
  function With(r: EducationRecord, f: Field, v: string): (r': EducationRecord)
    ensures Get(r', f) == v
    ensures forall g :: g != f ==> Get(r', g) == Get(r, g)
  {
    match f
    case EducationLevel => r.(educationLevel := v)
    case SchoolCollegeName => r.(schoolCollegeName := v)
    case DegreeCertificate => r.(degreeCertificate := v)
    case YearOfGraduation => r.(yearOfGraduation := v)
    case MarksPercentage => r.(marksPercentage := v)
    case SchoolCollegeAddress => r.(schoolCollegeAddress := v)
    case SchoolType => r.(schoolType := v)
    case Subjects => r.(subjects := v)
  }

  /** `records.filter((_, i) => i !== index)`: the list without position `index`, or the
      list itself when there is no such position. */
  function RemoveAt(records: seq<EducationRecord>, index: nat): (r: seq<EducationRecord>)
    ensures index < |records| ==> |r| == |records| - 1
    ensures index < |records| ==> forall k :: 0 <= k < |r| ==> r[k] == records[if k < index then k else k + 1]
    ensures index >= |records| ==> r == records
  {
    if index < |records| then records[..index] + records[index + 1..] else records
  }

  // ---------------------------------------------------------------------------
  // Validation
  // ---------------------------------------------------------------------------

  /** `parseFloat(m) > 100`. */
  predicate ExceedsHundred(x: JsNumber)
  {
    match x
    case Finite(v) => v > 100.0
    case PosInfinity => true
    case _ => false
  }

  /** What a failed check complains about. */
  datatype Problem = LevelMissing | NameMissing | DegreeMissing | YearMissing | YearInvalid | MarksInvalid

  /** One validation message: the section (counted from 0) and the failed check. */
  datatype ValidationError = ValidationError(section: nat, problem: Problem)

  function ProblemText(p: Problem): string
  {
    match p
    case LevelMissing => "Education level is required"
    case NameMissing => "School/College name is required"
    case DegreeMissing => "Degree/Certificate is required"
    case YearMissing => "Year of graduation is required"
    case YearInvalid => "Valid year of graduation is required"
    case MarksInvalid => "Marks/Percentage must be a number between 0-100"
  }

  /** The message as shown: `Section ${index + 1}: ` and the complaint. */
  function Message(e: ValidationError): string
  {
    "Section " + NatToString(e.section + 1) + ": " + ProblemText(e.problem)
  }

  /** The year check: NaN, before 1990 or after the current year. */
  predicate YearRejected(y: string, currentYear: int)
  {
    var year := ParseInt(y);
    year.None? || year.value < 1990 || year.value > currentYear
  }

  /** The marks check on a non-empty field: NaN or above 100. */
  predicate MarksRejected(m: string)
  {
    var marks := ParseFloat(m);
    marks == NaN || ExceedsHundred(marks)
  }

  /** `errors.push(e)` when the check failed. */
  function PushIf(errors: seq<ValidationError>, failed: bool, e: ValidationError): seq<ValidationError>
  {
    if failed then errors + [e] else errors
  }

  /** Which of the six checks on one section fail, in the validator's order. */
  datatype FailedChecks = FailedChecks(level: bool, name: bool, degree: bool, yearMissing: bool, yearInvalid: bool, marks: bool)

  function Failed(r: EducationRecord, currentYear: int): FailedChecks
  {
    FailedChecks(r.educationLevel == "", Trim(r.schoolCollegeName) == "", Trim(r.degreeCertificate) == "",
                 r.yearOfGraduation == "", YearRejected(r.yearOfGraduation, currentYear),
                 r.marksPercentage != "" && MarksRejected(r.marksPercentage))
  }

  /** `errors` followed by one message naming section `index` for each failed check. */
  function WithFailed(errors: seq<ValidationError>, index: nat, f: FailedChecks): seq<ValidationError>
  {
    var e1 := PushIf(errors, f.level, ValidationError(index, LevelMissing));
    var e2 := PushIf(e1, f.name, ValidationError(index, NameMissing));
    var e3 := PushIf(e2, f.degree, ValidationError(index, DegreeMissing));
    var e4 := PushIf(e3, f.yearMissing, ValidationError(index, YearMissing));
    var e5 := PushIf(e4, f.yearInvalid, ValidationError(index, YearInvalid));
    PushIf(e5, f.marks, ValidationError(index, MarksInvalid))
  }

  /** `errors` followed by the messages the validator pushes for the record at position
      `index`, in its order. */
  function WithRecordErrors(errors: seq<ValidationError>, index: nat, r: EducationRecord, currentYear: int)
    : seq<ValidationError>
  {
    WithFailed(errors, index, Failed(r, currentYear))
  }

  /** The messages for one record on its own. */
  function RecordErrors(index: nat, r: EducationRecord, currentYear: int): seq<ValidationError>
  {
    WithRecordErrors([], index, r, currentYear)
  }

  /** All messages for `records`, section by section. */
  function Errors(records: seq<EducationRecord>, currentYear: int): seq<ValidationError>
  {
    if records == [] then []
    else WithRecordErrors(Errors(records[..|records| - 1], currentYear), |records| - 1, records[|records| - 1], currentYear)
  }

  /** A graduation year the form accepts: it reads as a whole number from 1990 up to the
      current year. */
  predicate YearAccepted(y: string, currentYear: int)
  {
    match ParseInt(y)
    case None => false
    case Some(v) => 1990 <= v <= currentYear
  }

  /** Marks the form accepts: none given, or a number that is not above 100. */
  predicate MarksAccepted(m: string)
  {
    m == "" ||
    match ParseFloat(m)
    case Finite(v) => v <= 100.0
    case NegInfinity => true
    case _ => false
  }

  /** A section the form lets through. */
  predicate RecordValid(r: EducationRecord, currentYear: int)
  {
    && r.educationLevel != ""
    && !IsBlank(r.schoolCollegeName)
    && !IsBlank(r.degreeCertificate)
    && YearAccepted(r.yearOfGraduation, currentYear)
    && MarksAccepted(r.marksPercentage)
  }

  /** `validateForm`'s loop: one pass over the sections, pushing each failed check's
      message. */
  method CollectErrors(records: seq<EducationRecord>, currentYear: int) returns (errors: seq<ValidationError>)
    ensures errors == Errors(records, currentYear)
  {
    errors := [];
    for index := 0 to |records|
      invariant errors == Errors(records[..index], currentYear)
    {
      errors := PushRecordErrors(errors, index, records[index], currentYear);
      ErrorsOfLonger(records, index, currentYear);
    }
    assert records[..|records|] == records;
  }

  /** One more section adds its own messages after those of the sections before it. */
  lemma ErrorsOfLonger(records: seq<EducationRecord>, index: nat, currentYear: int)
    requires index < |records|
    ensures Errors(records[..index + 1], currentYear)
         == WithRecordErrors(Errors(records[..index], currentYear), index, records[index], currentYear)
  {
    var longer := records[..index + 1];
    assert longer[..index] == records[..index];
    assert longer[index] == records[index];
  }

  /** The messages come section by section: each names a section of the form, and a
      message never names an earlier section than the one before it. */
  lemma {:induction false} ErrorsInSectionOrder(records: seq<EducationRecord>, currentYear: int)
    ensures forall k :: 0 <= k < |Errors(records, currentYear)| ==> Errors(records, currentYear)[k].section < |records|
    ensures forall a, b :: 0 <= a < b < |Errors(records, currentYear)| ==>
      Errors(records, currentYear)[a].section <= Errors(records, currentYear)[b].section
  {
    if records != [] {
      var n := |records| - 1;
      var earlier := Errors(records[..n], currentYear);
      ErrorsInSectionOrder(records[..n], currentYear);
      SectionMessagesAppended(earlier, n, Failed(records[n], currentYear));
      SectionAppendedInOrder(earlier, Errors(records, currentYear), n);
    }
  }

  /** Messages in section order for the first `n` sections, followed by messages of
      section `n`, are in section order for the first `n + 1`. */
  lemma SectionAppendedInOrder(earlier: seq<ValidationError>, e: seq<ValidationError>, n: nat)
    requires forall k :: 0 <= k < |earlier| ==> earlier[k].section < n
    requires forall a, b :: 0 <= a < b < |earlier| ==> earlier[a].section <= earlier[b].section
    requires |earlier| <= |e| && e[..|earlier|] == earlier && forall k :: |earlier| <= k < |e| ==> e[k].section == n
    ensures forall k :: 0 <= k < |e| ==> e[k].section < n + 1
    ensures forall a, b :: 0 <= a < b < |e| ==> e[a].section <= e[b].section
  {
    forall k | 0 <= k < |e|
      ensures e[k].section < n + 1
    {
      if k < |earlier| {
        assert e[k] == earlier[k];
      }
    }
    forall a, b | 0 <= a < b < |e|
      ensures e[a].section <= e[b].section
    {
      if b < |earlier| {
        assert e[a] == earlier[a] && e[b] == earlier[b];
      } else if a < |earlier| {
        assert e[a] == earlier[a];
      }
    }
  }

  /** A section's checks only append, and every message they append names that section. */
  lemma SectionMessagesAppended(errors: seq<ValidationError>, index: nat, f: FailedChecks)
    ensures var e := WithFailed(errors, index, f);
      |errors| <= |e| && e[..|errors|] == errors && forall k :: |errors| <= k < |e| ==> e[k].section == index
  {
    var e1 := PushIf(errors, f.level, ValidationError(index, LevelMissing));
    var e2 := PushIf(e1, f.name, ValidationError(index, NameMissing));
    var e3 := PushIf(e2, f.degree, ValidationError(index, DegreeMissing));
    var e4 := PushIf(e3, f.yearMissing, ValidationError(index, YearMissing));
    var e5 := PushIf(e4, f.yearInvalid, ValidationError(index, YearInvalid));
    PushKeepsSection(errors, errors, f.level, LevelMissing, index);
    PushKeepsSection(errors, e1, f.name, NameMissing, index);
    PushKeepsSection(errors, e2, f.degree, DegreeMissing, index);
    PushKeepsSection(errors, e3, f.yearMissing, YearMissing, index);
    PushKeepsSection(errors, e4, f.yearInvalid, YearInvalid, index);
    PushKeepsSection(errors, e5, f.marks, MarksInvalid, index);
  }

  /** A push of a message naming section `index` onto messages that extend `errors` with
      messages of that section only keeps that shape. */
  lemma PushKeepsSection(errors: seq<ValidationError>, before: seq<ValidationError>, failed: bool, p: Problem, index: nat)
    requires |errors| <= |before| && before[..|errors|] == errors
    requires forall k :: |errors| <= k < |before| ==> before[k].section == index
    ensures var after := PushIf(before, failed, ValidationError(index, p));
      |errors| <= |after| && after[..|errors|] == errors && forall k :: |errors| <= k < |after| ==> after[k].section == index
  {
  }

  /** The body of the loop: the checks on one section, each pushing its message when it
      fails. */
  method PushRecordErrors(errors: seq<ValidationError>, index: nat, record: EducationRecord, currentYear: int)
    returns (pushed: seq<ValidationError>)
    ensures pushed == WithRecordErrors(errors, index, record, currentYear)
  {
    pushed := errors;
    if record.educationLevel == "" {
      pushed := pushed + [ValidationError(index, LevelMissing)];
    }
    if Trim(record.schoolCollegeName) == "" {
      pushed := pushed + [ValidationError(index, NameMissing)];
    }
    if Trim(record.degreeCertificate) == "" {
      pushed := pushed + [ValidationError(index, DegreeMissing)];
    }
    if record.yearOfGraduation == "" {
      pushed := pushed + [ValidationError(index, YearMissing)];
    }
    if YearRejected(record.yearOfGraduation, currentYear) {
      pushed := pushed + [ValidationError(index, YearInvalid)];
    }
    if record.marksPercentage != "" && MarksRejected(record.marksPercentage) {
      pushed := pushed + [ValidationError(index, MarksInvalid)];
    }
  }

  /** A section adds no message exactly when it is valid. */
  lemma RecordErrorsEmptyIffValid(errors: seq<ValidationError>, index: nat, r: EducationRecord, currentYear: int)
    ensures WithRecordErrors(errors, index, r, currentYear) == [] <==> errors == [] && RecordValid(r, currentYear)
  {
    RecordErrorsEmptyIffChecksPass(errors, index, r, currentYear);
    TrimEmptyIffBlank(r.schoolCollegeName);
    TrimEmptyIffBlank(r.degreeCertificate);
    YearCheck(r.yearOfGraduation, currentYear);
    MarksCheck(r.marksPercentage);
  }

  lemma RecordErrorsEmptyIffChecksPass(errors: seq<ValidationError>, index: nat, r: EducationRecord, currentYear: int)
    ensures WithRecordErrors(errors, index, r, currentYear) == [] <==>
      && errors == []
      && r.educationLevel != "" && Trim(r.schoolCollegeName) != "" && Trim(r.degreeCertificate) != ""
      && r.yearOfGraduation != "" && !YearRejected(r.yearOfGraduation, currentYear)
      && !(r.marksPercentage != "" && MarksRejected(r.marksPercentage))
  {
  }

  /** The year checks reject exactly the years the form does not accept; an empty year
      is among them. */
  lemma YearCheck(y: string, currentYear: int)
    ensures YearRejected(y, currentYear) <==> !YearAccepted(y, currentYear)
    ensures y == "" ==> YearRejected(y, currentYear)
  {
    assert ParseInt("") == None;
  }

  /** The marks check rejects exactly the marks the form does not accept. */
  lemma MarksCheck(m: string)
    ensures (m != "" && MarksRejected(m)) <==> !MarksAccepted(m)
  {
  }

  /** The form passes validation exactly when every section is valid. */
  lemma ErrorsEmptyIffAllValid(records: seq<EducationRecord>, currentYear: int)
    ensures Errors(records, currentYear) == [] <==> forall i :: 0 <= i < |records| ==> RecordValid(records[i], currentYear)
  {
    ErrorsEmptyIffAll(records, currentYear);
  }

  /** The induction behind `ErrorsEmptyIffAllValid`, with validity passed as a function so
      that each step looks at one record only. */
  lemma {:induction false} ErrorsEmptyIffAll(records: seq<EducationRecord>, currentYear: int)
    ensures Errors(records, currentYear) == [] <==>
      forall i :: 0 <= i < |records| ==> (r => RecordValid(r, currentYear))(records[i])
  {
    if records != [] {
      var n := |records| - 1;
      ErrorsEmptyIffAll(records[..n], currentYear);
      RecordErrorsEmptyIffValid(Errors(records[..n], currentYear), n, records[n], currentYear);
      AllSplit(records, records[..n], r => RecordValid(r, currentYear));
    }
  }

  /** Every element satisfies `p` exactly when every element but the last does and the
      last does. */
  lemma AllSplit<T>(xs: seq<T>, front: seq<T>, p: T -> bool)
    requires xs != [] && front == xs[..|xs| - 1]
    ensures (forall i :: 0 <= i < |xs| ==> p(xs[i])) <==>
      (forall i :: 0 <= i < |front| ==> p(front[i])) && p(xs[|xs| - 1])
  {
    assert forall i :: 0 <= i < |front| ==> front[i] == xs[i];
  }

  /** An empty year is reported twice: as missing and as not a valid year. */
  lemma EmptyYearReportedTwice(index: nat, r: EducationRecord, currentYear: int)
    requires r.yearOfGraduation == ""
    ensures ValidationError(index, YearMissing) in RecordErrors(index, r, currentYear)
    ensures ValidationError(index, YearInvalid) in RecordErrors(index, r, currentYear)
  {
    assert ParseInt("") == None;
  }

  /** A year written as plain digits is accepted exactly when it lies in [1990, current]. */
  lemma YearBounds(y: nat, currentYear: int)
    ensures YearAccepted(NatToString(y), currentYear) <==> 1990 <= y <= currentYear
  {
    ParseIntOfNatToString(y);
  }

  /** The marks check lets through an empty field and negative numbers, although its
      message speaks of 0-100. */
  lemma NegativeMarksAccepted(digits: string)
    requires digits != [] && forall i :: 0 <= i < |digits| ==> DigitValue(digits[i], 10) >= 0
    ensures MarksAccepted("") && MarksAccepted("-" + digits)
  {
    ParseFloatOfDigits(true, digits);
  }

  /** A plain number above 100 is rejected. */
  lemma MarksAboveHundredRejected(digits: string)
    requires digits != [] && forall i :: 0 <= i < |digits| ==> DigitValue(digits[i], 10) >= 0
    requires DigitsValue(digits, 10) > 100
    ensures !MarksAccepted(digits)
  {
    ParseFloatOfDigits(false, digits);
    assert "" + digits == digits;
  }

  /** Text with no leading number is rejected. */
  lemma NonNumericMarksRejected(m: string)
    requires m != [] && 'a' <= m[0] <= 'z' && m[0] != 'e'
    ensures !MarksAccepted(m)
  {
    assert TrimStart(m) == m;
    assert Sign(m) == (false, m);
    assert !InfinityPrefixed(m);
    assert DigitPrefixLength(m, 10) == 0;
    assert DecimalPart(m) == None;
    assert ParseFloat(m) == NaN;
  }

  // ---------------------------------------------------------------------------
  // Labels
  // ---------------------------------------------------------------------------

  /** `getEducationLevelLabel`: the display name of a level key, "Education" for any
      other key. */
  function LevelLabel(level: string): string
  {
    if level == "class_10" then "10th Grade"
    else if level == "class_12" then "12th Grade"
    else if level == "diploma" then "Diploma"
    else if level == "graduate" then "Graduation"
    else if level == "post_graduate" then "Post-Graduation"
    else "Education"
  }

  const LevelKeys: seq<string> := ["class_10", "class_12", "diploma", "graduate", "post_graduate"]

  /** Known keys get their own, pairwise distinct labels; every other key gets the
      fallback. */
  lemma LevelLabels(level: string)
    ensures LevelLabel(level) == "Education" <==> level !in LevelKeys
    ensures forall i, j :: 0 <= i < j < |LevelKeys| ==> LevelLabel(LevelKeys[i]) != LevelLabel(LevelKeys[j])
  {
  }

  // ---------------------------------------------------------------------------
  // Storage form of a section
  // ---------------------------------------------------------------------------

  /** `x || null`. */
  function OrNull(s: string): Option<string>
  {
    if s == "" then None else Some(s)
  }

  /** `x || ''` on a stored optional text. */
  function OrEmpty(s: Option<string>): string
  {
    match s case None => "" case Some(t) => t
  }

  /** What `parseFloat` yields once stored: finite values as they are, the rest as null. */
  function StoredNumber(x: JsNumber): Option<real>
  {
    match x case Finite(v) => Some(v) case _ => None
  }

  /** `marks ? parseFloat(marks) : null`, as stored. */
  function StoredMarks(m: string): Option<real>
  {
    if m != "" then StoredNumber(ParseFloat(m)) else None
  }

  /** `marks?.toString() || ''` on a stored value. */
  function MarksText(stored: Option<real>, numberText: real -> string): string
  {
    match stored case None => "" case Some(v) => numberText(v)
  }

  /** The row the save inserts for a section. */
  function ToRow(r: EducationRecord): EducationRow
  {
    EducationRow(
      r.educationLevel, r.schoolCollegeName, r.degreeCertificate,
      ParseInt(r.yearOfGraduation), StoredMarks(r.marksPercentage),
      OrNull(r.schoolCollegeAddress), OrNull(r.schoolType), OrNull(r.subjects))
  }

  /** The batch the save inserts: one row per section, in order. */
  function ToRows(records: seq<EducationRecord>): (rows: seq<EducationRow>)
    ensures |rows| == |records|
  {
    if records == [] then [] else [ToRow(records[0])] + ToRows(records[1..])
  }

  lemma {:induction false} ToRowsAt(records: seq<EducationRecord>, k: nat)
    requires k < |records|
    ensures ToRows(records)[k] == ToRow(records[k])
  {
    if k > 0 {
      ToRowsAt(records[1..], k - 1);
    }
  }

  /** `number.toString()` for a whole number. */
  function IntText(n: int): string
  {
    if n < 0 then "-" + NatToString(-n) else NatToString(n)
  }

  /** The section a stored row is loaded back as; `numberText` is the engine's rendering
      of a number. */
  function RecordOfRow(row: EducationRow, numberText: real -> string): EducationRecord
    requires row.yearOfGraduation.Some?
  {
    EducationRecord(
      row.educationLevel, row.schoolCollegeName, row.degreeCertificate,
      IntText(row.yearOfGraduation.value), MarksText(row.marksPercentage, numberText),
      OrEmpty(row.schoolCollegeAddress), OrEmpty(row.schoolType), OrEmpty(row.subjects))
  }

  predicate YearsPresent(rows: seq<Row<EducationRow>>)
  {
    forall k :: 0 <= k < |rows| ==> rows[k].data.yearOfGraduation.Some?
  }

  function RecordsOfRows(rows: seq<Row<EducationRow>>, numberText: real -> string): (records: seq<EducationRecord>)
    requires YearsPresent(rows)
    ensures |records| == |rows|
    ensures forall k :: 0 <= k < |rows| ==> records[k] == RecordOfRow(rows[k].data, numberText)
  {
    if rows == [] then [] else [RecordOfRow(rows[0].data, numberText)] + RecordsOfRows(rows[1..], numberText)
  }

  /** A rendering `parseFloat` reads back exactly, as the engine's shortest round-trip
      rendering is. */
  ghost predicate ReadsBack(numberText: real -> string)
  {
    forall v :: ParseFloat(numberText(v)) == Finite(v)
  }

  /** An accepted year is stored as a number whose decimal text reads back as the same
      number. */
  lemma YearRoundTrip(y: string, currentYear: int)
    requires YearAccepted(y, currentYear)
    ensures ParseInt(y).Some? && ParseInt(y).value >= 1990
    ensures ParseInt(IntText(ParseInt(y).value)) == ParseInt(y)
    ensures YearAccepted(IntText(ParseInt(y).value), currentYear)
  {
    ParseIntOfNatToString(ParseInt(y).value);
  }

  /** Accepted marks are stored as a value whose rendering is stored again as the same
      value, and is itself accepted. */
  lemma MarksRoundTrip(m: string, numberText: real -> string)
    requires MarksAccepted(m)
    requires ReadsBack(numberText)
    ensures StoredMarks(MarksText(StoredMarks(m), numberText)) == StoredMarks(m)
    ensures MarksAccepted(MarksText(StoredMarks(m), numberText))
  {
    var stored := StoredMarks(m);
    if stored.Some? {
      var t := numberText(stored.value);
      assert ParseFloat(t) == Finite(stored.value);
      assert t != "" by {
        assert ParseFloat("") == NaN;
      }
    }
  }

  /** An optional text survives `|| null` followed by `|| ''`. */
  lemma OptionalTextRoundTrip(s: string)
    ensures OrEmpty(OrNull(s)) == s && OrNull(OrEmpty(OrNull(s))) == OrNull(s)
  {
  }

  /** Saving a valid section, loading it back and saving it again stores the same row,
      and the loaded section is valid again. */
  lemma ReloadThenSaveStoresSameRow(r: EducationRecord, currentYear: int, numberText: real -> string)
    requires RecordValid(r, currentYear)
    requires ReadsBack(numberText)
    ensures ToRow(r).yearOfGraduation.Some?
    ensures ToRow(RecordOfRow(ToRow(r), numberText)) == ToRow(r)
    ensures RecordValid(RecordOfRow(ToRow(r), numberText), currentYear)
  {
    YearRoundTrip(r.yearOfGraduation, currentYear);
    MarksRoundTrip(r.marksPercentage, numberText);
    var back := RecordOfRow(ToRow(r), numberText);
    ReloadedFields(r, numberText);
    ReloadedValid(r, back, currentYear);
  }

  /** The fields of a section loaded back from its row: the year and marks as rendered
      again, every text field as it was. */
  lemma ReloadedFields(r: EducationRecord, numberText: real -> string)
    requires ParseInt(r.yearOfGraduation).Some?
    ensures var back := RecordOfRow(ToRow(r), numberText);
      && back.yearOfGraduation == IntText(ParseInt(r.yearOfGraduation).value)
      && back.marksPercentage == MarksText(StoredMarks(r.marksPercentage), numberText)
      && back.educationLevel == r.educationLevel
      && back.schoolCollegeName == r.schoolCollegeName
      && back.degreeCertificate == r.degreeCertificate
      && OrNull(back.schoolCollegeAddress) == OrNull(r.schoolCollegeAddress)
      && OrNull(back.schoolType) == OrNull(r.schoolType)
      && OrNull(back.subjects) == OrNull(r.subjects)
  {
    OptionalTextRoundTrip(r.schoolCollegeAddress);
    OptionalTextRoundTrip(r.schoolType);
    OptionalTextRoundTrip(r.subjects);
  }

  /** A loaded section whose text fields are the original's and whose year and marks are
      accepted is valid. */
  lemma ReloadedValid(r: EducationRecord, back: EducationRecord, currentYear: int)
    requires RecordValid(r, currentYear)
    requires back.educationLevel == r.educationLevel
    requires back.schoolCollegeName == r.schoolCollegeName && back.degreeCertificate == r.degreeCertificate
    requires YearAccepted(back.yearOfGraduation, currentYear) && MarksAccepted(back.marksPercentage)
    ensures RecordValid(back, currentYear)
  {
  }

  // ---------------------------------------------------------------------------
  // The form
  // ---------------------------------------------------------------------------

  const SavedMessage := "Academic details saved successfully!"
  const SaveFailedMessage := "Error saving details. Please try again."

  class AcademicDetailsForm {
    const studentId: string
    /** The `student_education_history` table. */
    const table: Table<EducationRow>
    var educationRecords: seq<EducationRecord>
    var showAddMore: bool
    var loading: bool
    var message: string
    var validationErrors: seq<ValidationError>
    /** How many times the parent's `onUpdate` has been called. */
    var updates: nat

    constructor (studentId: string, table: Table<EducationRow>)
      ensures this.studentId == studentId && this.table == table
      ensures educationRecords == [EmptyRecord()]
      ensures !showAddMore && !loading && message == "" && validationErrors == [] && updates == 0
    {
      this.studentId := studentId;
      this.table := table;
      educationRecords := [EmptyRecord()];
      showAddMore := false;
      loading := false;
      message := "";
      validationErrors := [];
      updates := 0;
    }

    /** `loadEducationHistory`, with whether the query returned data as an input: the
        student's stored rows, in insertion order, replace the sections when there are any.
        A failed query leaves the sections; so does a row without a year, whose conversion
        throws. */
    method LoadEducationHistory(queryOk: bool, numberText: real -> string)
      modifies this`educationRecords, this`showAddMore
      ensures var mine := ForStudent(table.rows, studentId);
        if studentId != "" && queryOk && |mine| > 0 && YearsPresent(mine)
        then educationRecords == RecordsOfRows(mine, numberText) && !showAddMore
        else educationRecords == old(educationRecords) && showAddMore == old(showAddMore)
    {
      if studentId == "" {
        return;
      }
      if !queryOk {
        return;
      }
      var mine := ForStudent(table.rows, studentId);
      if |mine| > 0 && YearsPresent(mine) {
        educationRecords := RecordsOfRows(mine, numberText);
        showAddMore := false;
      }
    }

    /** `handleRecordChange`: one field of one section takes the typed value. */
    method HandleRecordChange(index: nat, field: Field, value: string)
      requires index < |educationRecords|
      modifies this`educationRecords
      ensures educationRecords == old(educationRecords)[index := With(old(educationRecords)[index], field, value)]
    {
      educationRecords := educationRecords[index := With(educationRecords[index], field, value)];
    }

    /** `handleAddEducation`: an empty section at the end, and the prompt closes. */
    method HandleAddEducation()
      modifies this`educationRecords, this`showAddMore
      ensures educationRecords == old(educationRecords) + [EmptyRecord()]
      ensures !showAddMore
    {
      educationRecords := educationRecords + [EmptyRecord()];
      showAddMore := false;
    }

    /** `handleRemoveEducation`. */
    method HandleRemoveEducation(index: nat)
      modifies this`educationRecords
      ensures educationRecords == RemoveAt(old(educationRecords), index)
    {
      educationRecords := RemoveAt(educationRecords, index);
    }

    /** `validateForm`: records every message and reports whether there were none. */
    method ValidateForm(currentYear: int) returns (ok: bool)
      modifies this`validationErrors
      ensures validationErrors == Errors(educationRecords, currentYear)
      ensures ok <==> validationErrors == []
    {
      validationErrors := CollectErrors(educationRecords, currentYear);
      ok := validationErrors == [];
    }

    /** The try block of `handleSubmit` with the backend's answers as inputs: whether the
        delete of the old rows and the insert of the new ones went through. The delete's
        error is not looked at; an insert error ends in the failure message. */
    method SaveRecords(deleteOk: bool, insertOk: bool)
      requires table.Valid()
      modifies this`message, this`loading, this`updates, table
      ensures table.Valid() && !loading
      ensures ReplacedBy(old(table.rows), table.rows, studentId, ToRows(educationRecords), deleteOk, insertOk)
      ensures message == if insertOk then SavedMessage else SaveFailedMessage
      ensures updates == old(updates) + if insertOk then 1 else 0
    {
      loading := true;
      table.ReplaceForStudent(studentId, ToRows(educationRecords), deleteOk, insertOk);
      if insertOk {
        message := SavedMessage;
        updates := updates + 1;
      } else {
        message := SaveFailedMessage;
      }
      loading := false;
    }

    /** `handleSubmit`: validate, and save only when no message was recorded. */
    method HandleSubmit(currentYear: int, deleteOk: bool, insertOk: bool)
      requires table.Valid()
      modifies this`message, this`loading, this`validationErrors, this`updates, table
      ensures table.Valid()
      ensures validationErrors == Errors(educationRecords, currentYear)
      ensures validationErrors != [] ==>
        message == "" && loading == old(loading) && table.rows == old(table.rows) && updates == old(updates)
      ensures validationErrors == [] ==>
        && !loading
        && ReplacedBy(old(table.rows), table.rows, studentId, ToRows(educationRecords), deleteOk, insertOk)
        && message == (if insertOk then SavedMessage else SaveFailedMessage)
        && updates == old(updates) + (if insertOk then 1 else 0)
    {
      message := "";
      var ok := ValidateForm(currentYear);
      if ok {
        SaveRecords(deleteOk, insertOk);
      }
    }
  }
}
