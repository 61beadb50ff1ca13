/**
 * The registration tab: five sub-tabs, the first two of which are ringed as complete once
 * the student's stored personal details, or stored school and grade, are filled in. The
 * two flags are only ever raised.
 */
module RegistrationTab {
  import opened Text
  import opened Tables
  import opened PersonalDetails

  datatype SubTab = Personal | Academic | Extracurricular | Screening | Documents

  /** The two columns read from a `student_academic_details` row; either may be null. */
  datatype AcademicColumns = AcademicColumns(schoolName: Option<string>, grade: Option<string>)

  /** A value that JavaScript treats as true: a non-null, non-empty string. */
  predicate Truthy(s: Option<string>)
  {
    s.Some? && s.value != ""
  }

  /** The personal-details test: a row was found and its first name, last name, email and
      phone are all non-empty. */
  predicate PersonalComplete(found: Option<Row<PersonalData>>)
  {
    && found.Some?
    && found.value.data.firstName != "" && found.value.data.lastName != ""
    && found.value.data.email != "" && found.value.data.phone != ""
  }

  /** The inputs the personal test looks at. */
  predicate Required(f: FieldName)
  {
    f == FirstName || f == LastName || f == Email || f == Phone
  }

  /** The personal test holds exactly when a row was found whose every required input,
      as the personal-details form shows it, is non-empty. */
  lemma PersonalCompleteIffRequiredFilled(found: Option<Row<PersonalData>>)
    ensures PersonalComplete(found) <==>
      found.Some? && forall f :: Required(f) ==> Get(found.value.data, f) != Text("")
  {
    if found.Some? && forall f :: Required(f) ==> Get(found.value.data, f) != Text("") {
      var d := found.value.data;
      assert Get(d, FirstName) != Text("") && Get(d, LastName) != Text("");
      assert Get(d, Email) != Text("") && Get(d, Phone) != Text("");
    }
  }

  /** The academic test: a row was found and its school name and grade are both set. */
  predicate AcademicComplete(found: Option<Row<AcademicColumns>>)
  {
    found.Some? && Truthy(found.value.data.schoolName) && Truthy(found.value.data.grade)
  }

  class RegistrationTab {
    const studentId: string
    /** The `student_registration` table. */
    const personalTable: Table<PersonalData>
    /** The `student_academic_details` table. */
    const academicTable: Table<AcademicColumns>
    var activeSubTab: SubTab
    var personalComplete: bool
    var academicComplete: bool
    /** How many times the parent's `onProgressUpdate` has been called. */
    var progressUpdates: nat

    constructor (studentId: string, personalTable: Table<PersonalData>, academicTable: Table<AcademicColumns>)
      ensures this.studentId == studentId
      ensures this.personalTable == personalTable && this.academicTable == academicTable
      ensures activeSubTab == Personal && !personalComplete && !academicComplete && progressUpdates == 0
    {
      this.studentId := studentId;
      this.personalTable := personalTable;
      this.academicTable := academicTable;
      activeSubTab := Personal;
      personalComplete := false;
      academicComplete := false;
      progressUpdates := 0;
    }

    /** `checkPersonalDetailsCompletion`, with whether each of its two lookups answered as
        inputs: raises each flag whose test passes on the student's single row, and never
        lowers one; a failed lookup finds nothing and leaves its flag as it was. */
    method CheckCompletion(personalOk: bool, academicOk: bool)
      modifies this`personalComplete, this`academicComplete
      ensures personalComplete == (old(personalComplete) ||
        (studentId != "" && PersonalComplete(Lookup(personalTable.rows, studentId, personalOk))))
      ensures academicComplete == (old(academicComplete) ||
        (studentId != "" && AcademicComplete(Lookup(academicTable.rows, studentId, academicOk))))
    {
      if studentId == "" {
        return;
      }
      var data := Lookup(personalTable.rows, studentId, personalOk);
      if PersonalComplete(data) {
        personalComplete := true;
      }
      var academic := Lookup(academicTable.rows, studentId, academicOk);
      if AcademicComplete(academic) {
        academicComplete := true;
      }
    }

    /** The `onUpdate` handed to the personal, academic and documents forms: re-check, then
        tell the parent. */
    method OnFormUpdate(personalOk: bool, academicOk: bool)
      modifies this`personalComplete, this`academicComplete, this`progressUpdates
      ensures personalComplete == (old(personalComplete) ||
        (studentId != "" && PersonalComplete(Lookup(personalTable.rows, studentId, personalOk))))
      ensures academicComplete == (old(academicComplete) ||
        (studentId != "" && AcademicComplete(Lookup(academicTable.rows, studentId, academicOk))))
      ensures progressUpdates == old(progressUpdates) + 1
    {
      CheckCompletion(personalOk, academicOk);
      progressUpdates := progressUpdates + 1;
    }

    method SelectSubTab(t: SubTab)
      modifies this`activeSubTab
      ensures activeSubTab == t
    {
      activeSubTab := t;
    }

    /** The sub-tab buttons in order, each with whether it is ringed as complete: only the
        personal and academic ones can be. */
    function SubTabs(): (tabs: seq<(SubTab, bool)>)
      reads this
      ensures |tabs| == 5
      ensures tabs[0] == (Personal, personalComplete) && tabs[1] == (Academic, academicComplete)
      ensures forall i :: 2 <= i < 5 ==> !tabs[i].1
      ensures forall i, j :: 0 <= i < j < 5 ==> tabs[i].0 != tabs[j].0
    {
      [(Personal, personalComplete), (Academic, academicComplete),
       (Extracurricular, false), (Screening, false), (Documents, false)]
    }
  }

  /** A personal-details save that leaves the student a single row with the four required
      fields filled makes the next check ring the personal sub-tab. */
  lemma SavedDetailsRing(rows: seq<Row<PersonalData>>, sid: string, d: PersonalData)
    requires MaybeSingle(rows, sid).Some? && MaybeSingle(rows, sid).value.data == d
    requires forall f :: Required(f) ==> Get(d, f) != Text("")
    ensures PersonalComplete(Lookup(rows, sid, true))
  {
    PersonalCompleteIffRequiredFilled(Lookup(rows, sid, true));
  }
}
