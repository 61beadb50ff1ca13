/**
 * The personal-details form: thirteen fields the student edits, loaded from and saved to
 * the student's `student_registration` row (updated when exactly one is found, inserted
 * otherwise).
 */
module PersonalDetails {
  import opened Text
  import opened Tables

  /** The form's state, which is also the payload of a `student_registration` row. `age` is
      kept as typed; the BPL and disability answers are booleans. */
  datatype PersonalData = PersonalData(
    firstName: string,
    lastName: string,
    email: string,
    phone: string,
    dateOfBirth: string,
    gender: string,
    address: string,
    age: string,
    locationType: string,
    familyStructure: string,
    bplStatus: bool,
    disability: bool,
    disabilityDescription: string)

  /** The inputs wired to the generic change handler, by their `name`. The BPL select has a
      handler of its own. */
  datatype FieldName =
    | FirstName | LastName | Email | Phone | DateOfBirth | Gender | Address | Age
    | LocationType | FamilyStructure | Disability | DisabilityDescription

  /** The initial form: every text empty, both flags off. */
  function EmptyForm(): PersonalData
  {
    PersonalData("", "", "", "", "", "", "", "", "", "", false, false, "")
  }

  /** The value an input shows: a text field's string, or for the checkbox its state. */
  datatype Value = Text(text: string) | Checked(on: bool)

  function Get(d: PersonalData, f: FieldName): Value
  {
    match f
    case FirstName => Text(d.firstName)
    case LastName => Text(d.lastName)
    case Email => Text(d.email)
    case Phone => Text(d.phone)
    case DateOfBirth => Text(d.dateOfBirth)
    case Gender => Text(d.gender)
    case Address => Text(d.address)
    case Age => Text(d.age)
    case LocationType => Text(d.locationType)
    case FamilyStructure => Text(d.familyStructure)
    case Disability => Checked(d.disability)
    case DisabilityDescription => Text(d.disabilityDescription)
  }

  /** `handleChange`: the input named `f` stores its `checked` state when it is the checkbox
      and its `value` otherwise; no other field, and not the BPL answer, changes. */
  function HandleChange(d: PersonalData, f: FieldName, value: string, checked: bool): (d': PersonalData)
    ensures Get(d', f) == if f == Disability then Checked(checked) else Text(value)
    ensures forall g :: g != f ==> Get(d', g) == Get(d, g)
    ensures d'.bplStatus == d.bplStatus
  {
    match f
    case FirstName => d.(firstName := value)
    case LastName => d.(lastName := value)
    case Email => d.(email := value)
    case Phone => d.(phone := value)
    case DateOfBirth => d.(dateOfBirth := value)
    case Gender => d.(gender := value)
    case Address => d.(address := value)
    case Age => d.(age := value)
    case LocationType => d.(locationType := value)
    case FamilyStructure => d.(familyStructure := value)
    case Disability => d.(disability := checked)
    case DisabilityDescription => d.(disabilityDescription := value)
  }

  /** Two forms that show the same value in every input and the same BPL answer are the
      same form. */
  lemma SameInputsSameForm(d: PersonalData, e: PersonalData)
    requires forall g :: Get(d, g) == Get(e, g)
    requires d.bplStatus == e.bplStatus
    ensures d == e
  {
    assert Get(d, FirstName) == Get(e, FirstName);
    assert Get(d, LastName) == Get(e, LastName);
    assert Get(d, Email) == Get(e, Email);
    assert Get(d, Phone) == Get(e, Phone);
    assert Get(d, DateOfBirth) == Get(e, DateOfBirth);
    assert Get(d, Gender) == Get(e, Gender);
    assert Get(d, Address) == Get(e, Address);
    assert Get(d, Age) == Get(e, Age);
    assert Get(d, LocationType) == Get(e, LocationType);
    assert Get(d, FamilyStructure) == Get(e, FamilyStructure);
    assert Get(d, Disability) == Get(e, Disability);
    assert Get(d, DisabilityDescription) == Get(e, DisabilityDescription);
  }

  /** Retyping a field's current value leaves the form as it was. */
  lemma RetypeUnchanged(d: PersonalData, f: FieldName)
    ensures HandleChange(d, f, if Get(d, f).Text? then Get(d, f).text else "",
                         if Get(d, f).Checked? then Get(d, f).on else false) == d
  {
    var v := if Get(d, f).Text? then Get(d, f).text else "";
    var c := if Get(d, f).Checked? then Get(d, f).on else false;
    SameInputsSameForm(HandleChange(d, f, v, c), d);
  }

  // ---------------------------------------------------------------------------
  // The BPL select
  // ---------------------------------------------------------------------------

  /** The option the BPL select shows. */
  function BplOption(bpl: bool): (v: string)
    ensures v == "yes" || v == "no"
  {
    if bpl then "yes" else "no"
  }

  /** The BPL answer an option stands for: only `"yes"` sets it. */
  function BplOfOption(v: string): bool
  {
    v == "yes"
  }

  /** Choosing the option shown keeps the answer, and for the two offered options, showing
      the answer chosen gives back the option. */
  lemma BplRoundTrip(bpl: bool, v: string)
    ensures BplOfOption(BplOption(bpl)) == bpl
    ensures v == "yes" || v == "no" ==> BplOption(BplOfOption(v)) == v
  {
  }

  /** The BPL select's own change handler. */
  function HandleBplChange(d: PersonalData, v: string): (d': PersonalData)
    ensures d'.bplStatus == BplOfOption(v)
    ensures forall g :: Get(d', g) == Get(d, g)
  {
    d.(bplStatus := v == "yes")
  }

  /** The description box is shown only while the disability box is ticked. */
  predicate ShowsDisabilityDescription(d: PersonalData)
  {
    d.disability
  }

  // ---------------------------------------------------------------------------
  // Loading and saving
  // ---------------------------------------------------------------------------

  /** The form `loadPersonalDetails` leaves: the student's single row when the lookup
      answers and finds one, the current form otherwise (and always without a student id). */
  function LoadedForm(rows: seq<Row<PersonalData>>, sid: string, answered: bool, current: PersonalData): (d: PersonalData)
    ensures sid != "" && Lookup(rows, sid, answered).Some? ==> d == Lookup(rows, sid, answered).value.data
    ensures sid == "" || !answered || CountFor(rows, sid) != 1 ==> d == current
  {
    if sid == "" then current
    else match Lookup(rows, sid, answered)
      case Some(row) => row.data
      case None => current
  }

  /** A save whose lookup failed while the student already had a row inserts a second
      one; from then on the load finds no single row and the form keeps what it showed. */
  lemma FailedLookupHidesDetails(rows: seq<Row<PersonalData>>, sid: string, id: nat, d: PersonalData,
                                 current: PersonalData)
    requires sid != "" && CountFor(rows, sid) == 1
    ensures CountFor(rows + [Row(id, sid, d)], sid) == 2
    ensures LoadedForm(rows + [Row(id, sid, d)], sid, true, current) == current
  {
    InsertBesideSingle(rows, Row(id, sid, d));
  }

  const SavedMessage := "Personal details saved successfully!"

  class PersonalDetailsForm {
    const studentId: string
    /** The `student_registration` table. */
    const table: Table<PersonalData>
    var formData: PersonalData
    var loading: bool
    var message: string
    /** How many times the parent's `onUpdate` has been called. */
    var updates: nat

    constructor (studentId: string, table: Table<PersonalData>)
      ensures this.studentId == studentId && this.table == table
      ensures formData == EmptyForm() && !loading && message == "" && updates == 0
    {
      this.studentId := studentId;
      this.table := table;
      formData := EmptyForm();
      loading := false;
      message := "";
      updates := 0;
    }

    /** `loadPersonalDetails`, with whether the lookup answered as an input. */
    method LoadPersonalDetails(lookupOk: bool)
      modifies this`formData
      ensures formData == LoadedForm(table.rows, studentId, lookupOk, old(formData))
    {
      if studentId == "" {
        return;
      }
      var found := Lookup(table.rows, studentId, lookupOk);
      if found.Some? {
        formData := found.value.data;
      }
    }

    method Change(f: FieldName, value: string, checked: bool)
      modifies this`formData
      ensures formData == HandleChange(old(formData), f, value, checked)
    {
      formData := HandleChange(formData, f, value, checked);
    }

    method ChangeBpl(v: string)
      modifies this`formData
      ensures formData == HandleBplChange(old(formData), v)
    {
      formData := HandleBplChange(formData, v);
    }

    /** `handleSubmit`, with whether the existence lookup answered and whether the update
        or insert went through as inputs. The write's answer is not looked at: the success
        message shows and the parent is told either way. The student id is not checked. */
    method HandleSubmit(lookupOk: bool, writeOk: bool)
      requires table.Valid()
      modifies this`loading, this`message, this`updates, table
      ensures table.Valid() && !loading
      ensures message == SavedMessage && updates == old(updates) + 1
      ensures var n := CountFor(old(table.rows), studentId);
        CountFor(table.rows, studentId) == n + (if (n != 1 || !lookupOk) && writeOk then 1 else 0)
      ensures forall other :: other != studentId ==> ForStudent(table.rows, other) == ForStudent(old(table.rows), other)
      ensures writeOk && (lookupOk || CountFor(old(table.rows), studentId) == 0) && CountFor(old(table.rows), studentId) <= 1 ==>
        var mine := MaybeSingle(table.rows, studentId);
        mine.Some? && mine.value.data == formData
      ensures writeOk && (lookupOk || CountFor(old(table.rows), studentId) == 0) && CountFor(old(table.rows), studentId) <= 1
              && studentId != "" ==>
        LoadedForm(table.rows, studentId, true, EmptyForm()) == formData
    {
      loading := true;
      message := "";
      SaveDetails(lookupOk, writeOk);
      message := SavedMessage;
      updates := updates + 1;
      loading := false;
    }

    /** The update-or-insert of the student's row: an update when the lookup found the
        single row, an insert otherwise, including when the lookup failed. */
    method SaveDetails(lookupOk: bool, writeOk: bool)
      requires table.Valid()
      modifies table
      ensures table.Valid()
      ensures var n := CountFor(old(table.rows), studentId);
        CountFor(table.rows, studentId) == n + (if (n != 1 || !lookupOk) && writeOk then 1 else 0)
      ensures forall other :: other != studentId ==> ForStudent(table.rows, other) == ForStudent(old(table.rows), other)
      ensures writeOk && (lookupOk || CountFor(old(table.rows), studentId) == 0) && CountFor(old(table.rows), studentId) <= 1 ==>
        var mine := MaybeSingle(table.rows, studentId);
        mine.Some? && mine.value.data == formData
    {
      var existing := Lookup(table.rows, studentId, lookupOk);
      if !writeOk {
        return;
      }
      ghost var before := table.rows;
      if existing.Some? {
        table.UpdateStudentRows(studentId, formData);
        UpdateSingleStudentRow(before, studentId, formData);
        forall other | other != studentId
          ensures ForStudent(table.rows, other) == ForStudent(before, other)
        {
          UpdateForStudentOthers(before, studentId, formData, other);
        }
      } else {
        var id := table.Insert(studentId, formData);
        InsertOwnRow(before, studentId, Row(id, studentId, formData));
      }
    }
  }
}
