/**
 * The extracurricular-activities list: the student drafts an activity (name, description,
 * optional duration) and adds it as a row of `student_extracurricular`, or deletes a listed
 * one by its id.
 */
module Extracurricular {
  import opened Tables

  /** An activity as drafted and as stored (without its id and `student_id`). */
  datatype Activity = Activity(activityName: string, description: string, duration: string)

  /** The draft's inputs. */
  datatype Field = ActivityName | Description | Duration

  function EmptyDraft(): Activity
  {
    Activity("", "", "")
  }

  function Get(d: Activity, f: Field): string
  {
    match f
    case ActivityName => d.activityName
    case Description => d.description
    case Duration => d.duration
  }

  /** `setX({ ...x, [field]: value })`: the input's field takes the typed value and the
      others stay. */
  function With(d: Activity, f: Field, v: string): (d': Activity)
    ensures Get(d', f) == v
    ensures forall g :: g != f ==> Get(d', g) == Get(d, g)
  {
    match f
    case ActivityName => d.(activityName := v)
    case Description => d.(description := v)
    case Duration => d.(duration := v)
  }

  /** The add guard: the name and the description are both non-empty; the duration is optional. */
  predicate Addable(d: Activity)
  {
    d.activityName != "" && d.description != ""
  }

  /** The inputs marked required. */
  predicate Required(f: Field)
  {
    f == ActivityName || f == Description
  }

  /** A draft can be added exactly when none of its required inputs is empty. */
  lemma AddableIffRequiredFilled(d: Activity)
    ensures Addable(d) <==> forall f :: Required(f) ==> Get(d, f) != ""
  {
    assert Required(ActivityName) ==> Get(d, ActivityName) == d.activityName;
    assert Required(Description) ==> Get(d, Description) == d.description;
  }

  const RefusedMessage := "Please fill all required fields"
  const AddedMessage := "Activity added successfully!"

  class ExtracurricularForm {
    const studentId: string
    /** The `student_extracurricular` table. */
    const table: Table<Activity>
    var activities: seq<Row<Activity>>
    var newActivity: Activity
    var loading: bool
    var message: string

    constructor (studentId: string, table: Table<Activity>)
      ensures this.studentId == studentId && this.table == table
      ensures activities == [] && newActivity == EmptyDraft() && !loading && message == ""
    {
      this.studentId := studentId;
      this.table := table;
      activities := [];
      newActivity := EmptyDraft();
      loading := false;
      message := "";
    }

    /** `loadActivities`, with whether the query returned data as an input: the list becomes
        exactly the student's rows. */
    method Load(queryOk: bool)
      modifies this`activities
      ensures activities == if studentId != "" && queryOk then ForStudent(table.rows, studentId) else old(activities)
    {
      if studentId == "" {
        return;
      }
      if queryOk {
        activities := ForStudent(table.rows, studentId);
      }
    }

    method ChangeDraft(f: Field, v: string)
      modifies this`newActivity
      ensures newActivity == With(old(newActivity), f, v)
    {
      newActivity := With(newActivity, f, v);
    }

    /** `handleAddActivity`, with whether the insert and the reload went through as inputs. The
        insert's answer is not looked at, so the draft is cleared and the success message
        shown either way; the student id is not checked. */
    method Add(insertOk: bool, reloadOk: bool)
      requires table.Valid()
      modifies this`loading, this`message, this`newActivity, this`activities, table
      ensures table.Valid()
      ensures !Addable(old(newActivity)) ==>
        && message == RefusedMessage && table.rows == old(table.rows)
        && newActivity == old(newActivity) && activities == old(activities) && loading == old(loading)
      ensures Addable(old(newActivity)) ==>
        && !loading && message == AddedMessage && newActivity == EmptyDraft()
        && (!insertOk ==> table.rows == old(table.rows))
        && (insertOk ==>
              && |table.rows| == |old(table.rows)| + 1 && table.rows[..|old(table.rows)|] == old(table.rows)
              && table.rows[|old(table.rows)|].studentId == studentId
              && table.rows[|old(table.rows)|].data == old(newActivity))
        && activities == (if studentId != "" && reloadOk then ForStudent(table.rows, studentId) else old(activities))
      ensures Addable(old(newActivity)) && insertOk && studentId != "" && reloadOk ==>
        activities == ForStudent(old(table.rows), studentId) + [table.rows[|old(table.rows)|]]
    {
      if !Addable(newActivity) {
        message := RefusedMessage;
        return;
      }
      loading := true;
      if insertOk {
        ghost var rows0 := table.rows;
        var id := table.Insert(studentId, newActivity);
        assert table.rows[..|rows0|] == rows0;
        AppendOwnRow(rows0, Row(id, studentId, newActivity));
      }
      newActivity := EmptyDraft();
      message := AddedMessage;
      Load(reloadOk);
      loading := false;
    }

    /** `handleDeleteActivity`, with whether the delete and the reload went through as inputs: only
        the row with that id goes, and the student's list loses exactly that entry. */
    method Delete(id: nat, deleteOk: bool, reloadOk: bool)
      requires table.Valid()
      modifies this`activities, table
      ensures table.Valid()
      ensures table.rows == if deleteOk then WithoutId(old(table.rows), id) else old(table.rows)
      ensures activities == if studentId != "" && reloadOk then ForStudent(table.rows, studentId) else old(activities)
      ensures deleteOk && studentId != "" && reloadOk ==>
        activities == WithoutId(ForStudent(old(table.rows), studentId), id)
    {
      if deleteOk {
        WithoutIdForStudent(table.rows, id, studentId);
        table.DeleteWithId(id);
      }
      Load(reloadOk);
    }
  }
}
