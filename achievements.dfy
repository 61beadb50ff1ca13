/**
 * The achievements list: the student drafts an achievement (title, optional certificate
 * path and date) and adds it as a row of `student_achievements`, or deletes a listed one
 * by its id.
 */
module Achievements {
  import opened Tables

  /** An achievement as drafted and as stored (without its id and `student_id`). */
  datatype Achievement = Achievement(title: string, certificatePath: string, date: string)

  /** The draft's inputs. */
  datatype Field = Title | CertificatePath | Date

  function EmptyDraft(): Achievement
  {
    Achievement("", "", "")
  }

  function Get(d: Achievement, f: Field): string
  {
    match f
    case Title => d.title
    case CertificatePath => d.certificatePath
    case Date => d.date
  }

  /** `setX({ ...x, [field]: value })`: the input's field takes the typed value and the
      others stay. */
  function With(d: Achievement, f: Field, v: string): (d': Achievement)
    ensures Get(d', f) == v
    ensures forall g :: g != f ==> Get(d', g) == Get(d, g)
  {
    match f
    case Title => d.(title := v)
    case CertificatePath => d.(certificatePath := v)
    case Date => d.(date := v)
  }

  /** The add guard: the title is non-empty; the certificate path and the date are optional. */
  predicate Addable(d: Achievement)
  {
    d.title != ""
  }

  /** The inputs marked required. */
  predicate Required(f: Field)
  {
    f == Title
  }

  /** A draft can be added exactly when none of its required inputs is empty. */
  lemma AddableIffRequiredFilled(d: Achievement)
    ensures Addable(d) <==> forall f :: Required(f) ==> Get(d, f) != ""
  {
    assert Required(Title) ==> Get(d, Title) == d.title;
  }

  const RefusedMessage := "Please enter an achievement title"
  const AddedMessage := "Achievement added successfully!"

  class AchievementsForm {
    const studentId: string
    /** The `student_achievements` table. */
    const table: Table<Achievement>
    var achievements: seq<Row<Achievement>>
    var newAchievement: Achievement
    var loading: bool
    var message: string

    constructor (studentId: string, table: Table<Achievement>)
      ensures this.studentId == studentId && this.table == table
      ensures achievements == [] && newAchievement == EmptyDraft() && !loading && message == ""
    {
      this.studentId := studentId;
      this.table := table;
      achievements := [];
      newAchievement := EmptyDraft();
      loading := false;
      message := "";
    }

    /** `loadAchievements`, with whether the query returned data as an input: the list becomes
        exactly the student's rows. */
    method Load(queryOk: bool)
      modifies this`achievements
      ensures achievements == if studentId != "" && queryOk then ForStudent(table.rows, studentId) else old(achievements)
    {
      if studentId == "" {
        return;
      }
      if queryOk {
        achievements := ForStudent(table.rows, studentId);
      }
    }

    method ChangeDraft(f: Field, v: string)
      modifies this`newAchievement
      ensures newAchievement == With(old(newAchievement), f, v)
    {
      newAchievement := With(newAchievement, f, v);
    }

    /** `handleAddAchievement`, with whether the insert and the reload went through as inputs. The
        insert's answer is not looked at, so the draft is cleared and the success message
        shown either way; the student id is not checked. */
    method Add(insertOk: bool, reloadOk: bool)
      requires table.Valid()
      modifies this`loading, this`message, this`newAchievement, this`achievements, table
      ensures table.Valid()
      ensures !Addable(old(newAchievement)) ==>
        && message == RefusedMessage && table.rows == old(table.rows)
        && newAchievement == old(newAchievement) && achievements == old(achievements) && loading == old(loading)
      ensures Addable(old(newAchievement)) ==>
        && !loading && message == AddedMessage && newAchievement == EmptyDraft()
        && (!insertOk ==> table.rows == old(table.rows))
        && (insertOk ==>
              && |table.rows| == |old(table.rows)| + 1 && table.rows[..|old(table.rows)|] == old(table.rows)
              && table.rows[|old(table.rows)|].studentId == studentId
              && table.rows[|old(table.rows)|].data == old(newAchievement))
        && achievements == (if studentId != "" && reloadOk then ForStudent(table.rows, studentId) else old(achievements))
      ensures Addable(old(newAchievement)) && insertOk && studentId != "" && reloadOk ==>
        achievements == ForStudent(old(table.rows), studentId) + [table.rows[|old(table.rows)|]]
    {
      if !Addable(newAchievement) {
        message := RefusedMessage;
        return;
      }
      loading := true;
      if insertOk {
        ghost var rows0 := table.rows;
        var id := table.Insert(studentId, newAchievement);
        assert table.rows[..|rows0|] == rows0;
        AppendOwnRow(rows0, Row(id, studentId, newAchievement));
      }
      newAchievement := EmptyDraft();
      message := AddedMessage;
      Load(reloadOk);
      loading := false;
    }

    /** `handleDeleteAchievement`, with whether the delete and the reload went through as inputs: only
        the row with that id goes, and the student's list loses exactly that entry. */
    method Delete(id: nat, deleteOk: bool, reloadOk: bool)
      requires table.Valid()
      modifies this`achievements, table
      ensures table.Valid()
      ensures table.rows == if deleteOk then WithoutId(old(table.rows), id) else old(table.rows)
      ensures achievements == if studentId != "" && reloadOk then ForStudent(table.rows, studentId) else old(achievements)
      ensures deleteOk && studentId != "" && reloadOk ==>
        achievements == WithoutId(ForStudent(old(table.rows), studentId), id)
    {
      if deleteOk {
        WithoutIdForStudent(table.rows, id, studentId);
        table.DeleteWithId(id);
      }
      Load(reloadOk);
    }
  }
}
