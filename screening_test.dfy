/**
 * The quantitative screening quiz: ten multiple-choice questions walked with a cursor,
 * answers kept per question index, and a submit that saves the answers to the student's
 * `screening_tests` row (updating it when one is found, inserting one otherwise) and
 * marks the quiz completed.
 */
module ScreeningTest {
  import opened Text
  import opened Tables

  datatype Question = Question(id: nat, question: string, options: seq<string>)

  /** A row of `screening_tests` without its id and `student_id`; `answers` may be null. */
  datatype ScreeningRow = ScreeningRow(answers: Option<map<int, string>>, completed: bool)

  const Questions: seq<Question> := [
    Question(1, "A price increases from $200 to $250. What is the percentage increase?", ["20%", "22%", "25%", "30%"]),
    Question(2, "Simple interest on $1,200 at 5% per annum for 3 years is:", ["$150", "$180", "$200", "$220"]),
    Question(3, "$1,000 compounded annually at 10% for 2 years becomes:", ["$1,100", "$1,200", "$1,210", "$1,220"]),
    Question(4, "If a:b = 3:5, then (a+b):b equals:", ["3:5", "8:5", "5:3", "5:8"]),
    Question(5, "An item bought for $400 sold for $460. Profit percentage is:", ["10%", "12%", "15%", "20%"]),
    Question(6, "A completes a job in 12 days; B in 18 days. Together they take:", ["6 days", "7.2 days", "8 days", "9 days"]),
    Question(7, "A tank fills in 10 h. A leak empties it in 20 h. Net fill time is:", ["15 h", "20 h", "25 h", "30 h"]),
    Question(8, "A car travels 180 km at 60 km/h. Travel time is:", ["2 h", "2.5 h", "3 h", "4 h"]),
    Question(9, "Number of distinct arrangements of LEVEL:", ["15", "20", "30", "60"]),
    Question(10, "Probability of at least 2 heads in 3 fair coin tosses:", ["3/8", "1/2", "5/8", "3/4"])
  ]

  /** Ten questions, numbered 1 to 10 in order, each with four options. */
  lemma QuestionShape()
    ensures |Questions| == 10
    ensures forall i :: 0 <= i < 10 ==> Questions[i].id == i + 1 && |Questions[i].options| == 4
  {
  }

  /** Every answer is filed under a question's index. */
  ghost predicate KeysAreQuestions(answers: map<int, string>)
  {
    forall k :: k in answers ==> 0 <= k < 10
  }

  /** The indices 0 to n - 1. */
  function Indices(n: nat): (s: set<int>)
    ensures |s| == n
    ensures forall k :: k in s <==> 0 <= k < n
  {
    if n == 0 then {} else Indices(n - 1) + {n - 1}
  }

  /** When answers are filed under question indices only, `Object.keys(answers).length`
      is 10 exactly when every question has an answer. */
  lemma TenKeysIffAllAnswered(answers: map<int, string>)
    requires KeysAreQuestions(answers)
    ensures |answers.Keys| == 10 <==> forall i :: 0 <= i < 10 ==> i in answers
  {
    KeyCountIffAll(answers, 10);
  }

  lemma KeyCountIffAll(answers: map<int, string>, n: nat)
    requires forall k :: k in answers ==> 0 <= k < n
    ensures |answers.Keys| == n <==> forall i :: 0 <= i < n ==> i in answers
  {
    var all := Indices(n);
    assert answers.Keys <= all;
    if forall i :: 0 <= i < n ==> i in answers {
      assert answers.Keys == all;
    }
    if |answers.Keys| == n {
      SubsetOfSameSize(answers.Keys, all);
    }
  }

  lemma SubsetOfSameSize<T>(a: set<T>, b: set<T>)
    requires a <= b && |a| == |b|
    ensures a == b
  {
    assert b == a + (b - a);
    assert |b - a| == 0;
  }

  class ScreeningTestForm {
    const studentId: string
    const table: Table<ScreeningRow>
    var currentQuestion: nat
    var answers: map<int, string>
    var completed: bool

    /** The cursor is on one of the ten questions. */
    ghost predicate Valid()
      reads this
    {
      currentQuestion < 10
    }

    constructor (studentId: string, table: Table<ScreeningRow>)
      ensures Valid()
      ensures this.studentId == studentId && this.table == table
      ensures currentQuestion == 0 && answers == map[] && !completed
    {
      this.studentId := studentId;
      this.table := table;
      currentQuestion := 0;
      answers := map[];
      completed := false;
    }

    /** The submit button is enabled exactly when there are as many answers as questions. */
    predicate AllAnswered()
      reads this
    {
      |answers.Keys| == |Questions|
    }

    /** Once completed, the summary replaces the question view. */
    predicate ShowsSummary()
      reads this
    {
      completed
    }

    /** `loadTestData`, with whether the lookup answered as an input: a found row
        contributes its answers when they are not null, and its completed flag when it is
        set; a failed lookup finds nothing. */
    method LoadTestData(lookupOk: bool)
      modifies this`answers, this`completed
      ensures var found := if studentId == "" then None else Lookup(table.rows, studentId, lookupOk);
        && answers == (if found.Some? && found.value.data.answers.Some? then found.value.data.answers.value else old(answers))
        && completed == (old(completed) || (found.Some? && found.value.data.completed))
    {
      if studentId == "" {
        return;
      }
      var found := Lookup(table.rows, studentId, lookupOk);
      if found.Some? {
        if found.value.data.answers.Some? {
          answers := found.value.data.answers.value;
        }
        if found.value.data.completed {
          completed := true;
        }
      }
    }

    /** `handleAnswerChange(k)`: option `k` of the current question becomes its answer. */
    method HandleAnswerChange(k: nat)
      requires Valid() && k < 4
      modifies this`answers
      ensures answers == old(answers)[currentQuestion := Questions[currentQuestion].options[k]]
      ensures KeysAreQuestions(old(answers)) ==> KeysAreQuestions(answers)
    {
      QuestionShape();
      answers := answers[currentQuestion := Questions[currentQuestion].options[k]];
    }

    method HandleNext()
      requires Valid()
      modifies this`currentQuestion
      ensures Valid()
      ensures currentQuestion == if old(currentQuestion) < 9 then old(currentQuestion) + 1 else 9
    {
      QuestionShape();
      if currentQuestion < |Questions| - 1 {
        currentQuestion := currentQuestion + 1;
      }
    }

    method HandlePrevious()
      requires Valid()
      modifies this`currentQuestion
      ensures Valid()
      ensures currentQuestion == if old(currentQuestion) > 0 then old(currentQuestion) - 1 else 0
    {
      if currentQuestion > 0 {
        currentQuestion := currentQuestion - 1;
      }
    }

    /** A click on the numbered button of question `index`. */
    method JumpTo(index: nat)
      requires index < 10
      modifies this`currentQuestion
      ensures Valid() && currentQuestion == index
    {
      currentQuestion := index;
    }

    /** `handleSubmit` with whether the existence lookup answered and whether the update or
        insert went through as inputs. Neither answer is looked at, so the quiz is marked
        completed either way. */
    method HandleSubmit(lookupOk: bool, writeOk: bool)
      requires table.Valid()
      modifies this`completed, table
      ensures table.Valid()
      ensures !AllAnswered() ==> completed == old(completed) && table.rows == old(table.rows)
      ensures AllAnswered() ==> completed
      ensures AllAnswered() ==>
        var n := CountFor(old(table.rows), studentId);
        CountFor(table.rows, studentId) == n + (if (n != 1 || !lookupOk) && writeOk then 1 else 0)
      ensures forall other :: other != studentId ==> ForStudent(table.rows, other) == ForStudent(old(table.rows), other)
      ensures AllAnswered() && writeOk ==>
        var n, mine := CountFor(old(table.rows), studentId), MaybeSingle(table.rows, studentId);
        n <= 1 && (lookupOk || n == 0) ==> mine.Some? && mine.value.data == ScreeningRow(Some(answers), true)
    {
      if |answers.Keys| != |Questions| {
        return;
      }
      SaveAnswers(lookupOk, writeOk);
      completed := true;
    }

    /** The update-or-insert of the student's row: an update of the found row by its id, an
        insert otherwise, including when the lookup failed. */
    method SaveAnswers(lookupOk: bool, writeOk: bool)
      requires table.Valid()
      modifies table
      ensures table.Valid()
      ensures var n := CountFor(old(table.rows), studentId);
        CountFor(table.rows, studentId) == n + (if (n != 1 || !lookupOk) && writeOk then 1 else 0)
      ensures forall other :: other != studentId ==> ForStudent(table.rows, other) == ForStudent(old(table.rows), other)
      ensures writeOk && CountFor(old(table.rows), studentId) <= 1 && (lookupOk || CountFor(old(table.rows), studentId) == 0) ==>
        var mine := MaybeSingle(table.rows, studentId);
        mine.Some? && mine.value.data == ScreeningRow(Some(answers), true)
    {
      var data := ScreeningRow(Some(answers), true);
      var existing := Lookup(table.rows, studentId, lookupOk);
      if !writeOk {
        return;
      }
      ghost var before := table.rows;
      if existing.Some? {
        SingleRowOwnsId(before, studentId);
        table.UpdateRow(existing.value.id, data);
        UpdateSingleRowById(before, studentId, existing.value.id, data);
        forall other | other != studentId
          ensures ForStudent(table.rows, other) == ForStudent(before, other)
        {
          UpdateWithIdOthers(before, existing.value.id, data, studentId, other);
        }
      } else {
        var id := table.Insert(studentId, data);
        InsertOwnRow(before, studentId, Row(id, studentId, data));
      }
    }
  }
}
