/**
 * The hosted tables the portal reads and writes, as in-memory sequences of rows.
 * Every table the core touches is keyed by a generated row id and a `student_id`
 * column; the remaining columns are the row's payload. The filters used by the
 * source (`.eq('student_id', …)`, `.eq('id', …)`, `.maybeSingle()`) are functions here.
 */
module Tables {
  import opened Text

  datatype Row<T> = Row(id: nat, studentId: string, data: T)

  /** `select … .eq('student_id', sid)`: the student's rows, in table order. */
  function ForStudent<T>(rows: seq<Row<T>>, sid: string): (r: seq<Row<T>>)
    ensures |r| <= |rows|
    ensures forall i :: 0 <= i < |r| ==> r[i] in rows && r[i].studentId == sid
    ensures forall i :: 0 <= i < |rows| && rows[i].studentId == sid ==> rows[i] in r
  {
    if rows == [] then []
    else (if rows[0].studentId == sid then [rows[0]] else []) + ForStudent(rows[1..], sid)
  }

  /** The number of rows that belong to `sid`. */
  function CountFor<T>(rows: seq<Row<T>>, sid: string): nat
  {
    |ForStudent(rows, sid)|
  }

  /** `.eq('student_id', sid).maybeSingle()` with the error ignored: the row when exactly
      one row matches, and no data both when none matches and when several do. */
  function MaybeSingle<T>(rows: seq<Row<T>>, sid: string): (r: Option<Row<T>>)
    ensures r.Some? <==> CountFor(rows, sid) == 1
    ensures r.Some? ==> r.value in rows && r.value.studentId == sid
  {
    var mine := ForStudent(rows, sid);
    if |mine| == 1 then Some(mine[0]) else None
  }

  /** The data of `.eq('student_id', sid).maybeSingle()` when the caller reads only `data`:
      a failed query (a network error, a row hidden by a policy) gives no data, exactly as a
      missing row does. `answered` says whether the query went through. */
  function Lookup<T>(rows: seq<Row<T>>, sid: string, answered: bool): (r: Option<Row<T>>)
    ensures r.Some? <==> answered && CountFor(rows, sid) == 1
    ensures r.Some? ==> r.value in rows && r.value.studentId == sid
    ensures answered ==> r == MaybeSingle(rows, sid)
  {
    if answered then MaybeSingle(rows, sid) else None
  }

  /** `delete().eq('id', id)`: every row except those with that id, order kept. */
  function WithoutId<T>(rows: seq<Row<T>>, id: nat): (r: seq<Row<T>>)
    ensures |r| <= |rows|
    ensures forall i :: 0 <= i < |r| ==> r[i] in rows && r[i].id != id
    ensures forall i :: 0 <= i < |rows| && rows[i].id != id ==> rows[i] in r
  {
    if rows == [] then []
    else (if rows[0].id != id then [rows[0]] else []) + WithoutId(rows[1..], id)
  }

  /** `delete().eq('student_id', sid)`. */
  function WithoutStudent<T>(rows: seq<Row<T>>, sid: string): (r: seq<Row<T>>)
    ensures |r| <= |rows|
    ensures forall i :: 0 <= i < |r| ==> r[i] in rows && r[i].studentId != sid
    ensures forall i :: 0 <= i < |rows| && rows[i].studentId != sid ==> rows[i] in r
  {
    if rows == [] then []
    else (if rows[0].studentId != sid then [rows[0]] else []) + WithoutStudent(rows[1..], sid)
  }

  /** `update(data).eq('student_id', sid)`: every row of the student gets the new payload. */
  function UpdateForStudent<T>(rows: seq<Row<T>>, sid: string, data: T): (r: seq<Row<T>>)
    ensures |r| == |rows|
    ensures forall i :: 0 <= i < |rows| ==>
      r[i] == if rows[i].studentId == sid then rows[i].(data := data) else rows[i]
  {
    if rows == [] then []
    else
      [if rows[0].studentId == sid then rows[0].(data := data) else rows[0]]
      + UpdateForStudent(rows[1..], sid, data)
  }

  /** `update(data).eq('id', id)`. */
  function UpdateWithId<T>(rows: seq<Row<T>>, id: nat, data: T): (r: seq<Row<T>>)
    ensures |r| == |rows|
    ensures forall i :: 0 <= i < |rows| ==>
      r[i] == if rows[i].id == id then rows[i].(data := data) else rows[i]
  {
    if rows == [] then []
    else [if rows[0].id == id then rows[0].(data := data) else rows[0]] + UpdateWithId(rows[1..], id, data)
  }

  // ---------------------------------------------------------------------------
  // How the writes change one student's share of a table
  // ---------------------------------------------------------------------------

  /** Selecting a student's rows distributes over concatenation. */
  lemma {:induction false} ForStudentAppend<T>(a: seq<Row<T>>, b: seq<Row<T>>, sid: string)
    ensures ForStudent(a + b, sid) == ForStudent(a, sid) + ForStudent(b, sid)
  {
    if a != [] {
      var x, rest := a[0], a[1..];
      var head := if x.studentId == sid then [x] else [];
      assert a == [x] + rest && a + b == [x] + (rest + b);
      calc {
        ForStudent(a + b, sid);
      == { ForStudentCons(x, rest + b, sid); }
        head + ForStudent(rest + b, sid);
      == { ForStudentAppend(rest, b, sid); }
        head + (ForStudent(rest, sid) + ForStudent(b, sid));
      == { ConcatAssociative(head, ForStudent(rest, sid), ForStudent(b, sid)); }
        (head + ForStudent(rest, sid)) + ForStudent(b, sid);
      == { ForStudentCons(x, rest, sid); }
        ForStudent(a, sid) + ForStudent(b, sid);
      }
    } else {
      assert a + b == b;
    }
  }

  lemma ConcatAssociative<T>(x: seq<T>, y: seq<T>, z: seq<T>)
    ensures x + (y + z) == (x + y) + z
  {
  }

  /** Selecting from a row put in front of others. */
  lemma ForStudentCons<T>(x: Row<T>, rest: seq<Row<T>>, sid: string)
    ensures ForStudent([x] + rest, sid) == (if x.studentId == sid then [x] else []) + ForStudent(rest, sid)
  {
    assert ([x] + rest)[1..] == rest;
  }

  lemma InsertCount<T>(rows: seq<Row<T>>, row: Row<T>, sid: string)
    ensures CountFor(rows + [row], sid) == CountFor(rows, sid) + (if row.studentId == sid then 1 else 0)
  {
    ForStudentAppend(rows, [row], sid);
    assert ForStudent([row], sid) == (if row.studentId == sid then [row] else []) + ForStudent([], sid);
  }

  /** Updating a student's rows changes no student's row count. */
  lemma {:induction false} UpdateForStudentCount<T>(rows: seq<Row<T>>, sid: string, data: T, other: string)
    ensures CountFor(UpdateForStudent(rows, sid, data), other) == CountFor(rows, other)
  {
    if rows != [] {
      var r := UpdateForStudent(rows, sid, data);
      assert r[1..] == UpdateForStudent(rows[1..], sid, data);
      UpdateForStudentCount(rows[1..], sid, data, other);
    }
  }

  /** Updating by row id changes no student's row count. */
  lemma {:induction false} UpdateWithIdCount<T>(rows: seq<Row<T>>, id: nat, data: T, sid: string)
    ensures CountFor(UpdateWithId(rows, id, data), sid) == CountFor(rows, sid)
  {
    if rows != [] {
      var r := UpdateWithId(rows, id, data);
      assert r[1..] == UpdateWithId(rows[1..], id, data);
      UpdateWithIdCount(rows[1..], id, data, sid);
    }
  }

  /** Deleting by row id leaves every student's other rows as they were, in order. */
  lemma {:induction false} WithoutIdForStudent<T>(rows: seq<Row<T>>, id: nat, sid: string)
    ensures ForStudent(WithoutId(rows, id), sid) == WithoutId(ForStudent(rows, sid), id)
  {
    if rows != [] {
      WithoutIdForStudent(rows[1..], id, sid);
      var h := if rows[0].id != id then [rows[0]] else [];
      ForStudentAppend(h, WithoutId(rows[1..], id), sid);
      var g := if rows[0].studentId == sid then [rows[0]] else [];
      WithoutIdAppend(g, ForStudent(rows[1..], sid), id);
    }
  }

  lemma {:induction false} WithoutIdAppend<T>(a: seq<Row<T>>, b: seq<Row<T>>, id: nat)
    ensures WithoutId(a + b, id) == WithoutId(a, id) + WithoutId(b, id)
  {
    if a != [] {
      var ab := a + b;
      assert ab[0] == a[0] && ab[1..] == a[1..] + b;
      WithoutIdAppend(a[1..], b, id);
      var h := if a[0].id != id then [a[0]] else [];
      assert WithoutId(ab, id) == h + WithoutId(ab[1..], id);
      assert WithoutId(a, id) == h + WithoutId(a[1..], id);
      assert h + (WithoutId(a[1..], id) + WithoutId(b, id)) == (h + WithoutId(a[1..], id)) + WithoutId(b, id);
    } else {
      assert a + b == b;
    }
  }

  /** Deleting a student's rows empties that student's share and leaves every other
      student's share exactly as it was. */
  lemma {:induction false} WithoutStudentForStudent<T>(rows: seq<Row<T>>, sid: string, other: string)
    ensures ForStudent(WithoutStudent(rows, sid), other) == if other == sid then [] else ForStudent(rows, other)
  {
    if rows != [] {
      WithoutStudentForStudent(rows[1..], sid, other);
      var h := if rows[0].studentId != sid then [rows[0]] else [];
      ForStudentAppend(h, WithoutStudent(rows[1..], sid), other);
    }
  }

  /** A student's share of rows appended in one batch is the whole batch when every row
      carries that student's id. */
  lemma {:induction false} ForStudentOfOwnRows<T>(batch: seq<Row<T>>, sid: string)
    requires forall i :: 0 <= i < |batch| ==> batch[i].studentId == sid
    ensures ForStudent(batch, sid) == batch
  {
    if batch != [] {
      ForStudentOfOwnRows(batch[1..], sid);
      assert batch == [batch[0]] + batch[1..];
    }
  }

  /** `added` holds one row per element of `batch`, in order, all under `sid`. */
  ghost predicate RowsOf<T>(added: seq<Row<T>>, sid: string, batch: seq<T>)
  {
    |added| == |batch| && forall j :: 0 <= j < |added| ==> added[j].studentId == sid && added[j].data == batch[j]
  }

  /** Rows that all belong to someone else contribute nothing to `other`'s share. */
  lemma {:induction false} ForStudentNone<T>(rows: seq<Row<T>>, other: string)
    requires forall i :: 0 <= i < |rows| ==> rows[i].studentId != other
    ensures ForStudent(rows, other) == []
  {
    if rows != [] {
      ForStudentNone(rows[1..], other);
    }
  }

  /** What a replace-all save leaves in the table: the student's rows are deleted when the
      delete goes through, and the batch is appended under the student when the insert
      goes through; each step can fail on its own. */
  ghost predicate ReplacedBy<T>(before: seq<Row<T>>, after: seq<Row<T>>, sid: string, batch: seq<T>,
                                deleted: bool, inserted: bool)
  {
    var base := if deleted then WithoutStudent(before, sid) else before;
    if inserted then |after| >= |base| && after[..|base|] == base && RowsOf(after[|base|..], sid, batch)
    else after == base
  }

  /** When both steps went through, the student has exactly the batch, in order, and every
      other student's rows are as they were. */
  lemma ReplacedShare<T>(before: seq<Row<T>>, after: seq<Row<T>>, sid: string, batch: seq<T>)
    requires ReplacedBy(before, after, sid, batch, true, true)
    ensures RowsOf(ForStudent(after, sid), sid, batch)
    ensures forall other :: other != sid ==> ForStudent(after, other) == ForStudent(before, other)
  {
    var base := WithoutStudent(before, sid);
    var added := after[|base|..];
    assert after == base + added;
    ReplacedShareOwn(before, added, sid);
    forall other | other != sid
      ensures ForStudent(after, other) == ForStudent(before, other)
    {
      ReplacedShareOther(before, added, sid, other);
    }
  }

  /** When the delete went through and the insert did not, the student is left with no
      rows at all. */
  lemma FailedInsertLosesShare<T>(before: seq<Row<T>>, after: seq<Row<T>>, sid: string, batch: seq<T>)
    requires ReplacedBy(before, after, sid, batch, true, false)
    ensures ForStudent(after, sid) == []
  {
    WithoutStudentForStudent(before, sid, sid);
  }

  /** When the delete failed and the insert went through, the student's old rows stay and
      the batch follows them. */
  lemma FailedDeleteDuplicates<T>(before: seq<Row<T>>, after: seq<Row<T>>, sid: string, batch: seq<T>)
    requires ReplacedBy(before, after, sid, batch, false, true)
    ensures |ForStudent(after, sid)| == |ForStudent(before, sid)| + |batch|
  {
    var added := after[|before|..];
    assert after == before + added;
    ForStudentAppend(before, added, sid);
    ForStudentOfOwnRows(added, sid);
  }

  lemma ReplacedShareOwn<T>(before: seq<Row<T>>, added: seq<Row<T>>, sid: string)
    requires forall j :: 0 <= j < |added| ==> added[j].studentId == sid
    ensures ForStudent(WithoutStudent(before, sid) + added, sid) == added
  {
    WithoutStudentForStudent(before, sid, sid);
    OwnRowsAfterEmptyShare(WithoutStudent(before, sid), added, sid);
  }

  /** Rows appended under `sid` after rows none of which is theirs are `sid`'s whole share. */
  lemma OwnRowsAfterEmptyShare<T>(kept: seq<Row<T>>, added: seq<Row<T>>, sid: string)
    requires ForStudent(kept, sid) == []
    requires forall j :: 0 <= j < |added| ==> added[j].studentId == sid
    ensures ForStudent(kept + added, sid) == added
  {
    ForStudentAppend(kept, added, sid);
    ForStudentOfOwnRows(added, sid);
    assert [] + added == added;
  }

  lemma ReplacedShareOther<T>(before: seq<Row<T>>, added: seq<Row<T>>, sid: string, other: string)
    requires other != sid
    requires forall j :: 0 <= j < |added| ==> added[j].studentId == sid
    ensures ForStudent(WithoutStudent(before, sid) + added, other) == ForStudent(before, other)
  {
    var kept := WithoutStudent(before, sid);
    ForStudentAppend(kept, added, other);
    WithoutStudentForStudent(before, sid, other);
    ForStudentNone(added, other);
  }

  // ---------------------------------------------------------------------------
  // Row ids as a primary key
  // ---------------------------------------------------------------------------

  ghost predicate IdsBelow<T>(rows: seq<Row<T>>, bound: nat)
  {
    forall i :: 0 <= i < |rows| ==> rows[i].id < bound
  }

  ghost predicate UniqueIds<T>(rows: seq<Row<T>>)
  {
    forall i, j :: 0 <= i < j < |rows| ==> rows[i].id != rows[j].id
  }

  /** Deleting by id keeps the ids unique and below the bound. */
  lemma {:induction false} WithoutIdKeepsKeys<T>(rows: seq<Row<T>>, id: nat, bound: nat)
    requires IdsBelow(rows, bound) && UniqueIds(rows)
    ensures IdsBelow(WithoutId(rows, id), bound) && UniqueIds(WithoutId(rows, id))
  {
    if rows != [] {
      TailKeys(rows, bound);
      WithoutIdKeepsKeys(rows[1..], id, bound);
      var tail := WithoutId(rows[1..], id);
      forall j | 0 <= j < |tail|
        ensures tail[j].id != rows[0].id
      {
        FirstIdNotLater(rows, tail[j]);
      }
      if rows[0].id != id {
        ConsKeys(rows[0], tail, bound);
      }
    }
  }

  /** Deleting a student's rows keeps the ids unique and below the bound. */
  lemma {:induction false} WithoutStudentKeepsKeys<T>(rows: seq<Row<T>>, sid: string, bound: nat)
    requires IdsBelow(rows, bound) && UniqueIds(rows)
    ensures IdsBelow(WithoutStudent(rows, sid), bound) && UniqueIds(WithoutStudent(rows, sid))
  {
    if rows != [] {
      TailKeys(rows, bound);
      WithoutStudentKeepsKeys(rows[1..], sid, bound);
      var tail := WithoutStudent(rows[1..], sid);
      forall j | 0 <= j < |tail|
        ensures tail[j].id != rows[0].id
      {
        FirstIdNotLater(rows, tail[j]);
      }
      if rows[0].studentId != sid {
        ConsKeys(rows[0], tail, bound);
      }
    }
  }

  lemma TailKeys<T>(rows: seq<Row<T>>, bound: nat)
    requires rows != [] && IdsBelow(rows, bound) && UniqueIds(rows)
    ensures IdsBelow(rows[1..], bound) && UniqueIds(rows[1..]) && rows[0].id < bound
  {
    var rest := rows[1..];
    assert forall i :: 0 <= i < |rest| ==> rest[i] == rows[i + 1];
  }

  /** With unique ids, no later row shares the first row's id. */
  lemma FirstIdNotLater<T>(rows: seq<Row<T>>, x: Row<T>)
    requires rows != [] && UniqueIds(rows) && x in rows[1..]
    ensures x.id != rows[0].id
  {
    var k :| 1 <= k < |rows| && rows[k] == x;
  }

  /** A row put in front of rows it shares no id with keeps the ids unique. */
  lemma ConsKeys<T>(head: Row<T>, tail: seq<Row<T>>, bound: nat)
    requires head.id < bound && IdsBelow(tail, bound) && UniqueIds(tail)
    requires forall j :: 0 <= j < |tail| ==> tail[j].id != head.id
    ensures IdsBelow([head] + tail, bound) && UniqueIds([head] + tail)
  {
    var s := [head] + tail;
    assert forall i :: 1 <= i < |s| ==> s[i] == tail[i - 1];
  }

  /** Updating the row with a given id leaves another student's rows alone when every row
      with that id belongs to `sid`. */
  lemma {:induction false} UpdateWithIdOthers<T>(rows: seq<Row<T>>, id: nat, data: T, sid: string, other: string)
    requires other != sid
    requires forall i :: 0 <= i < |rows| && rows[i].id == id ==> rows[i].studentId == sid
    ensures ForStudent(UpdateWithId(rows, id, data), other) == ForStudent(rows, other)
  {
    if rows != [] {
      var r := UpdateWithId(rows, id, data);
      assert r[1..] == UpdateWithId(rows[1..], id, data);
      UpdateWithIdOthers(rows[1..], id, data, sid, other);
    }
  }

  /** With unique ids, the row `maybeSingle` found is the only row with its id, so an
      update by that id stays within the student's rows. */
  lemma SingleRowOwnsId<T>(rows: seq<Row<T>>, sid: string)
    requires UniqueIds(rows) && MaybeSingle(rows, sid).Some?
    ensures forall i :: 0 <= i < |rows| && rows[i].id == MaybeSingle(rows, sid).value.id ==> rows[i].studentId == sid
  {
    var found := MaybeSingle(rows, sid).value;
    var k :| 0 <= k < |rows| && rows[k] == found;
    forall i | 0 <= i < |rows| && rows[i].id == found.id
      ensures rows[i].studentId == sid
    {
      assert i == k;
    }
  }

  /** Updating a student's rows leaves every other student's rows alone. */
  lemma {:induction false} UpdateForStudentOthers<T>(rows: seq<Row<T>>, sid: string, data: T, other: string)
    requires other != sid
    ensures ForStudent(UpdateForStudent(rows, sid, data), other) == ForStudent(rows, other)
  {
    if rows != [] {
      var r := UpdateForStudent(rows, sid, data);
      assert r[1..] == UpdateForStudent(rows[1..], sid, data);
      UpdateForStudentOthers(rows[1..], sid, data, other);
    }
  }

  /** Updating the student's single row by its id keeps it single and gives it the new
      payload. */
  lemma UpdateSingleRowById<T>(rows: seq<Row<T>>, sid: string, id: nat, data: T)
    requires MaybeSingle(rows, sid).Some? && MaybeSingle(rows, sid).value.id == id
    requires forall i :: 0 <= i < |rows| && rows[i].id == id ==> rows[i].studentId == sid
    ensures CountFor(UpdateWithId(rows, id, data), sid) == 1
    ensures MaybeSingle(UpdateWithId(rows, id, data), sid).Some?
    ensures MaybeSingle(UpdateWithId(rows, id, data), sid).value.data == data
  {
    UpdateWithIdCount(rows, id, data, sid);
    var after := UpdateWithId(rows, id, data);
    var row := MaybeSingle(after, sid).value;
    var k :| 0 <= k < |after| && after[k] == row;
    if rows[k].id != id {
      // rows[k] is the student's row but not the single one found before.
      var found := MaybeSingle(rows, sid).value;
      var j :| 0 <= j < |rows| && rows[j] == found;
      assert rows[j] in ForStudent(rows, sid) && rows[k] in ForStudent(rows, sid);
      SingletonMembers(ForStudent(rows, sid), rows[j], rows[k]);
      assert false;
    }
  }

  lemma SingletonMembers<T>(s: seq<T>, a: T, b: T)
    requires |s| == 1 && a in s && b in s
    ensures a == b
  {
  }

  /** A row appended under `sid` comes last in `sid`'s share. */
  lemma AppendOwnRow<T>(rows: seq<Row<T>>, row: Row<T>)
    ensures ForStudent(rows + [row], row.studentId) == ForStudent(rows, row.studentId) + [row]
  {
    ForStudentAppend(rows, [row], row.studentId);
    assert ForStudent([row], row.studentId) == [row] + ForStudent([], row.studentId);
  }

  /** An insert under `sid` adds exactly one row to the student's
      rows and leaves everyone else's alone. */
  lemma InsertOwnRow<T>(rows: seq<Row<T>>, sid: string, row: Row<T>)
    requires row.studentId == sid
    ensures CountFor(rows + [row], sid) == CountFor(rows, sid) + 1
    ensures CountFor(rows, sid) == 0 ==> MaybeSingle(rows + [row], sid) == Some(row)
    ensures forall other :: other != sid ==> ForStudent(rows + [row], other) == ForStudent(rows, other)
  {
    InsertCount(rows, row, sid);
    AppendOwnRow(rows, row);
    forall other | other != sid
      ensures ForStudent(rows + [row], other) == ForStudent(rows, other)
    {
      ForStudentAppend(rows, [row], other);
      assert ForStudent([row], other) == [] + ForStudent([], other);
    }
  }

  /** A find-or-create whose lookup failed inserts beside the student's single row: the
      student then has two rows, and a `maybeSingle` that does answer finds neither. */
  lemma InsertBesideSingle<T>(rows: seq<Row<T>>, row: Row<T>)
    requires CountFor(rows, row.studentId) == 1
    ensures Lookup(rows, row.studentId, false).None?
    ensures CountFor(rows + [row], row.studentId) == 2
    ensures Lookup(rows + [row], row.studentId, true).None?
  {
    InsertOwnRow(rows, row.studentId, row);
  }

  /** Updating the rows of a student who has a single row keeps it single and gives it
      the new payload. */
  lemma UpdateSingleStudentRow<T>(rows: seq<Row<T>>, sid: string, data: T)
    requires CountFor(rows, sid) == 1
    ensures CountFor(UpdateForStudent(rows, sid, data), sid) == 1
    ensures MaybeSingle(UpdateForStudent(rows, sid, data), sid).Some?
    ensures MaybeSingle(UpdateForStudent(rows, sid, data), sid).value.data == data
  {
    UpdateForStudentCount(rows, sid, data, sid);
    var after := UpdateForStudent(rows, sid, data);
    var row := MaybeSingle(after, sid).value;
    var k :| 0 <= k < |after| && after[k] == row;
    assert after[k].studentId == sid;
  }

  /**
   * The table as the backend holds it: rows plus the generator of fresh row ids.
   */
  class Table<T> {
    var rows: seq<Row<T>>
    var nextId: nat

    /** Every row id was issued by this table, and no two rows share one: the id is the
        table's primary key. */
    ghost predicate Valid()
      reads this
    {
      IdsBelow(rows, nextId) && UniqueIds(rows)
    }

    constructor (initial: seq<Row<T>>)
      requires UniqueIds(initial)
      ensures Valid() && rows == initial
    {
      rows := initial;
      var m: nat := 0;
      for i := 0 to |initial|
        invariant IdsBelow(initial[..i], m)
      {
        if initial[i].id >= m { m := initial[i].id + 1; }
      }
      assert initial[..|initial|] == initial;
      nextId := m;
    }

    /** `insert({ student_id: sid, ...data })`: appends one row under a fresh id. */
    method Insert(sid: string, data: T) returns (id: nat)
      requires Valid()
      modifies this
      ensures Valid()
      ensures rows == old(rows) + [Row(id, sid, data)]
      ensures forall i :: 0 <= i < |old(rows)| ==> old(rows)[i].id != id
    {
      id := nextId;
      rows := rows + [Row(id, sid, data)];
      nextId := nextId + 1;
    }

    /** One batch `insert([...])`: every row of the batch under a fresh id, in order. */
    method InsertAll(sid: string, batch: seq<T>)
      requires Valid()
      modifies this
      ensures Valid()
      ensures |rows| == |old(rows)| + |batch|
      ensures rows == old(rows) + rows[|old(rows)|..]
      ensures RowsOf(rows[|old(rows)|..], sid, batch)
    {
      var k := 0;
      while k < |batch|
        invariant 0 <= k <= |batch|
        invariant Valid()
        invariant |rows| == |old(rows)| + k
        invariant rows[..|old(rows)|] == old(rows)
        invariant forall j :: |old(rows)| <= j < |rows| ==>
          rows[j].studentId == sid && rows[j].data == batch[j - |old(rows)|]
      {
        ghost var before := rows;
        var _ := Insert(sid, batch[k]);
        assert rows[..|before|] == before;
        assert rows[..|old(rows)|] == before[..|old(rows)|];
        k := k + 1;
      }
      assert rows == old(rows) + rows[|old(rows)|..];
    }

    /** A delete of the student's rows followed by one batch insert under the student,
        with whether each went through as inputs. */
    method ReplaceForStudent(sid: string, batch: seq<T>, deleted: bool, inserted: bool)
      requires Valid()
      modifies this
      ensures Valid() && ReplacedBy(old(rows), rows, sid, batch, deleted, inserted)
    {
      if deleted {
        DeleteForStudent(sid);
      }
      if inserted {
        ghost var base := rows;
        InsertAll(sid, batch);
        assert rows[..|base|] == base;
      }
    }

    method DeleteWithId(id: nat)
      requires Valid()
      modifies this
      ensures Valid() && rows == WithoutId(old(rows), id)
    {
      WithoutIdKeepsKeys(rows, id, nextId);
      rows := WithoutId(rows, id);
    }

    method DeleteForStudent(sid: string)
      requires Valid()
      modifies this
      ensures Valid() && rows == WithoutStudent(old(rows), sid)
    {
      WithoutStudentKeepsKeys(rows, sid, nextId);
      rows := WithoutStudent(rows, sid);
    }

    method UpdateStudentRows(sid: string, data: T)
      requires Valid()
      modifies this
      ensures Valid() && rows == UpdateForStudent(old(rows), sid, data)
    {
      rows := UpdateForStudent(rows, sid, data);
    }

    method UpdateRow(id: nat, data: T)
      requires Valid()
      modifies this
      ensures Valid() && rows == UpdateWithId(old(rows), id, data)
    {
      rows := UpdateWithId(rows, id, data);
    }
  }

  /**
   * A storage bucket, as the set of object paths it holds, in upload order.
   */
  class Bucket {
    var paths: seq<string>

    constructor (initial: seq<string>)
      ensures paths == initial
    {
      paths := initial;
    }

    /** `upload(path, file)`: the object is stored under `path`. */
    method Upload(path: string)
      modifies this
      ensures paths == old(paths) + [path]
    {
      paths := paths + [path];
    }

    /** `upload(path, file, { upsert: true })`: an object already under `path` is replaced,
        so the path is listed once either way. */
    method Upsert(path: string)
      modifies this
      ensures paths == if path in old(paths) then old(paths) else old(paths) + [path]
    {
      if path !in paths {
        paths := paths + [path];
      }
    }

    /** `remove([path])`: every object under `path` is gone, the others stay in order. */
    method Remove(path: string)
      modifies this
      ensures paths == Without(old(paths), path)
    {
      paths := Without(paths, path);
    }
  }

  /** The paths other than `path`, in order. */
  function Without(paths: seq<string>, path: string): (r: seq<string>)
    ensures path !in r
    ensures forall p :: p in paths && p != path <==> p in r
  {
    if paths == [] then []
    else (if paths[0] != path then [paths[0]] else []) + Without(paths[1..], path)
  }
}
