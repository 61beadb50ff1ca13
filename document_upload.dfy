/**
 * The certificates card: the student picks a document type and a file, the file is
 * stored in the `student-documents` bucket under a per-student, per-type path, and a row
 * of `student_documents` records it. The list shows the student's documents newest first.
 */
module DocumentUpload {
  import opened Text
  import opened Tables

  /** The selectable document types, as (label, value) pairs in menu order. */
  const DocumentTypes: seq<(string, string)> := [
    ("10th Certificate", "class_10_certificate"),
    ("12th Certificate", "class_12_certificate"),
    ("Aadhar Card", "aadhar_card"),
    ("Diploma Certificate", "diploma_certificate"),
    ("Degree Certificate", "degree_certificate"),
    ("Mark Sheet", "mark_sheet"),
    ("ID Proof", "id_proof"),
    ("Address Proof", "address_proof"),
    ("Other", "other")
  ]

  /** A file chosen in the browser: its name and size in bytes. */
  datatype LocalFile = LocalFile(name: string, size: int)

  /** A row of `student_documents` without its id and `student_id`. `uploadedAt` is the
      time the backend stamps on the insert. */
  datatype StudentDocument = StudentDocument(documentType: string, filePath: string, fileName: string,
                                             fileSize: int, uploadedAt: nat)

  const MissingInputMessage := "Please select a document type and file"
  const UploadedMessage := "Document uploaded successfully!"
  const UploadFailedMessage := "Error uploading document. Please try again."
  const DeletedMessage := "Document deleted successfully!"

  // ---------------------------------------------------------------------------
  // The type label
  // ---------------------------------------------------------------------------

  /** `types.find(d => d.value === value)?.label`: the label of the first entry with that
      value, if any. */
  function FindLabel(types: seq<(string, string)>, value: string): (r: Option<string>)
    ensures r.None? <==> forall i :: 0 <= i < |types| ==> types[i].1 != value
    ensures r.Some? ==> exists i :: 0 <= i < |types| && types[i] == (r.value, value)
                                    && forall j :: 0 <= j < i ==> types[j].1 != value
  {
    if types == [] then None
    else if types[0].1 == value then Some(types[0].0)
    else
      assert forall i :: 1 <= i < |types| ==> types[i] == types[1..][i - 1];
      FindLabel(types[1..], value)
  }

  /** No two entries of the list share a value. */
  ghost predicate DistinctValues(types: seq<(string, string)>)
  {
    forall i, j :: 0 <= i < j < |types| ==> types[i].1 != types[j].1
  }

  /** With distinct values, every listed value finds its own entry's label. */
  lemma FindListed(types: seq<(string, string)>, i: nat)
    requires DistinctValues(types) && i < |types|
    ensures FindLabel(types, types[i].1) == Some(types[i].0)
  {
  }

  lemma DocumentTypeValuesDistinct()
    ensures DistinctValues(DocumentTypes)
  {
    forall i, j | 0 <= i < j < |DocumentTypes|
      ensures DocumentTypes[i].1 != DocumentTypes[j].1
    {
      DistinctByLengthOrEighth(DocumentTypes[i].1, DocumentTypes[j].1);
    }
  }

  /** Two strings of different lengths, or differing in their eighth character, differ. */
  lemma DistinctByLengthOrEighth(a: string, b: string)
    requires |a| != |b| || (|a| > 7 && |b| > 7 && a[7] != b[7])
    ensures a != b
  {
  }

  /** The label shown beside a stored document, for each of the nine types. */
  lemma TypeLabels(i: nat)
    requires i < |DocumentTypes|
    ensures FindLabel(DocumentTypes, DocumentTypes[i].1) == Some(DocumentTypes[i].0)
  {
    DocumentTypeValuesDistinct();
    FindListed(DocumentTypes, i);
  }

  // ---------------------------------------------------------------------------
  // The storage path
  // ---------------------------------------------------------------------------

  /** `name.split('.').pop()`: the text after the last dot, or the whole name when it has
      no dot. */
  function Extension(name: string): string
  {
    if name == [] || name[|name| - 1] == '.' then []
    else Extension(name[..|name| - 1]) + [name[|name| - 1]]
  }

  /** The extension is a dot-free suffix of the name, preceded by a dot unless it is the
      whole name. */
  lemma {:induction false} ExtensionIsLastPart(name: string)
    ensures |Extension(name)| <= |name|
    ensures name[|name| - |Extension(name)|..] == Extension(name)
    ensures '.' !in Extension(name)
    ensures |Extension(name)| < |name| ==> name[|name| - |Extension(name)| - 1] == '.'
  {
    if name != [] && name[|name| - 1] != '.' {
      var init, last := name[..|name| - 1], name[|name| - 1];
      ExtensionIsLastPart(init);
      var e := Extension(init);
      assert Extension(name) == e + [last];
      var k := |init| - |e|;
      assert name == init + [last];
      assert name[k..] == init[k..] + [last];
      assert k > 0 ==> name[k - 1] == init[k - 1];
    }
  }

  /** A dot followed by dot-free text: that text is the extension, whatever precedes it. */
  lemma {:induction false} ExtensionAfterDot(base: string, ext: string)
    requires '.' !in ext
    ensures Extension(base + "." + ext) == ext
  {
    if ext != [] {
      var e := ext[..|ext| - 1];
      assert (base + "." + ext)[..|base + "." + ext| - 1] == base + "." + e;
      ExtensionAfterDot(base, e);
      assert e + [ext[|ext| - 1]] == ext;
    }
  }

  /** A name without a dot is its own extension. */
  lemma {:induction false} ExtensionWithoutDot(name: string)
    requires '.' !in name
    ensures Extension(name) == name
  {
    if name != [] {
      var n := name[..|name| - 1];
      ExtensionWithoutDot(n);
      assert n + [name[|name| - 1]] == name;
    }
  }

  /** `${studentId}/${selectedType}/${Date.now()}.${fileExt}`. */
  function ObjectPath(sid: string, documentType: string, now: nat, name: string): string
  {
    sid + "/" + documentType + "/" + NatToString(now) + "." + Extension(name)
  }

  /** The stored object sits in the student's folder and keeps the file's extension. */
  lemma PathShape(sid: string, documentType: string, now: nat, name: string)
    ensures ObjectPath(sid, documentType, now, name)[..|sid| + 1] == sid + "/"
    ensures Extension(ObjectPath(sid, documentType, now, name)) == Extension(name)
  {
    var folder := sid + "/";
    var p2 := folder + documentType;
    var p3 := p2 + "/";
    var p4 := p3 + NatToString(now);
    var p5 := p4 + ".";
    var n := |folder|;
    PrefixKept(folder, documentType, n);
    PrefixKept(p2, "/", n);
    PrefixKept(p3, NatToString(now), n);
    PrefixKept(p4, ".", n);
    PrefixKept(p5, Extension(name), n);
    assert folder[..n] == folder;
    ExtensionIsLastPart(name);
    ExtensionAfterDot(p4, Extension(name));
  }

  /** Appending to a text leaves its first `n` characters alone. */
  lemma PrefixKept(a: string, b: string, n: nat)
    requires n <= |a|
    ensures (a + b)[..n] == a[..n]
  {
  }

  // ---------------------------------------------------------------------------
  // Newest first
  // ---------------------------------------------------------------------------

  /** Every document is at least as recent as the ones after it. */
  ghost predicate NewestFirst(docs: seq<Row<StudentDocument>>)
  {
    forall i, j :: 0 <= i < j < |docs| ==> docs[i].data.uploadedAt >= docs[j].data.uploadedAt
  }

  /** Places `r` before the first document no newer than it. */
  function InsertByTime(r: Row<StudentDocument>, docs: seq<Row<StudentDocument>>): (s: seq<Row<StudentDocument>>)
    requires NewestFirst(docs)
    ensures NewestFirst(s)
    ensures multiset(s) == multiset(docs) + multiset{r}
    ensures forall k :: 0 <= k < |s| ==> s[k] == r || s[k] in docs
  {
    if docs == [] || r.data.uploadedAt >= docs[0].data.uploadedAt then [r] + docs
    else
      var rest := InsertByTime(r, docs[1..]);
      assert docs == [docs[0]] + docs[1..];
      Prepend(docs[0], rest, r, docs[1..]);
      [docs[0]] + rest
  }

  /** A document no older than `r` and than every one of `rest`'s sources may head it. */
  lemma Prepend(first: Row<StudentDocument>, rest: seq<Row<StudentDocument>>, r: Row<StudentDocument>,
                sources: seq<Row<StudentDocument>>)
    requires NewestFirst(rest)
    requires forall k :: 0 <= k < |rest| ==> rest[k] == r || rest[k] in sources
    requires first.data.uploadedAt >= r.data.uploadedAt
    requires forall k :: 0 <= k < |sources| ==> first.data.uploadedAt >= sources[k].data.uploadedAt
    ensures NewestFirst([first] + rest)
  {
    var s := [first] + rest;
    forall i, j | 0 <= i < j < |s|
      ensures s[i].data.uploadedAt >= s[j].data.uploadedAt
    {
      if i == 0 {
        assert s[j] == rest[j - 1];
      }
    }
  }

  /** `order('uploaded_at', { ascending: false })`: the same documents, newest first;
      documents stamped at the same time keep their table order. */
  function ByNewest(docs: seq<Row<StudentDocument>>): (s: seq<Row<StudentDocument>>)
    ensures NewestFirst(s)
    ensures multiset(s) == multiset(docs)
  {
    if docs == [] then []
    else
      assert docs == [docs[0]] + docs[1..];
      InsertByTime(docs[0], ByNewest(docs[1..]))
  }

  /** Every recorded document points at an object in the bucket. */
  ghost predicate FilesStored(rows: seq<Row<StudentDocument>>, paths: seq<string>)
  {
    forall i :: 0 <= i < |rows| ==> rows[i].data.filePath in paths
  }

  class DocumentUploadForm {
    const studentId: string
    /** The `student_documents` table. */
    const table: Table<StudentDocument>
    /** The `student-documents` bucket. */
    const bucket: Bucket
    var documents: seq<Row<StudentDocument>>
    var selectedType: string
    var selectedFile: Option<LocalFile>
    var loading: bool
    var message: string
    /** How many times the parent's `onUpdate` has been called. */
    var updates: nat

    constructor (studentId: string, table: Table<StudentDocument>, bucket: Bucket)
      ensures this.studentId == studentId && this.table == table && this.bucket == bucket
      ensures documents == [] && selectedType == "" && selectedFile.None?
      ensures !loading && message == "" && updates == 0
    {
      this.studentId := studentId;
      this.table := table;
      this.bucket := bucket;
      documents := [];
      selectedType := "";
      selectedFile := None;
      loading := false;
      message := "";
      updates := 0;
    }

    /** `loadDocuments`, with whether the query returned data as an input. */
    method LoadDocuments(queryOk: bool)
      modifies this`documents
      ensures documents == if studentId != "" && queryOk then ByNewest(ForStudent(table.rows, studentId))
                           else old(documents)
    {
      if studentId == "" {
        return;
      }
      if queryOk {
        documents := ByNewest(ForStudent(table.rows, studentId));
      }
    }

    /** `handleFileSelect`: the first chosen file, if any, becomes the selection. */
    method HandleFileSelect(files: seq<LocalFile>)
      modifies this`selectedFile
      ensures selectedFile == if files != [] then Some(files[0]) else old(selectedFile)
    {
      if files != [] {
        selectedFile := Some(files[0]);
      }
    }

    method SelectType(value: string)
      modifies this`selectedType
      ensures selectedType == value
    {
      selectedType := value;
    }

    /** `handleUpload` with the environment as inputs: the clock, the backend's insert time,
        and whether the storage upload, the row insert and the reload went through. Nothing
        happens but the prompt unless a type and a file are chosen. */
    method HandleUpload(now: nat, uploadedAt: nat, uploadOk: bool, insertOk: bool, reloadOk: bool)
      requires table.Valid()
      modifies this`loading, this`message, this`selectedFile, this`selectedType, this`documents, this`updates
      modifies table, bucket
      ensures table.Valid()
      ensures old(selectedFile).None? || old(selectedType) == "" || studentId == "" ==>
        && message == MissingInputMessage && loading == old(loading)
        && selectedFile == old(selectedFile) && selectedType == old(selectedType)
        && table.rows == old(table.rows) && bucket.paths == old(bucket.paths)
        && documents == old(documents) && updates == old(updates)
      ensures old(selectedFile).Some? && old(selectedType) != "" && studentId != "" ==>
        var f := old(selectedFile).value;
        var path := ObjectPath(studentId, old(selectedType), now, f.name);
        Submitted(old(table.rows), old(bucket.paths), old(documents), old(updates), old(selectedFile),
                  StudentDocument(old(selectedType), path, f.name, f.size, uploadedAt), uploadOk, insertOk, reloadOk)
      ensures FilesStored(old(table.rows), old(bucket.paths)) ==> FilesStored(table.rows, bucket.paths)
    {
      if selectedFile.None? || selectedType == "" || studentId == "" {
        message := MissingInputMessage;
        return;
      }
      var f := selectedFile.value;
      var path := ObjectPath(studentId, selectedType, now, f.name);
      var document := StudentDocument(selectedType, path, f.name, f.size, uploadedAt);
      ghost var rows0, paths0, documents0, updates0, file0 := table.rows, bucket.paths, documents, updates, selectedFile;
      loading := true;
      message := "";
      Submit(document, uploadOk, insertOk, reloadOk);
      assert Submitted(rows0, paths0, documents0, updates0, file0, document, uploadOk, insertOk, reloadOk);
    }

    /** What a submission with a chosen type and file leaves: the object is stored under
        the document's path when the upload goes through; the row is recorded, the form
        reset and the list reloaded when the insert goes through too; otherwise the table,
        the form and the list are as they were and the failure message shows. */
    ghost predicate Submitted(rows0: seq<Row<StudentDocument>>, paths0: seq<string>,
                              documents0: seq<Row<StudentDocument>>, updates0: nat, file0: Option<LocalFile>,
                              document: StudentDocument, uploadOk: bool, insertOk: bool, reloadOk: bool)
      reads this, table, bucket
    {
      var path := document.filePath;
      && !loading
      && bucket.paths == (if uploadOk && path !in paths0 then paths0 + [path] else paths0)
      && (uploadOk && insertOk ==>
            && |table.rows| == |rows0| + 1 && table.rows[..|rows0|] == rows0
            && table.rows[|rows0|].studentId == studentId && table.rows[|rows0|].data == document
            && message == UploadedMessage && selectedFile.None? && selectedType == ""
            && documents == (if reloadOk then ByNewest(ForStudent(table.rows, studentId)) else documents0)
            && updates == updates0 + 1)
      && (!(uploadOk && insertOk) ==>
            && table.rows == rows0 && message == UploadFailedMessage && selectedFile == file0
            && selectedType == document.documentType && documents == documents0 && updates == updates0)
    }

    /** The upload to the bucket, then the insert of the row. */
    method Submit(document: StudentDocument, uploadOk: bool, insertOk: bool, reloadOk: bool)
      requires table.Valid() && studentId != "" && selectedType == document.documentType
      modifies this`loading, this`message, this`selectedFile, this`selectedType, this`documents, this`updates
      modifies table, bucket
      ensures table.Valid()
      ensures Submitted(old(table.rows), old(bucket.paths), old(documents), old(updates), old(selectedFile),
                        document, uploadOk, insertOk, reloadOk)
      ensures FilesStored(old(table.rows), old(bucket.paths)) ==> FilesStored(table.rows, bucket.paths)
    {
      if !uploadOk {
        message := UploadFailedMessage;
        loading := false;
        return;
      }
      bucket.Upsert(document.filePath);
      if !insertOk {
        message := UploadFailedMessage;
        loading := false;
        return;
      }
      Record(document, reloadOk);
      loading := false;
    }

    /** The insert of the document's row after its object is stored, and the reset. */
    method Record(document: StudentDocument, reloadOk: bool)
      requires table.Valid() && studentId != "" && document.filePath in bucket.paths
      modifies this`message, this`selectedFile, this`selectedType, this`documents, this`updates, table
      ensures table.Valid()
      ensures |table.rows| == |old(table.rows)| + 1 && table.rows[..|old(table.rows)|] == old(table.rows)
      ensures table.rows[|old(table.rows)|].studentId == studentId
      ensures table.rows[|old(table.rows)|].data == document
      ensures message == UploadedMessage && selectedFile.None? && selectedType == ""
      ensures documents == if reloadOk then ByNewest(ForStudent(table.rows, studentId)) else old(documents)
      ensures updates == old(updates) + 1
      ensures FilesStored(old(table.rows), bucket.paths) ==> FilesStored(table.rows, bucket.paths)
    {
      ghost var rows0 := table.rows;
      var _ := table.Insert(studentId, document);
      assert table.rows[..|rows0|] == rows0;
      message := UploadedMessage;
      selectedFile := None;
      selectedType := "";
      LoadDocuments(reloadOk);
      updates := updates + 1;
    }

    /** `handleDelete`: nothing happens unless the student confirms; the row is deleted by
        id (its answer is not looked at), the stored object is left in the bucket, and the
        success message shows. */
    method HandleDelete(docId: nat, confirmed: bool, deleteOk: bool, reloadOk: bool)
      requires table.Valid()
      modifies this`loading, this`message, this`documents, table
      ensures table.Valid()
      ensures !confirmed ==>
        table.rows == old(table.rows) && message == old(message) && documents == old(documents)
        && loading == old(loading)
      ensures confirmed ==>
        && !loading
        && table.rows == (if deleteOk then WithoutId(old(table.rows), docId) else old(table.rows))
        && documents == (if studentId != "" && reloadOk then ByNewest(ForStudent(table.rows, studentId)) else old(documents))
        && message == DeletedMessage
      ensures FilesStored(old(table.rows), bucket.paths) ==> FilesStored(table.rows, bucket.paths)
    {
      if !confirmed {
        return;
      }
      loading := true;
      if deleteOk {
        table.DeleteWithId(docId);
      }
      LoadDocuments(reloadOk);
      message := DeletedMessage;
      loading := false;
    }
  }
}
