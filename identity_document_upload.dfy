/**
 * The Aadhar/PAN upload card: a selected file is checked for type and size, then stored
 * in the `identity-documents` bucket and recorded as a row of `identity_documents`
 * whose document type is read off the file name.
 */
module IdentityDocumentUpload {
  import opened Text
  import opened Tables

  /** What the browser reports about a chosen file. */
  datatype FileInfo = FileInfo(name: string, size: int, mimeType: string)

  datatype FileProblem = WrongType | TooLarge

  datatype DocumentKind = Aadhar | Pan

  /** A row of `identity_documents` without its id and `student_id`. */
  datatype IdentityDocument = IdentityDocument(documentType: DocumentKind, filePath: string,
                                               fileName: string, fileSize: int)

  const PdfType := "application/pdf"
  const MaxFileSize := 5 * 1024 * 1024
  const Folder := "identity-documents/"

  const SelectFirstMessage := "Please select a file first"
  const UploadFailedMessage := "Error uploading file. Please try again."
  const SaveFailedMessage := "Error saving document. Please try again."
  const UploadedMessage := "Your Aadhar/PAN card has been uploaded successfully!"
  const RemovedMessage := "Document removed successfully"

  /** `validateFile`: the type is checked before the size; `None` means valid. */
  function ValidateFile(f: FileInfo): (r: Option<FileProblem>)
    ensures r.None? <==> f.mimeType == PdfType && f.size <= MaxFileSize
    ensures r == Some(WrongType) <==> f.mimeType != PdfType
  {
    if f.mimeType != PdfType then Some(WrongType)
    else if f.size > MaxFileSize then Some(TooLarge)
    else None
  }

  function ProblemText(p: FileProblem): string
  {
    match p
    case WrongType => "Invalid file type. Please upload a PDF file."
    case TooLarge => "File size exceeds the limit. Please upload a file smaller than 5MB."
  }

  /** The limit is inclusive: a PDF of exactly 5 MiB passes, one byte more does not, and
      a file of the wrong type is refused for its type whatever its size. */
  lemma SizeBoundary(name: string, mimeType: string)
    ensures ValidateFile(FileInfo(name, 5242880, PdfType)).None?
    ensures ValidateFile(FileInfo(name, 5242881, PdfType)) == Some(TooLarge)
    ensures mimeType != PdfType ==> ValidateFile(FileInfo(name, 5242881, mimeType)) == Some(WrongType)
  {
  }

  /** `'aadhar'` when the lower-cased name contains "aadhar", `'pan'` otherwise. */
  function DocumentType(name: string): (k: DocumentKind)
    ensures k == Aadhar <==> ContainsIgnoringCase(name, "aadhar")
  {
    if ContainsIgnoringCase(name, "aadhar") then Aadhar else Pan
  }

  /** A name holding "aadhar" in any mix of ASCII cases is classed as Aadhar. */
  lemma AadharInAnyCase(prefix: string, word: string, suffix: string)
    requires ToLower(word) == "aadhar"
    ensures DocumentType(prefix + word + suffix) == Aadhar
  {
    ToLowerAppend(prefix + word, suffix);
    ToLowerAppend(prefix, word);
    assert OccursAt("aadhar", "aadhar", 0);
    ContainsInContext(ToLower(prefix), "aadhar", ToLower(suffix), "aadhar");
  }

  /** The object name: student id, upload time in milliseconds and file name. */
  function FileName(sid: string, now: nat, name: string): string
  {
    sid + "-" + NatToString(now) + "-" + name
  }

  function StoragePath(sid: string, now: nat, name: string): (path: string)
    ensures path == Folder + sid + "-" + NatToString(now) + ("-" + name)
  {
    Folder + FileName(sid, now, name)
  }

  /** Two uploads of the same file by the same student at different times get different
      paths. */
  lemma {:induction false} DistinctTimestamps(sid: string, t1: nat, t2: nat, name: string)
    requires t1 != t2
    ensures StoragePath(sid, t1, name) != StoragePath(sid, t2, name)
  {
    var head := Folder + sid + "-";
    var tail := "-" + name;
    var a1, a2 := NatToString(t1), NatToString(t2);
    if StoragePath(sid, t1, name) == StoragePath(sid, t2, name) {
      var p := StoragePath(sid, t1, name);
      assert |a1| == |a2|;
      assert p[|head|..|head| + |a1|] == a1;
      assert StoragePath(sid, t2, name)[|head|..|head| + |a2|] == a2;
      NatToStringInjective(t1, t2);
    }
  }

  /** Every recorded document points at an object in the bucket. */
  ghost predicate FilesStored(rows: seq<Row<IdentityDocument>>, paths: seq<string>)
  {
    forall i :: 0 <= i < |rows| ==> rows[i].data.filePath in paths
  }

  /** Storing the object before recording its row keeps every row's file in the bucket. */
  lemma StoreThenRecord(rows: seq<Row<IdentityDocument>>, paths: seq<string>, row: Row<IdentityDocument>)
    requires FilesStored(rows, paths)
    ensures FilesStored(rows + [row], paths + [row.data.filePath])
  {
    assert forall i :: 0 <= i < |rows| ==> (rows + [row])[i] == rows[i];
  }

  /** Removing the object first means a delete that then fails leaves a row whose file is
      gone. */
  lemma RemoveWithoutDelete(rows: seq<Row<IdentityDocument>>, paths: seq<string>, k: nat)
    requires k < |rows|
    ensures !FilesStored(rows, Without(paths, rows[k].data.filePath))
  {
  }

  class IdentityDocumentUpload {
    const studentId: string
    const table: Table<IdentityDocument>
    const bucket: Bucket
    var uploadedFile: Option<FileInfo>
    var loading: bool
    var message: string
    var uploadedDocuments: seq<Row<IdentityDocument>>

    constructor (studentId: string, table: Table<IdentityDocument>, bucket: Bucket)
      ensures this.studentId == studentId && this.table == table && this.bucket == bucket
      ensures uploadedFile.None? && !loading && message == "" && uploadedDocuments == []
    {
      this.studentId := studentId;
      this.table := table;
      this.bucket := bucket;
      uploadedFile := None;
      loading := false;
      message := "";
      uploadedDocuments := [];
    }

    /** `loadUploadedDocuments`, with whether the query returned data as an input. */
    method LoadUploadedDocuments(queryOk: bool)
      modifies this`uploadedDocuments
      ensures uploadedDocuments ==
        if studentId != "" && queryOk then ForStudent(table.rows, studentId) else old(uploadedDocuments)
    {
      if studentId == "" {
        return;
      }
      if queryOk {
        uploadedDocuments := ForStudent(table.rows, studentId);
      }
    }

    /** `handleFileSelect`: a valid file becomes the selection; an invalid one leaves the
        selection alone and explains why. */
    method HandleFileSelect(file: FileInfo)
      modifies this`message, this`uploadedFile
      ensures ValidateFile(file).None? ==> uploadedFile == Some(file) && message == ""
      ensures ValidateFile(file).Some? ==>
        uploadedFile == old(uploadedFile) && message == ProblemText(ValidateFile(file).value)
    {
      message := "";
      var problem := ValidateFile(file);
      if problem.Some? {
        message := ProblemText(problem.value);
        return;
      }
      uploadedFile := Some(file);
    }

    /** `handleUpload` with the environment as inputs: whether the page's file input still
        holds a file, the clock, and whether the storage upload, the row insert and the
        reload went through. */
    method HandleUpload(inputHasFile: bool, now: nat, uploadOk: bool, insertOk: bool, reloadOk: bool)
      requires table.Valid()
      modifies this`loading, this`message, this`uploadedFile, this`uploadedDocuments, table, bucket
      ensures table.Valid()
      ensures old(uploadedFile).None? || studentId == "" ==>
        && message == old(message) && loading == old(loading) && uploadedFile == old(uploadedFile)
        && table.rows == old(table.rows) && bucket.paths == old(bucket.paths)
        && uploadedDocuments == old(uploadedDocuments)
      ensures old(uploadedFile).Some? && studentId != "" && !inputHasFile ==>
        && !loading && message == SelectFirstMessage && uploadedFile == old(uploadedFile)
        && table.rows == old(table.rows) && bucket.paths == old(bucket.paths)
        && uploadedDocuments == old(uploadedDocuments)
      ensures old(uploadedFile).Some? && studentId != "" && inputHasFile ==>
        !loading && Stored(old(uploadedFile).value, now, uploadOk, insertOk, reloadOk,
                           old(table.rows), old(bucket.paths), old(uploadedFile), old(uploadedDocuments))
      ensures FilesStored(old(table.rows), old(bucket.paths)) ==> FilesStored(table.rows, bucket.paths)
    {
      if uploadedFile.None? || studentId == "" {
        return;
      }
      loading := true;
      message := "";
      if !inputHasFile {
        message := SelectFirstMessage;
        loading := false;
        return;
      }
      StoreAndRecord(uploadedFile.value, now, uploadOk, insertOk, reloadOk);
      loading := false;
    }

    /** The outcome of storing file `f` and recording it: the object goes in the bucket
        first, and the row is written only when that went through. */
    ghost predicate Stored(f: FileInfo, now: nat, uploadOk: bool, insertOk: bool, reloadOk: bool,
                           rows0: seq<Row<IdentityDocument>>, paths0: seq<string>,
                           selection0: Option<FileInfo>, documents0: seq<Row<IdentityDocument>>)
      reads this, table, bucket
    {
      var path := StoragePath(studentId, now, f.name);
      && bucket.paths == paths0 + (if uploadOk then [path] else [])
      && (!(uploadOk && insertOk) ==>
            && table.rows == rows0 && uploadedFile == selection0 && uploadedDocuments == documents0
            && message == if uploadOk then SaveFailedMessage else UploadFailedMessage)
      && (uploadOk && insertOk ==>
            && |table.rows| == |rows0| + 1 && table.rows[..|rows0|] == rows0
            && table.rows[|rows0|].studentId == studentId
            && table.rows[|rows0|].data == IdentityDocument(DocumentType(f.name), path, f.name, f.size)
            && uploadedFile.None? && message == UploadedMessage
            && uploadedDocuments == if reloadOk then ForStudent(table.rows, studentId) else documents0)
    }

    method StoreAndRecord(f: FileInfo, now: nat, uploadOk: bool, insertOk: bool, reloadOk: bool)
      requires table.Valid() && studentId != ""
      modifies this`message, this`uploadedFile, this`uploadedDocuments, table, bucket
      ensures table.Valid()
      ensures Stored(f, now, uploadOk, insertOk, reloadOk, old(table.rows), old(bucket.paths),
                     old(uploadedFile), old(uploadedDocuments))
      ensures FilesStored(old(table.rows), old(bucket.paths)) ==> FilesStored(table.rows, bucket.paths)
    {
      var path := StoragePath(studentId, now, f.name);
      if !uploadOk {
        message := UploadFailedMessage;
        return;
      }
      bucket.Upload(path);
      if !insertOk {
        message := SaveFailedMessage;
        return;
      }
      Record(IdentityDocument(DocumentType(f.name), path, f.name, f.size), reloadOk);
    }

    method Record(document: IdentityDocument, reloadOk: bool)
      requires table.Valid() && studentId != "" && |bucket.paths| > 0
      requires bucket.paths[|bucket.paths| - 1] == document.filePath
      modifies this`message, this`uploadedFile, this`uploadedDocuments, table
      ensures table.Valid()
      ensures |table.rows| == |old(table.rows)| + 1 && table.rows[..|old(table.rows)|] == old(table.rows)
      ensures table.rows[|old(table.rows)|].studentId == studentId
      ensures table.rows[|old(table.rows)|].data == document
      ensures uploadedFile.None? && message == UploadedMessage
      ensures uploadedDocuments == if reloadOk then ForStudent(table.rows, studentId) else old(uploadedDocuments)
      ensures FilesStored(old(table.rows), bucket.paths[..|bucket.paths| - 1]) ==> FilesStored(table.rows, bucket.paths)
    {
      ghost var rows0 := table.rows;
      var id := table.Insert(studentId, document);
      assert table.rows[..|rows0|] == rows0;
      ghost var paths0 := bucket.paths[..|bucket.paths| - 1];
      assert bucket.paths == paths0 + [document.filePath];
      if FilesStored(rows0, paths0) {
        StoreThenRecord(rows0, paths0, Row(id, studentId, document));
      }
      message := UploadedMessage;
      uploadedFile := None;
      LoadUploadedDocuments(reloadOk);
    }

    /** `handleRemoveDocument`: the object is removed, then the row; neither answer is
        looked at, so the success message is shown either way. */
    method HandleRemoveDocument(docId: nat, filePath: string, removeOk: bool, deleteOk: bool, reloadOk: bool)
      requires table.Valid()
      modifies this`message, this`uploadedDocuments, table, bucket
      ensures table.Valid()
      ensures bucket.paths == if removeOk then Without(old(bucket.paths), filePath) else old(bucket.paths)
      ensures table.rows == if deleteOk then WithoutId(old(table.rows), docId) else old(table.rows)
      ensures message == RemovedMessage
      ensures uploadedDocuments == if studentId != "" && reloadOk then ForStudent(table.rows, studentId) else old(uploadedDocuments)
    {
      if removeOk {
        bucket.Remove(filePath);
      }
      if deleteOk {
        table.DeleteWithId(docId);
      }
      message := RemovedMessage;
      LoadUploadedDocuments(reloadOk);
    }
  }
}
