/** `/api/students/import`: a photographer adds a list of students to one of their
    classes. Each student is stored under its trimmed name, with the sort key computed
    from the name as submitted. */
module StudentImport {
  import opened Text
  import opened Records
  import opened Database
  import opened SortName

  /** One entry of the request's `students` array; grade and section are accepted but
      not stored. */
  datatype ImportEntry = ImportEntry(name: string, grade: Option<string>, section: Option<string>)

  /** The body of a successful reply. */
  datatype ImportResult = ImportResult(success: bool, count: nat, students: seq<Student>)

  /** The data `student.create` receives for one entry, besides the class. */
  datatype StudentRow = StudentRow(name: string, sortName: string)

  /** The trimmed name and the sort key of the name as submitted. */
  function RowOf(e: ImportEntry): StudentRow {
    StudentRow(Trim(e.name), GenerateSortName(e.name))
  }

  function Rows(entries: seq<ImportEntry>): seq<StudentRow> {
    seq(|entries|, i requires 0 <= i < |entries| => RowOf(entries[i]))
  }

  /** The students created from `rows`, in order, with consecutive ids from `firstId`. */
  function Created(rows: seq<StudentRow>, firstId: Id, classId: Id): seq<Student> {
    seq(|rows|, i requires 0 <= i < |rows| => Student(firstId + i, rows[i].name, rows[i].sortName, None, classId))
  }

  /** The students an import creates. */
  function Imported(entries: seq<ImportEntry>, firstId: Id, classId: Id): seq<Student> {
    Created(Rows(entries), firstId, classId)
  }

  /** One student per entry, with consecutive ids, all in the class, none with a
      registration number. Each is stored under its entry's trimmed name, and its sort
      key is the key of the name it is stored under. */
  lemma {:induction false} ImportedSpec(entries: seq<ImportEntry>, firstId: Id, classId: Id)
    ensures var r := Imported(entries, firstId, classId);
            |r| == |entries|
            && forall i :: 0 <= i < |r| ==>
                 r[i].id == firstId + i && r[i].classId == classId && r[i].registrationNumber.None?
                 && r[i].name == Trim(entries[i].name) && Trimmed(r[i].name)
                 && r[i].sortName == GenerateSortName(r[i].name)
  {
    var r := Imported(entries, firstId, classId);
    forall i | 0 <= i < |r|
      ensures Trimmed(r[i].name) && r[i].sortName == GenerateSortName(r[i].name)
    {
      TrimShape(entries[i].name);
      SortNameOfTrimmedName(entries[i].name);
    }
  }

  /** POST with the class id (None when absent or empty) and the entries (None when
      absent or not an array). */
  method ImportStudents(db: Store, caller: Option<Profile>, classId: Option<Id>, entries: Option<seq<ImportEntry>>)
    returns (r: Reply<ImportResult>)
    requires db.Valid()
    modifies db
    ensures db.Valid()
    ensures caller.None? ==> r == Unauthorized() && db.Snapshot() == old(db.Snapshot())
    ensures caller.Some? && (classId.None? || entries.None?) ==>
              r == Fail(BAD_REQUEST, "Invalid request data") && db.Snapshot() == old(db.Snapshot())
    ensures caller.Some? && classId.Some? && entries.Some?
            && !ClassOwnedBy(old(db.Snapshot()), classId.value, caller.value.id) ==>
              r == Unauthorized() && db.Snapshot() == old(db.Snapshot())
    ensures caller.Some? && classId.Some? && entries.Some?
            && ClassOwnedBy(old(db.Snapshot()), classId.value, caller.value.id) ==>
              var t, created := old(db.Snapshot()), Imported(entries.value, old(db.nextId), classId.value);
              r == Ok(CREATED, ImportResult(true, |entries.value|, created))
              && db.Snapshot() == t.(students := t.students + created, nextId := t.nextId + |created|)
  {
    if caller.None? {
      return Unauthorized();
    }
    if classId.None? || entries.None? {
      return Fail(BAD_REQUEST, "Invalid request data");
    }
    var k, list := classId.value, entries.value;
    if !ClassOwnedBy(db.Snapshot(), k, caller.value.id) {
      return Unauthorized();
    }
    var created := CreateStudents(db, Rows(list), k);
    r := Ok(CREATED, ImportResult(true, |created|, created));
  }

  /** One `student.create` per row, in row order (the route issues them together and
      waits for all of them). */
  method CreateStudents(db: Store, rows: seq<StudentRow>, k: Id) returns (created: seq<Student>)
    requires db.Valid() && IndexOf(db.classes, ClassKey, k).Some?
    modifies db
    ensures db.Valid()
    ensures created == Created(rows, old(db.nextId), k)
    ensures db.Snapshot() == old(db.Snapshot()).(students := old(db.students) + created,
                                                 nextId := old(db.nextId) + |rows|)
  {
    ghost var t := db.Snapshot();
    created := [];
    var i := 0;
    while i < |rows|
      invariant 0 <= i <= |rows|
      invariant db.Valid()
      invariant |created| == i
      invariant forall j :: 0 <= j < i ==>
                  created[j] == Student(t.nextId + j, rows[j].name, rows[j].sortName, None, k)
      invariant db.Snapshot() == t.(students := t.students + created, nextId := t.nextId + i)
    {
      var s := db.CreateStudent(rows[i].name, rows[i].sortName, k);
      assert t.students + (created + [s]) == (t.students + created) + [s];
      created := created + [s];
      i := i + 1;
    }
    ghost var expected := Created(rows, t.nextId, k);
    assert |expected| == |created| && forall j :: 0 <= j < |created| ==> created[j] == expected[j];
  }
}
