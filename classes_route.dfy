/** `/api/classes`: a photographer lists the classes of one of their schools, by grade
    and section, and adds a class to one of their schools. */
module ClassesRoute {
  import opened Records
  import opened Database
  import opened ClassOrder

  /** The body of a class creation request. */
  datatype ClassRequest = ClassRequest(schoolId: Id, name: string, grade: string, section: string, year: int)

  function RequestIdentity(req: ClassRequest): ClassIdentity {
    ClassIdentity(req.schoolId, req.grade, req.section, req.year)
  }

  /** The listing keeps the classes of school `schoolId`. */
  function InSchool(schoolId: Id): Class -> bool {
    (c: Class) => c.schoolId == schoolId
  }

  /** GET with the `schoolId` query parameter (None when absent or empty): the classes
      of that school, in grade-then-section order, when it belongs to the caller. */
  function GetClasses(t: Tables, caller: Option<Profile>, schoolId: Option<Id>): (r: Reply<seq<Class>>)
    ensures caller.None? ==> r == Unauthorized()
    ensures caller.Some? && schoolId.None? ==> r == Fail(BAD_REQUEST, "schoolId is required")
    ensures caller.Some? && schoolId.Some? && !SchoolOwnedBy(t, schoolId.value, caller.value.id) ==>
              r == Unauthorized()
    ensures caller.Some? && schoolId.Some? && SchoolOwnedBy(t, schoolId.value, caller.value.id) ==>
              r.Ok? && r.status == OK && SortedByGradeSection(r.value)
              && multiset(r.value) == multiset(Where(t.classes, InSchool(schoolId.value)))
              && forall c :: c in r.value <==> c in t.classes && c.schoolId == schoolId.value
  {
    match caller
    case None => Unauthorized()
    case Some(p) =>
      match schoolId
      case None => Fail(BAD_REQUEST, "schoolId is required")
      case Some(id) =>
        if !SchoolOwnedBy(t, id, p.id) then Unauthorized()
        else Ok(OK, ClassListing(t.classes, id))
  }

  /** The classes of one school (`findMany` with `orderBy` grade, then section). */
  function ClassListing(classes: seq<Class>, schoolId: Id): (r: seq<Class>)
    ensures SortedByGradeSection(r)
    ensures multiset(r) == multiset(Where(classes, InSchool(schoolId)))
    ensures forall c :: c in r <==> c in classes && c.schoolId == schoolId
  {
    var mine := Where(classes, InSchool(schoolId));
    SortByGradeSectionCorrect(mine);
    var listing := SortByGradeSection(mine);
    assert forall c :: c in listing <==> c in classes && c.schoolId == schoolId by {
      forall c ensures c in listing <==> c in mine {
        assert c in listing <==> c in multiset(listing);
        assert c in mine <==> c in multiset(mine);
      }
    }
    listing
  }

  /** POST: creates the class in a school of the caller unless that school already has
      a class with the same grade, section and year. */
  method PostClass(db: Store, caller: Option<Profile>, req: ClassRequest) returns (r: Reply<Class>)
    requires db.Valid()
    modifies db
    ensures db.Valid()
    ensures caller.None? ==> r == Unauthorized() && db.Snapshot() == old(db.Snapshot())
    ensures caller.Some? && !SchoolOwnedBy(old(db.Snapshot()), req.schoolId, caller.value.id) ==>
              r == Unauthorized() && db.Snapshot() == old(db.Snapshot())
    ensures caller.Some? && SchoolOwnedBy(old(db.Snapshot()), req.schoolId, caller.value.id)
            && IndexOf(old(db.classes), IdentityOf, RequestIdentity(req)).Some? ==>
              r == Fail(CONFLICT, "This class already exists") && db.Snapshot() == old(db.Snapshot())
    ensures caller.Some? && SchoolOwnedBy(old(db.Snapshot()), req.schoolId, caller.value.id)
            && IndexOf(old(db.classes), IdentityOf, RequestIdentity(req)).None? ==>
              var t := old(db.Snapshot());
              r == Ok(CREATED, Class(t.nextId, req.name, req.grade, req.section, req.year, req.schoolId))
              && db.Snapshot() == t.(classes := t.classes + [r.value], nextId := t.nextId + 1)
  {
    if caller.None? {
      return Unauthorized();
    }
    if !SchoolOwnedBy(db.Snapshot(), req.schoolId, caller.value.id) {
      return Unauthorized();
    }
    if IndexOf(db.classes, IdentityOf, RequestIdentity(req)).Some? {
      return Fail(CONFLICT, "This class already exists");
    }
    var c := db.CreateClass(req.name, req.grade, req.section, req.year, req.schoolId);
    r := Ok(CREATED, c);
  }

  /** Once a class is created, the same request finds it: a repeated creation is
      answered with a conflict and creates nothing. */
  lemma {:induction false} RepeatedClassConflicts(classes: seq<Class>, c: Class, req: ClassRequest)
    requires IdentityOf(c) == RequestIdentity(req)
    ensures IndexOf(classes + [c], IdentityOf, RequestIdentity(req)).Some?
  {
    LookupAfterAppend(classes, IdentityOf, c, RequestIdentity(req));
  }

  /** The same request posted twice: when the first creates the class, the second is
      answered with a conflict and leaves the database as the first left it. */
  method PostClassTwice(db: Store, caller: Option<Profile>, req: ClassRequest)
    returns (first: Reply<Class>, second: Reply<Class>)
    requires db.Valid()
    modifies db
    ensures db.Valid()
    ensures first.Ok? ==> second == Fail(CONFLICT, "This class already exists")
    ensures first.Ok? ==> db.Snapshot() == old(db.Snapshot()).(classes := old(db.classes) + [first.value],
                                                               nextId := old(db.nextId) + 1)
  {
    ghost var t := db.Snapshot();
    first := PostClass(db, caller, req);
    if first.Ok? {
      RepeatedClassConflicts(t.classes, first.value, req);
    }
    second := PostClass(db, caller, req);
  }

  /** A new class shows up in its school's listing. */
  lemma {:induction false} CreatedClassIsListed(t: Tables, c: Class, p: Profile)
    requires SchoolOwnedBy(t, c.schoolId, p.id)
    ensures var t' := t.(classes := t.classes + [c], nextId := t.nextId + 1);
            GetClasses(t', Some(p), Some(c.schoolId)).Ok? && c in GetClasses(t', Some(p), Some(c.schoolId)).value
  {
  }
}
