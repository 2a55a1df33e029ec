/** `/api/sessions`: a photographer lists their photo sessions, newest first, and
    opens a session on one of their classes. Opening a session orders the class
    roster and records how many students are still to be photographed. */
module SessionsRoute {
  import opened Records
  import opened Database
  import opened Roster

  /** The body of a session creation request; an absent field is None, and a class id
      or prefix that is empty counts as absent. */
  datatype SessionRequest = SessionRequest(
    classId: Option<Id>, photoPrefix: Option<string>, startNumber: Option<int>, sortOrder: Option<string>)

  /** The request lacks the class or the photo prefix. */
  predicate MissingFields(req: SessionRequest) {
    req.classId.None? || req.photoPrefix.None? || req.photoPrefix == Some("")
  }

  /** The first photo number, 1 when the request gives none. */
  function StartNumber(req: SessionRequest): int {
    req.startNumber.GetOr(1)
  }

  /** The roster order, alphabetical when the request gives none. */
  function SortOrder(req: SessionRequest): string {
    req.sortOrder.GetOr(ALPHABETICAL)
  }

  /** The listing keeps the sessions of `uid`, and of class `classId` when one is given. */
  function SessionFilter(uid: UserId, classId: Option<Id>): Session -> bool {
    (s: Session) => s.photographerId == uid && (classId.Some? ==> s.classId == classId.value)
  }

  /** GET with the optional `classId` query parameter (None when absent or empty): the
      caller's sessions, of that class when one is given, newest first. */
  function GetSessions(t: Tables, caller: Option<Profile>, classId: Option<Id>): (r: Reply<seq<Session>>)
    ensures caller.None? ==> r == Unauthorized()
    ensures caller.Some? ==> r.Ok? && r.status == OK
    ensures caller.Some? ==>
              forall s :: s in r.value <==>
                s in t.sessions && s.photographerId == caller.value.id
                && (classId.Some? ==> s.classId == classId.value)
  {
    match caller
    case None => Unauthorized()
    case Some(p) => Ok(OK, NewestFirst(t.sessions, SessionFilter(p.id, classId)))
  }

  /** In a consistent database the listing runs from the newest session to the oldest. */
  lemma {:induction false} GetSessionsNewestFirst(t: Tables, caller: Option<Profile>, classId: Option<Id>)
    requires Consistent(t) && caller.Some?
    ensures Decreasing(GetSessions(t, caller, classId).value, SessionStamp)
  {
    NewestFirstIsDescending(t.sessions, SessionFilter(caller.value.id, classId), SessionStamp);
  }

  /** The students of class `classId` (the class's `students` relation). */
  function ClassStudents(students: seq<Student>, classId: Id): seq<Student> {
    Where(students, (s: Student) => s.classId == classId)
  }

  /** POST: opens a session on a class of the caller, with every student of the class
      pending. Also returns the roster in the requested order (by registration number,
      or by sort key otherwise); the reply itself carries only its size. */
  method PostSession(db: Store, caller: Option<Profile>, req: SessionRequest)
    returns (r: Reply<Session>, roster: seq<Student>)
    requires db.Valid()
    modifies db
    ensures db.Valid()
    ensures r.Fail? ==> roster == [] && db.Snapshot() == old(db.Snapshot())
    ensures caller.None? ==> r == Unauthorized()
    ensures caller.Some? && MissingFields(req) ==>
              r == Fail(BAD_REQUEST, "Missing required fields: classId, photoPrefix")
    ensures caller.Some? && !MissingFields(req) && Lookup(old(db.classes), ClassKey, req.classId.value).None? ==>
              r == Fail(NOT_FOUND, "Class not found")
    ensures caller.Some? && !MissingFields(req) && Lookup(old(db.classes), ClassKey, req.classId.value).Some?
            && !ClassOwnedBy(old(db.Snapshot()), req.classId.value, caller.value.id) ==>
              r == Unauthorized()
    ensures caller.Some? && !MissingFields(req)
            && ClassOwnedBy(old(db.Snapshot()), req.classId.value, caller.value.id) ==>
              var t, k := old(db.Snapshot()), req.classId.value;
              var members := ClassStudents(t.students, k);
              RosterSorted(roster, SortOrder(req) == REGISTRATION_NUMBER)
              && multiset(roster) == multiset(members)
              && r == Ok(CREATED, Session(t.nextId, k, caller.value.id, req.photoPrefix.value, StartNumber(req),
                                          SortOrder(req), |members|, |members|, IN_PROGRESS, t.clock))
              && db.Snapshot() == t.(sessions := t.sessions + [r.value], nextId := t.nextId + 1,
                                     clock := t.clock + 1)
  {
    roster := [];
    if caller.None? {
      return Unauthorized(), roster;
    }
    if MissingFields(req) {
      return Fail(BAD_REQUEST, "Missing required fields: classId, photoPrefix"), roster;
    }
    var uid, k := caller.value.id, req.classId.value;
    var found := Lookup(db.classes, ClassKey, k);
    if found.None? {
      return Fail(NOT_FOUND, "Class not found"), roster;
    }
    if !ClassOwnedBy(db.Snapshot(), k, uid) {
      return Unauthorized(), roster;
    }
    OwnerIsUser(db.Snapshot(), found.value.schoolId, uid);
    var members := ClassStudents(db.students, k);
    var a := new Student[|members|](i requires 0 <= i < |members| => members[i]);
    assert a[..] == members;
    SortRoster(a, SortOrder(req) == REGISTRATION_NUMBER);
    roster := a[..];
    assert |roster| == |members| by {
      assert |multiset(roster)| == |multiset(members)|;
    }
    var session := db.CreateSession(k, uid, req.photoPrefix.value, StartNumber(req), SortOrder(req), |roster|);
    r := Ok(CREATED, session);
  }

  /** A session just opened heads the caller's listing, for its class and overall. */
  lemma {:induction false} OpenedSessionListedFirst(t: Tables, s: Session, p: Profile, classId: Option<Id>)
    requires s.photographerId == p.id && (classId.Some? ==> classId.value == s.classId)
    ensures GetSessions(t.(sessions := t.sessions + [s]), Some(p), classId).value
            == [s] + GetSessions(t, Some(p), classId).value
  {
    NewestFirstAppend(t.sessions, SessionFilter(p.id, classId), s);
  }
}
