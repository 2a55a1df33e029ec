/** The database the route handlers share: one table per entity, a generator of fresh
    row ids and the clock that stamps `createdAt`. The primitives below are the
    store's own operations (create one row, upsert a user); each keeps the schema's
    constraints, gathered in `Store.Valid`. */
module Database {
  import opened Records

  /** `user.upsert` keyed by id: an existing row gets the new email and name and keeps
      its password hash and role; otherwise a photographer row with an empty password
      hash is appended. */
  function Upsert(users: seq<User>, id: UserId, email: string, name: string): (r: seq<User>)
    ensures Lookup(users, UserKey, id).None? ==>
              Lookup(r, UserKey, id) == Some(User(id, email, name, "", PHOTOGRAPHER))
    ensures Lookup(users, UserKey, id).Some? ==>
              var u := Lookup(users, UserKey, id).value;
              Lookup(r, UserKey, id) == Some(User(id, email, name, u.passwordHash, u.role))
    ensures forall k :: k != id ==> Lookup(r, UserKey, k) == Lookup(users, UserKey, k)
  {
    match IndexOf(users, UserKey, id)
    case None =>
      var r := users + [User(id, email, name, "", PHOTOGRAPHER)];
      assert forall k :: IndexOf(r, UserKey, k) ==
               (if IndexOf(users, UserKey, k).Some? then IndexOf(users, UserKey, k)
                else if id == k then Some(|users|) else None)
      by {
        forall k { LookupAfterAppend(users, UserKey, User(id, email, name, "", PHOTOGRAPHER), k); }
      }
      r
    case Some(i) =>
      var r := users[i := User(id, email, name, users[i].passwordHash, users[i].role)];
      assert forall k :: IndexOf(r, UserKey, k) == IndexOf(users, UserKey, k) by {
        forall k { IndexOfSameKeys(r, users, UserKey, k); }
      }
      r
  }

  /** An upsert changes no key already present, and adds at most the upserted one. */
  lemma {:induction false} UpsertKeys(users: seq<User>, id: UserId, email: string, name: string)
    ensures var r := Upsert(users, id, email, name);
            (|r| == |users| && forall i :: 0 <= i < |users| ==> r[i].id == users[i].id)
            || (r == users + [r[|users|]] && r[|users|].id == id && Lookup(users, UserKey, id).None?)
  {
  }

  /** Upserting keeps user ids unique. */
  lemma {:induction false} UpsertUnique(users: seq<User>, id: UserId, email: string, name: string)
    requires UniqueKeys(users, UserKey)
    ensures UniqueKeys(Upsert(users, id, email, name), UserKey)
  {
    var r := Upsert(users, id, email, name);
    if IndexOf(users, UserKey, id).None? {
      forall i, j | 0 <= i < j < |r| ensures r[i].id != r[j].id {
        assert r[i] == users[i];
        if j < |users| { assert r[j] == users[j]; }
      }
    }
  }

  /** Upserting the same user twice leaves the table as one upsert does: repeated
      requests never duplicate a user. */
  lemma {:induction false} UpsertIdempotent(users: seq<User>, id: UserId, email: string, name: string)
    ensures Upsert(Upsert(users, id, email, name), id, email, name) == Upsert(users, id, email, name)
  {
    var once := Upsert(users, id, email, name);
    var i := IndexOf(once, UserKey, id).value;
    assert once[i] == Lookup(once, UserKey, id).value;
  }

  /** The contents of the database at one moment. */
  datatype Tables = Tables(
    users: seq<User>, schools: seq<School>, classes: seq<Class>, students: seq<Student>,
    sessions: seq<Session>, nextId: Id, clock: nat)

  /** The schema's constraints: unique ids (handed out in increasing order), creation
      stamps in table order, one class per (school, grade, section, year), and every
      reference leading to an existing row. */
  ghost predicate Consistent(t: Tables) {
    UniqueKeys(t.users, UserKey)
    && Increasing(t.schools, SchoolKey) && AllBelow(t.schools, SchoolKey, t.nextId)
    && Increasing(t.classes, ClassKey) && AllBelow(t.classes, ClassKey, t.nextId)
    && Increasing(t.students, StudentKey) && AllBelow(t.students, StudentKey, t.nextId)
    && Increasing(t.sessions, SessionKey) && AllBelow(t.sessions, SessionKey, t.nextId)
    && Increasing(t.schools, SchoolStamp) && AllBelow(t.schools, SchoolStamp, t.clock)
    && Increasing(t.sessions, SessionStamp) && AllBelow(t.sessions, SessionStamp, t.clock)
    && UniqueKeys(t.classes, IdentityOf)
    && Refers(t.schools, SchoolOwner, t.users, UserKey)
    && Refers(t.classes, ClassSchool, t.schools, SchoolKey)
    && Refers(t.students, StudentClass, t.classes, ClassKey)
    && Refers(t.sessions, SessionClass, t.classes, ClassKey)
    && Refers(t.sessions, SessionOwner, t.users, UserKey)
  }

  lemma {:induction false} UpsertConsistent(t: Tables, id: UserId, email: string, name: string)
    requires Consistent(t)
    ensures Consistent(t.(users := Upsert(t.users, id, email, name)))
  {
    var users := Upsert(t.users, id, email, name);
    UpsertUnique(t.users, id, email, name);
    UpsertKeys(t.users, id, email, name);
    if |users| == |t.users| {
      RefersSameKeys(t.schools, SchoolOwner, t.users, users, UserKey);
      RefersSameKeys(t.sessions, SessionOwner, t.users, users, UserKey);
    } else {
      RefersAppendTarget(t.schools, SchoolOwner, t.users, UserKey, users[|t.users|]);
      RefersAppendTarget(t.sessions, SessionOwner, t.users, UserKey, users[|t.users|]);
    }
  }

  lemma {:induction false} SchoolAddedConsistent(t: Tables, s: School)
    requires Consistent(t) && s.id == t.nextId && s.createdAt == t.clock
    requires IndexOf(t.users, UserKey, s.photographerId).Some?
    ensures Consistent(t.(schools := t.schools + [s], nextId := t.nextId + 1, clock := t.clock + 1))
  {
    IncreasingAppend(t.schools, SchoolKey, t.nextId, s);
    IncreasingAppend(t.schools, SchoolStamp, t.clock, s);
    RefersAppendRow(t.schools, SchoolOwner, t.users, UserKey, s);
    RefersAppendTarget(t.classes, ClassSchool, t.schools, SchoolKey, s);
  }

  lemma {:induction false} ClassAddedConsistent(t: Tables, c: Class)
    requires Consistent(t) && c.id == t.nextId
    requires IndexOf(t.schools, SchoolKey, c.schoolId).Some?
    requires IndexOf(t.classes, IdentityOf, IdentityOf(c)).None?
    ensures Consistent(t.(classes := t.classes + [c], nextId := t.nextId + 1))
  {
    IncreasingAppend(t.classes, ClassKey, t.nextId, c);
    var r := t.classes + [c];
    forall i, j | 0 <= i < j < |r| ensures IdentityOf(r[i]) != IdentityOf(r[j]) {
      assert r[i] == t.classes[i];
      if j < |t.classes| { assert r[j] == t.classes[j]; }
    }
    RefersAppendRow(t.classes, ClassSchool, t.schools, SchoolKey, c);
    RefersAppendTarget(t.students, StudentClass, t.classes, ClassKey, c);
    RefersAppendTarget(t.sessions, SessionClass, t.classes, ClassKey, c);
  }

  lemma {:induction false} StudentAddedConsistent(t: Tables, s: Student)
    requires Consistent(t) && s.id == t.nextId
    requires IndexOf(t.classes, ClassKey, s.classId).Some?
    ensures Consistent(t.(students := t.students + [s], nextId := t.nextId + 1))
  {
    IncreasingAppend(t.students, StudentKey, t.nextId, s);
    RefersAppendRow(t.students, StudentClass, t.classes, ClassKey, s);
  }

  lemma {:induction false} SessionAddedConsistent(t: Tables, s: Session)
    requires Consistent(t) && s.id == t.nextId && s.createdAt == t.clock
    requires IndexOf(t.classes, ClassKey, s.classId).Some?
    requires IndexOf(t.users, UserKey, s.photographerId).Some?
    ensures Consistent(t.(sessions := t.sessions + [s], nextId := t.nextId + 1, clock := t.clock + 1))
  {
    IncreasingAppend(t.sessions, SessionKey, t.nextId, s);
    IncreasingAppend(t.sessions, SessionStamp, t.clock, s);
    RefersAppendRow(t.sessions, SessionClass, t.classes, ClassKey, s);
    RefersAppendRow(t.sessions, SessionOwner, t.users, UserKey, s);
  }

  /** The school exists and belongs to `uid`. */
  predicate SchoolOwnedBy(t: Tables, schoolId: Id, uid: UserId) {
    match Lookup(t.schools, SchoolKey, schoolId)
    case None => false
    case Some(s) => s.photographerId == uid
  }

  /** The class exists and its school belongs to `uid`. */
  predicate ClassOwnedBy(t: Tables, classId: Id, uid: UserId) {
    match Lookup(t.classes, ClassKey, classId)
    case None => false
    case Some(c) => SchoolOwnedBy(t, c.schoolId, uid)
  }

  /** Whoever owns a school is a user of the database. */
  lemma {:induction false} OwnerIsUser(t: Tables, schoolId: Id, uid: UserId)
    requires Consistent(t) && SchoolOwnedBy(t, schoolId, uid)
    ensures IndexOf(t.users, UserKey, uid).Some?
  {
    var i := IndexOf(t.schools, SchoolKey, schoolId).value;
    assert SchoolOwner(t.schools[i]) == uid;
    HasKeyIsIndexOf(t.users, UserKey, uid);
  }

  class Store {
    var users: seq<User>
    var schools: seq<School>
    var classes: seq<Class>
    var students: seq<Student>
    var sessions: seq<Session>
    /** Every id handed out so far is below `nextId`. */
    var nextId: Id
    /** Every `createdAt` stamped so far is below `clock`. */
    var clock: nat

    function Snapshot(): Tables
      reads this
    {
      Tables(users, schools, classes, students, sessions, nextId, clock)
    }

    ghost predicate Valid()
      reads this
    {
      Consistent(Snapshot())
    }

    /** An empty database. */
    constructor()
      ensures Valid()
      ensures Snapshot() == Tables([], [], [], [], [], 0, 0)
    {
      users, schools, classes, students, sessions := [], [], [], [], [];
      nextId, clock := 0, 0;
    }

    /** Creates or refreshes the user row with this id. */
    method UpsertUser(id: UserId, email: string, name: string)
      requires Valid()
      modifies this
      ensures Valid()
      ensures Snapshot() == old(Snapshot()).(users := Upsert(old(users), id, email, name))
    {
      var t := Snapshot();
      UpsertConsistent(t, id, email, name);
      users := Upsert(users, id, email, name);
      assert Snapshot() == t.(users := Upsert(t.users, id, email, name));
    }

    /** Appends a school owned by an existing user. */
    method CreateSchool(fields: SchoolFields, owner: UserId) returns (s: School)
      requires Valid() && IndexOf(users, UserKey, owner).Some?
      modifies this
      ensures Valid()
      ensures s == School(old(nextId), fields, owner, old(clock))
      ensures Snapshot() == old(Snapshot()).(schools := old(schools) + [s], nextId := old(nextId) + 1,
                                               clock := old(clock) + 1)
    {
      s := School(nextId, fields, owner, clock);
      var t := Snapshot();
      SchoolAddedConsistent(t, s);
      schools, nextId, clock := schools + [s], nextId + 1, clock + 1;
      assert Snapshot() == t.(schools := t.schools + [s], nextId := t.nextId + 1, clock := t.clock + 1);
    }

    /** Appends a class of an existing school; no class may already have its
        (school, grade, section, year). */
    method CreateClass(name: string, grade: string, section: string, year: int, schoolId: Id)
      returns (c: Class)
      requires Valid() && IndexOf(schools, SchoolKey, schoolId).Some?
      requires IndexOf(classes, IdentityOf, ClassIdentity(schoolId, grade, section, year)).None?
      modifies this
      ensures Valid()
      ensures c == Class(old(nextId), name, grade, section, year, schoolId)
      ensures Snapshot() == old(Snapshot()).(classes := old(classes) + [c], nextId := old(nextId) + 1)
    {
      c := Class(nextId, name, grade, section, year, schoolId);
      var t := Snapshot();
      ClassAddedConsistent(t, c);
      classes, nextId := classes + [c], nextId + 1;
      assert Snapshot() == t.(classes := t.classes + [c], nextId := t.nextId + 1);
    }

    /** Appends a student of an existing class, with no registration number. */
    method CreateStudent(name: string, sortName: string, classId: Id) returns (s: Student)
      requires Valid() && IndexOf(classes, ClassKey, classId).Some?
      modifies this
      ensures Valid()
      ensures s == Student(old(nextId), name, sortName, None, classId)
      ensures Snapshot() == old(Snapshot()).(students := old(students) + [s], nextId := old(nextId) + 1)
    {
      s := Student(nextId, name, sortName, None, classId);
      var t := Snapshot();
      StudentAddedConsistent(t, s);
      students, nextId := students + [s], nextId + 1;
      assert Snapshot() == t.(students := t.students + [s], nextId := t.nextId + 1);
    }

    /** Appends a session in progress on an existing class by an existing user, with
        every student still pending. */
    method CreateSession(
      classId: Id, photographerId: UserId, photoPrefix: string, startNumber: int,
      sortOrder: string, total: nat)
      returns (s: Session)
      requires Valid() && IndexOf(classes, ClassKey, classId).Some?
      requires IndexOf(users, UserKey, photographerId).Some?
      modifies this
      ensures Valid()
      ensures s == Session(old(nextId), classId, photographerId, photoPrefix, startNumber,
                           sortOrder, total, total, IN_PROGRESS, old(clock))
      ensures Snapshot() == old(Snapshot()).(sessions := old(sessions) + [s], nextId := old(nextId) + 1,
                                               clock := old(clock) + 1)
    {
      s := Session(nextId, classId, photographerId, photoPrefix, startNumber,
                   sortOrder, total, total, IN_PROGRESS, clock);
      var t := Snapshot();
      SessionAddedConsistent(t, s);
      sessions, nextId, clock := sessions + [s], nextId + 1, clock + 1;
      assert Snapshot() == t.(sessions := t.sessions + [s], nextId := t.nextId + 1, clock := t.clock + 1);
    }
  }
}
