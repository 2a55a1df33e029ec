/** `/api/schools`: a photographer lists their schools, newest first, and registers a
    new one. Registering first records the caller as a user of the database. */
module SchoolsRoute {
  import opened Text
  import opened Records
  import opened Database

  /** The name a photographer gets when the identity provider knows neither a first
      nor a last name. */
  const FALLBACK_NAME := "Fotógrafo"

  /** First and last name, each "" when absent, joined by one space and trimmed; the
      fallback name when that leaves nothing. */
  function DisplayName(p: Profile): (r: string)
    ensures r != [] && Trimmed(r)
  {
    var joined := p.firstName.GetOr("") + " " + p.lastName.GetOr("");
    TrimShape(joined);
    if Trim(joined) == [] then FALLBACK_NAME else Trim(joined)
  }

  /** The first of the caller's email addresses, or "" when there is none. */
  function PrimaryEmail(p: Profile): string {
    if p.emailAddresses == [] then "" else p.emailAddresses[0]
  }

  /** Without any name (absent or blank) the photographer is the fallback name. */
  lemma {:induction false} DisplayNameFallback(p: Profile)
    requires AllWhitespace(p.firstName.GetOr("")) && AllWhitespace(p.lastName.GetOr(""))
    ensures DisplayName(p) == FALLBACK_NAME
  {
    var first, last := p.firstName.GetOr(""), p.lastName.GetOr("");
    AllWhitespaceConcat(first, " ");
    AllWhitespaceConcat(first + " ", last);
    TrimOfBlank(first + " " + last);
  }

  /** Trimmed first and last names give "First Last". */
  lemma {:induction false} DisplayNameOfFullName(p: Profile, first: string, last: string)
    requires p.firstName == Some(first) && p.lastName == Some(last)
    requires first != [] && last != [] && Trimmed(first) && Trimmed(last)
    ensures DisplayName(p) == first + " " + last
  {
    var joined := first + " " + last;
    assert joined[0] == first[0] && joined[|joined| - 1] == last[|last| - 1];
    TrimOfTrimmed(joined);
  }

  /** A trimmed first name alone is the whole name: the space before the missing last
      name is trimmed away. */
  lemma {:induction false} DisplayNameOfFirstName(p: Profile, first: string)
    requires p.firstName == Some(first) && p.lastName.None?
    requires first != [] && Trimmed(first)
    ensures DisplayName(p) == first
  {
    assert first + " " + "" == [] + first + " ";
    TrimPadding([], first, " ");
    TrimOfTrimmed(first);
  }

  /** The listing keeps the schools of `uid`. */
  function OwnedBy(uid: UserId): School -> bool {
    (s: School) => s.photographerId == uid
  }

  /** GET: the caller's schools, newest first. */
  function GetSchools(t: Tables, caller: Option<Profile>): (r: Reply<seq<School>>)
    ensures caller.None? ==> r == Unauthorized()
    ensures caller.Some? ==> r.Ok? && r.status == OK
    ensures caller.Some? ==>
              forall s :: s in r.value <==> s in t.schools && s.photographerId == caller.value.id
  {
    match caller
    case None => Unauthorized()
    case Some(p) => Ok(OK, NewestFirst(t.schools, OwnedBy(p.id)))
  }

  /** In a consistent database the listing runs from the newest school to the oldest. */
  lemma {:induction false} GetSchoolsNewestFirst(t: Tables, caller: Option<Profile>)
    requires Consistent(t) && caller.Some?
    ensures Decreasing(GetSchools(t, caller).value, SchoolStamp)
  {
    NewestFirstIsDescending(t.schools, OwnedBy(caller.value.id), SchoolStamp);
  }

  /** POST: records the caller as a user (refreshing email and name when already
      known), then creates the school with the submitted fields, owned by the caller.
      The new school heads the caller's listing from then on. */
  method PostSchool(db: Store, caller: Option<Profile>, fields: SchoolFields) returns (r: Reply<School>)
    requires db.Valid()
    modifies db
    ensures db.Valid()
    ensures caller.None? ==> r == Unauthorized() && db.Snapshot() == old(db.Snapshot())
    ensures caller.Some? ==>
              var p, t := caller.value, old(db.Snapshot());
              r == Ok(CREATED, School(t.nextId, fields, p.id, t.clock))
              && db.Snapshot() == t.(users := Upsert(t.users, p.id, PrimaryEmail(p), DisplayName(p)),
                                     schools := t.schools + [r.value],
                                     nextId := t.nextId + 1, clock := t.clock + 1)
    ensures caller.Some? ==>
              GetSchools(db.Snapshot(), caller) == Ok(OK, [r.value] + GetSchools(old(db.Snapshot()), caller).value)
  {
    if caller.None? {
      return Unauthorized();
    }
    var p := caller.value;
    db.UpsertUser(p.id, PrimaryEmail(p), DisplayName(p));
    var school := db.CreateSchool(fields, p.id);
    NewestFirstAppend(old(db.schools), OwnedBy(p.id), school);
    r := Ok(CREATED, school);
  }
}
