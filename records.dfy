/** The rows of the store (users, schools, classes, students, photo sessions), the
    replies the route handlers send, and the table queries they share: lookup by key
    and "newest first" listing. */
module Records {

  datatype Option<+T> = None | Some(value: T) {
    function GetOr(default: T): T {
      match this
      case Some(v) => v
      case None => default
    }
  }

  /** Identities come from the external identity provider. */
  type UserId = string

  /** Row ids are generated by the store. */
  type Id = nat

  /** The authenticated caller as the identity provider describes it. */
  datatype Profile = Profile(
    id: UserId,
    firstName: Option<string>,
    lastName: Option<string>,
    emailAddresses: seq<string>)

  datatype User = User(id: UserId, email: string, name: string, passwordHash: string, role: string)

  /** The fields of a school that its creation request supplies. The name is required;
      an absent optional field is None. */
  datatype SchoolFields = SchoolFields(
    name: string, cnpj: Option<string>, phone: Option<string>, email: Option<string>,
    street: Option<string>, number: Option<string>, complement: Option<string>,
    neighborhood: Option<string>, city: Option<string>, state: Option<string>,
    zipCode: Option<string>)

  datatype School = School(id: Id, fields: SchoolFields, photographerId: UserId, createdAt: nat)

  datatype Class = Class(id: Id, name: string, grade: string, section: string, year: int, schoolId: Id)

  /** The identity of a class: no two classes share it. */
  datatype ClassIdentity = ClassIdentity(schoolId: Id, grade: string, section: string, year: int)

  datatype Student = Student(
    id: Id, name: string, sortName: string, registrationNumber: Option<string>, classId: Id)

  datatype Session = Session(
    id: Id, classId: Id, photographerId: UserId, photoPrefix: string, startNumber: int,
    sortOrder: string, totalStudents: nat, pending: nat, status: string, createdAt: nat)

  const PHOTOGRAPHER := "PHOTOGRAPHER"
  const IN_PROGRESS := "IN_PROGRESS"
  const ALPHABETICAL := "ALPHABETICAL"
  const REGISTRATION_NUMBER := "REGISTRATION_NUMBER"

  // HTTP status codes the handlers answer with.
  const OK := 200
  const CREATED := 201
  const BAD_REQUEST := 400
  const UNAUTHORIZED := 401
  const NOT_FOUND := 404
  const CONFLICT := 409

  /** A handler's answer: a status code with either a payload or an error message. */
  datatype Reply<+T> = Ok(status: int, value: T) | Fail(status: int, error: string)

  function Unauthorized<T>(): Reply<T> {
    Fail(UNAUTHORIZED, "Unauthorized")
  }

  // Keys by which rows are looked up.
  function UserKey(u: User): UserId { u.id }
  function SchoolKey(s: School): Id { s.id }
  function ClassKey(c: Class): Id { c.id }
  function IdentityOf(c: Class): ClassIdentity { ClassIdentity(c.schoolId, c.grade, c.section, c.year) }
  function StudentKey(s: Student): Id { s.id }
  function SessionKey(s: Session): Id { s.id }
  function SchoolStamp(s: School): nat { s.createdAt }
  function SessionStamp(s: Session): nat { s.createdAt }

  // References from a row to the row it belongs to.
  function SchoolOwner(s: School): UserId { s.photographerId }
  function ClassSchool(c: Class): Id { c.schoolId }
  function StudentClass(s: Student): Id { s.classId }
  function SessionClass(s: Session): Id { s.classId }
  function SessionOwner(s: Session): UserId { s.photographerId }

  /** The position of the first row whose key is `k`, if any. */
  function IndexOf<T, K(==)>(rows: seq<T>, key: T -> K, k: K): (r: Option<nat>)
    ensures r.None? <==> forall i :: 0 <= i < |rows| ==> key(rows[i]) != k
    ensures r.Some? ==> r.value < |rows| && key(rows[r.value]) == k
    ensures r.Some? ==> forall i :: 0 <= i < r.value ==> key(rows[i]) != k
  {
    if rows == [] then None
    else if key(rows[0]) == k then Some(0)
    else
      match IndexOf(rows[1..], key, k)
      case None => None
      case Some(i) => Some(i + 1)
  }

  /** The row whose key is `k`, if any (`findUnique`). */
  function Lookup<T, K(==)>(rows: seq<T>, key: T -> K, k: K): (r: Option<T>)
    ensures r.Some? ==> r.value in rows && key(r.value) == k
    ensures r.None? ==> forall i :: 0 <= i < |rows| ==> key(rows[i]) != k
  {
    match IndexOf(rows, key, k)
    case None => None
    case Some(i) => Some(rows[i])
  }

  /** Keys strictly increase along the table. */
  ghost predicate Increasing<T>(rows: seq<T>, key: T -> nat) {
    forall i, j :: 0 <= i < j < |rows| ==> key(rows[i]) < key(rows[j])
  }

  ghost predicate Decreasing<T>(rows: seq<T>, key: T -> nat) {
    forall i, j :: 0 <= i < j < |rows| ==> key(rows[i]) > key(rows[j])
  }

  ghost predicate AllBelow<T>(rows: seq<T>, key: T -> nat, bound: nat) {
    forall i :: 0 <= i < |rows| ==> key(rows[i]) < bound
  }

  /** No two rows share a key. */
  ghost predicate UniqueKeys<T, K>(rows: seq<T>, key: T -> K) {
    forall i, j :: 0 <= i < j < |rows| ==> key(rows[i]) != key(rows[j])
  }

  /** In a table whose keys are unique, a row of the table is what lookup by its key finds. */
  lemma {:induction false} LookupOfUnique<T, K>(rows: seq<T>, key: T -> K, i: nat)
    requires UniqueKeys(rows, key) && i < |rows|
    ensures IndexOf(rows, key, key(rows[i])) == Some(i)
  {
  }

  /** Appending a row does not change what lookup finds for a key already present, and
      finds the new row for its own key when that key was absent. */
  lemma {:induction false} LookupAfterAppend<T, K>(rows: seq<T>, key: T -> K, x: T, k: K)
    ensures IndexOf(rows + [x], key, k) ==
              if IndexOf(rows, key, k).Some? then IndexOf(rows, key, k)
              else if key(x) == k then Some(|rows|) else None
  {
    var old_ := IndexOf(rows, key, k);
    var new_ := IndexOf(rows + [x], key, k);
    if old_.Some? {
      assert (rows + [x])[old_.value] == rows[old_.value];
    } else {
      if key(x) == k {
        assert (rows + [x])[|rows|] == x;
      }
    }
  }

  /** The rows that satisfy `keep`, last row first: a table listed newest first when
      rows are appended in creation order. */
  function NewestFirst<T(!new)>(rows: seq<T>, keep: T -> bool): (r: seq<T>)
    ensures forall x :: x in r <==> x in rows && keep(x)
    ensures |r| <= |rows|
  {
    if rows == [] then []
    else
      var last := rows[|rows| - 1];
      (if keep(last) then [last] else []) + NewestFirst(rows[..|rows| - 1], keep)
  }

  lemma {:induction false} IncreasingPrefix<T>(rows: seq<T>, stamp: T -> nat, n: nat)
    requires Increasing(rows, stamp) && n <= |rows|
    ensures Increasing(rows[..n], stamp)
  {
    var init := rows[..n];
    forall i, j | 0 <= i < j < |init| ensures stamp(init[i]) < stamp(init[j]) {
      assert init[i] == rows[i] && init[j] == rows[j];
    }
  }

  lemma {:induction false} ConsDecreasing<T>(x: T, tail: seq<T>, stamp: T -> nat)
    requires Decreasing(tail, stamp)
    requires forall y :: y in tail ==> stamp(y) < stamp(x)
    ensures Decreasing([x] + tail, stamp)
  {
    var r := [x] + tail;
    forall i, j | 0 <= i < j < |r| ensures stamp(r[i]) > stamp(r[j]) {
      assert r[j] == tail[j - 1];
      if i > 0 { assert r[i] == tail[i - 1]; }
    }
  }

  /** When creation stamps increase along the table, the listing strictly decreases
      in them: newest first. */
  lemma {:induction false} NewestFirstIsDescending<T(!new)>(rows: seq<T>, keep: T -> bool, stamp: T -> nat)
    requires Increasing(rows, stamp)
    ensures Decreasing(NewestFirst(rows, keep), stamp)
  {
    if rows != [] {
      var n := |rows| - 1;
      var init := rows[..n];
      IncreasingPrefix(rows, stamp, n);
      NewestFirstIsDescending(init, keep, stamp);
      var tail := NewestFirst(init, keep);
      if keep(rows[n]) {
        forall y | y in tail ensures stamp(y) < stamp(rows[n]) {
          var i :| 0 <= i < n && init[i] == y;
          assert rows[i] == y;
        }
        ConsDecreasing(rows[n], tail, stamp);
      } else {
        assert NewestFirst(rows, keep) == [] + tail;
      }
    }
  }

  /** Appending a row whose key is at least every key so far keeps the keys increasing,
      and every key is then below the new row's key plus one. */
  lemma {:induction false} IncreasingAppend<T>(rows: seq<T>, key: T -> nat, bound: nat, x: T)
    requires Increasing(rows, key) && AllBelow(rows, key, bound) && key(x) >= bound
    ensures Increasing(rows + [x], key) && AllBelow(rows + [x], key, key(x) + 1)
  {
    var r := rows + [x];
    forall i, j | 0 <= i < j < |r| ensures key(r[i]) < key(r[j]) {
      assert r[i] == rows[i];
      if j < |rows| { assert r[j] == rows[j]; }
    }
    forall i | 0 <= i < |r| ensures key(r[i]) < key(x) + 1 {
      if i < |rows| { assert r[i] == rows[i]; }
    }
  }

  /** Lookup depends on the keys only: two tables with the same keys in the same
      places find a key at the same position. */
  lemma {:induction false} IndexOfSameKeys<T, K>(a: seq<T>, b: seq<T>, key: T -> K, k: K)
    requires |a| == |b| && forall i :: 0 <= i < |a| ==> key(a[i]) == key(b[i])
    ensures IndexOf(a, key, k) == IndexOf(b, key, k)
  {
    if a != [] {
      IndexOfSameKeys(a[1..], b[1..], key, k);
    }
  }

  /** Some row of `rows` has key `k`. */
  predicate HasKey<T, K(==)>(rows: seq<T>, key: T -> K, k: K) {
    rows != [] && (key(rows[0]) == k || HasKey(rows[1..], key, k))
  }

  lemma {:induction false} HasKeyIsIndexOf<T, K>(rows: seq<T>, key: T -> K, k: K)
    ensures HasKey(rows, key, k) <==> IndexOf(rows, key, k).Some?
  {
    if rows != [] {
      HasKeyIsIndexOf(rows[1..], key, k);
    }
  }

  /** Every row refers to a row of `targets`, as a foreign key does. */
  ghost predicate Refers<T, U, K>(rows: seq<T>, ref: T -> K, targets: seq<U>, key: U -> K) {
    forall i :: 0 <= i < |rows| ==> HasKey(targets, key, ref(rows[i]))
  }

  lemma {:induction false} RefersAppendTarget<T, U, K>(
    rows: seq<T>, ref: T -> K, targets: seq<U>, key: U -> K, y: U)
    requires Refers(rows, ref, targets, key)
    ensures Refers(rows, ref, targets + [y], key)
  {
    forall i | 0 <= i < |rows| ensures HasKey(targets + [y], key, ref(rows[i])) {
      HasKeyIsIndexOf(targets, key, ref(rows[i]));
      HasKeyIsIndexOf(targets + [y], key, ref(rows[i]));
      LookupAfterAppend(targets, key, y, ref(rows[i]));
    }
  }

  lemma {:induction false} RefersAppendRow<T, U, K>(
    rows: seq<T>, ref: T -> K, targets: seq<U>, key: U -> K, x: T)
    requires Refers(rows, ref, targets, key) && IndexOf(targets, key, ref(x)).Some?
    ensures Refers(rows + [x], ref, targets, key)
  {
    HasKeyIsIndexOf(targets, key, ref(x));
    var r := rows + [x];
    forall i | 0 <= i < |r| ensures HasKey(targets, key, ref(r[i])) {
      if i < |rows| { assert r[i] == rows[i]; }
    }
  }

  lemma {:induction false} RefersSameKeys<T, U, K>(
    rows: seq<T>, ref: T -> K, targets: seq<U>, targets': seq<U>, key: U -> K)
    requires Refers(rows, ref, targets, key)
    requires |targets| == |targets'| && forall i :: 0 <= i < |targets| ==> key(targets[i]) == key(targets'[i])
    ensures Refers(rows, ref, targets', key)
  {
    forall i | 0 <= i < |rows| ensures HasKey(targets', key, ref(rows[i])) {
      HasKeyIsIndexOf(targets, key, ref(rows[i]));
      HasKeyIsIndexOf(targets', key, ref(rows[i]));
      IndexOfSameKeys(targets, targets', key, ref(rows[i]));
    }
  }

  /** The rows that satisfy `keep`, in table order (`findMany` with a `where`). */
  function Where<T(!new)>(rows: seq<T>, keep: T -> bool): (r: seq<T>)
    ensures forall x :: x in r <==> x in rows && keep(x)
    ensures |r| <= |rows|
  {
    if rows == [] then []
    else (if keep(rows[0]) then [rows[0]] else []) + Where(rows[1..], keep)
  }

  /** A row appended to the table is listed first when it is kept, ahead of the
      listing as it was. */
  lemma {:induction false} NewestFirstAppend<T(!new)>(rows: seq<T>, keep: T -> bool, x: T)
    ensures NewestFirst(rows + [x], keep) == (if keep(x) then [x] else []) + NewestFirst(rows, keep)
  {
    assert (rows + [x])[..|rows|] == rows;
  }
}
