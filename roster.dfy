/** The order in which a new photo session walks a class roster: by registration
    number, or by sort key ("Last, First"). The session route sorts the class's
    student array in place. */
module Roster {
  import opened Text
  import opened Records

  /** The string two students are compared by: the registration number, with a
      missing one counting as "", or the sort key. */
  function RosterKey(s: Student, byRegistration: bool): string {
    if byRegistration then s.registrationNumber.GetOr("") else s.sortName
  }

  predicate RosterLe(x: Student, y: Student, byRegistration: bool) {
    LexLe(RosterKey(x, byRegistration), RosterKey(y, byRegistration))
  }

  ghost predicate RosterSorted(s: seq<Student>, byRegistration: bool) {
    forall i, j :: 0 <= i < j < |s| ==> RosterLe(s[i], s[j], byRegistration)
  }

  /** The first `n` entries are in order. */
  ghost predicate SortedPrefix(s: seq<Student>, n: int, byRegistration: bool)
    requires n <= |s|
  {
    forall k, l :: 0 <= k < l < n ==> RosterLe(s[k], s[l], byRegistration)
  }

  /** While entry `j` sinks towards its place among the first `i + 1`: the others are
      in order, and entry `j` is no larger than any entry after it up to `i`. */
  ghost predicate Sinking(s: seq<Student>, i: int, j: int, byRegistration: bool)
    requires 0 <= j <= i < |s|
  {
    (forall k, l :: 0 <= k < l <= i && k != j && l != j ==> RosterLe(s[k], s[l], byRegistration))
    && (forall l :: j < l <= i ==> RosterLe(s[j], s[l], byRegistration))
  }

  lemma {:induction false} SinkingStarts(s: seq<Student>, i: int, byRegistration: bool)
    requires 0 <= i < |s| && SortedPrefix(s, i, byRegistration)
    ensures Sinking(s, i, i, byRegistration)
  {
  }

  /** Swapping a sinking entry with a larger left neighbour keeps it sinking, one place
      further left. */
  lemma {:induction false} SinkingStep(s: seq<Student>, i: int, j: int, byRegistration: bool)
    requires 0 < j <= i < |s| && Sinking(s, i, j, byRegistration)
    requires !RosterLe(s[j - 1], s[j], byRegistration)
    ensures Sinking(s[j - 1 := s[j]][j := s[j - 1]], i, j - 1, byRegistration)
  {
    LexLeTotal(RosterKey(s[j - 1], byRegistration), RosterKey(s[j], byRegistration));
  }

  /** A sinking entry that has reached the front, or a neighbour no larger than itself,
      leaves the first `i + 1` entries in order. */
  lemma {:induction false} SinkingDone(s: seq<Student>, i: int, j: int, byRegistration: bool)
    requires 0 <= j <= i < |s| && Sinking(s, i, j, byRegistration)
    requires j == 0 || RosterLe(s[j - 1], s[j], byRegistration)
    ensures SortedPrefix(s, i + 1, byRegistration)
  {
    forall k | 0 <= k < j - 1
      ensures RosterLe(s[k], s[j], byRegistration)
    {
      LexLeTransitive(RosterKey(s[k], byRegistration), RosterKey(s[j - 1], byRegistration),
                      RosterKey(s[j], byRegistration));
    }
  }

  /** Sorts the roster in place (an insertion sort): afterwards it is ordered by the
      chosen key and holds the same students as before. */
  method SortRoster(a: array<Student>, byRegistration: bool)
    modifies a
    ensures RosterSorted(a[..], byRegistration)
    ensures multiset(a[..]) == multiset(old(a[..]))
  {
    var i := 0;
    while i < a.Length
      invariant 0 <= i <= a.Length
      invariant SortedPrefix(a[..], i, byRegistration)
      invariant multiset(a[..]) == multiset(old(a[..]))
    {
      SinkingStarts(a[..], i, byRegistration);
      var j := i;
      while j > 0 && !RosterLe(a[j - 1], a[j], byRegistration)
        invariant 0 <= j <= i
        invariant Sinking(a[..], i, j, byRegistration)
        invariant multiset(a[..]) == multiset(old(a[..]))
      {
        SinkingStep(a[..], i, j, byRegistration);
        a[j - 1], a[j] := a[j], a[j - 1];
        j := j - 1;
      }
      SinkingDone(a[..], i, j, byRegistration);
      i := i + 1;
    }
  }
}
