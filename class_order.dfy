/** The order in which the class listing returns a school's classes: by grade, then
    by section, both ascending. */
module ClassOrder {
  import opened Text
  import opened Records

  /** `x` may come before `y`: a smaller grade, or the same grade and a section that is
      not larger. */
  predicate GradeSectionLe(x: Class, y: Class) {
    LexLt(x.grade, y.grade) || (x.grade == y.grade && LexLe(x.section, y.section))
  }

  lemma {:induction false} GradeSectionTotal(x: Class, y: Class)
    ensures GradeSectionLe(x, y) || GradeSectionLe(y, x)
  {
    LexLeTotal(x.grade, y.grade);
    LexLeTotal(x.section, y.section);
  }

  lemma {:induction false} GradeSectionTransitive(x: Class, y: Class, z: Class)
    requires GradeSectionLe(x, y) && GradeSectionLe(y, z)
    ensures GradeSectionLe(x, z)
  {
    if x.grade == y.grade == z.grade {
      LexLeTransitive(x.section, y.section, z.section);
    } else {
      LexLeReflexive(y.grade);
      LexLeTransitive(x.grade, y.grade, z.grade);
      if x.grade == z.grade {
        LexLeAntisymmetric(x.grade, y.grade);
      }
    }
  }

  ghost predicate SortedByGradeSection(cs: seq<Class>) {
    forall i, j :: 0 <= i < j < |cs| ==> GradeSectionLe(cs[i], cs[j])
  }

  /** Places `c` before the first class it may precede. */
  function Insert(c: Class, sorted: seq<Class>): seq<Class> {
    if sorted == [] then [c]
    else if GradeSectionLe(c, sorted[0]) then [c] + sorted
    else [sorted[0]] + Insert(c, sorted[1..])
  }

  /** The classes in grade-then-section order; classes that tie keep their table order. */
  function SortByGradeSection(cs: seq<Class>): seq<Class> {
    if cs == [] then [] else Insert(cs[0], SortByGradeSection(cs[1..]))
  }

  lemma {:induction false} ConsSorted(x: Class, s: seq<Class>)
    requires SortedByGradeSection(s)
    requires forall y :: y in s ==> GradeSectionLe(x, y)
    ensures SortedByGradeSection([x] + s)
  {
    var r := [x] + s;
    forall i, j | 0 <= i < j < |r| ensures GradeSectionLe(r[i], r[j]) {
      assert r[j] == s[j - 1];
      if i > 0 { assert r[i] == s[i - 1]; }
    }
  }

  lemma {:induction false} InsertCorrect(c: Class, sorted: seq<Class>)
    requires SortedByGradeSection(sorted)
    ensures multiset(Insert(c, sorted)) == multiset(sorted) + multiset{c}
    ensures SortedByGradeSection(Insert(c, sorted))
  {
    if sorted == [] {
    } else if GradeSectionLe(c, sorted[0]) {
      forall y | y in sorted ensures GradeSectionLe(c, y) {
        var j :| 0 <= j < |sorted| && sorted[j] == y;
        if j > 0 { GradeSectionTransitive(c, sorted[0], y); }
      }
      ConsSorted(c, sorted);
    } else {
      var head, rest := sorted[0], sorted[1..];
      assert sorted == [head] + rest;
      assert SortedByGradeSection(rest) by {
        forall i, j | 0 <= i < j < |rest| ensures GradeSectionLe(rest[i], rest[j]) {
          assert rest[i] == sorted[i + 1] && rest[j] == sorted[j + 1];
        }
      }
      InsertCorrect(c, rest);
      GradeSectionTotal(c, head);
      var inserted := Insert(c, rest);
      forall y | y in inserted ensures GradeSectionLe(head, y) {
        assert y in multiset(inserted);
        if y != c {
          var j :| 0 <= j < |rest| && rest[j] == y;
          assert sorted[j + 1] == y;
        }
      }
      ConsSorted(head, inserted);
    }
  }

  /** The listing order is a rearrangement of the classes that is ordered by grade,
      then section. */
  lemma {:induction false} SortByGradeSectionCorrect(cs: seq<Class>)
    ensures multiset(SortByGradeSection(cs)) == multiset(cs)
    ensures SortedByGradeSection(SortByGradeSection(cs))
  {
    if cs != [] {
      SortByGradeSectionCorrect(cs[1..]);
      InsertCorrect(cs[0], SortByGradeSection(cs[1..]));
      assert cs == [cs[0]] + cs[1..];
    }
  }
}
