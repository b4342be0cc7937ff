/**
 * The sidebar filter of the dashboard: a school selector and a sex selector, each with a
 * wildcard entry, and an inclusive age range from a slider bounded to 15..22. The filtered
 * table holds the rows that meet all three conditions, in their original order.
 */
module Filters {
  import opened Students

  /** The wildcard entries of the two selectors: choosing them places no constraint. */
  const ALL_SCHOOLS: string := "Todas"
  const ALL_SEXES: string := "Todos"

  /** The bounds and the default of the age slider. */
  const SLIDER_MIN: int := 15
  const SLIDER_MAX: int := 22

  /** What the user chose in the sidebar: two selector values and the slider's (low, high) pair. */
  datatype Selection = Selection(school: string, sex: string, ageLo: int, ageHi: int)

  /** The pairs the age slider can produce: both ends inside 15..22, low end not above high end. */
  predicate SliderRange(sel: Selection) {
    SLIDER_MIN <= sel.ageLo <= sel.ageHi <= SLIDER_MAX
  }

  /** The slider's initial value, the whole range. */
  const DEFAULT_AGES: (int, int) := (SLIDER_MIN, SLIDER_MAX)

  /** A row passes the filter: each selector matches or is the wildcard, and the age is within both ends. */
  predicate Admits(sel: Selection, s: Student) {
    && (sel.school == ALL_SCHOOLS || s.school == sel.school)
    && (sel.sex == ALL_SEXES || s.sex == sel.sex)
    && sel.ageLo <= s.age <= sel.ageHi
  }

  /**
   * r occurs in s in the same order, possibly with gaps (matched greedily, which loses
   * nothing: if r is a subsequence at all, matching its head to the first equal element works).
   */
  predicate IsSubsequence<T(==)>(r: seq<T>, s: seq<T>)
    decreases |s|
  {
    if r == [] then true
    else if s == [] then false
    else if r[0] == s[0] then IsSubsequence(r[1..], s[1..])
    else IsSubsequence(r, s[1..])
  }

  /**
   * Boolean-mask indexing `frame[mask]`: the rows for which `keep` holds, in their original
   * order, each kept row as often as it occurs and unchanged.
   */
  function Where(rows: seq<Student>, keep: Student -> bool): (r: seq<Student>)
    ensures |r| <= |rows|
    ensures forall x :: x in r <==> x in rows && keep(x)
  {
    if rows == [] then []
    else (if keep(rows[0]) then [rows[0]] else []) + Where(rows[1..], keep)
  }

  /** The mask keeps its rows in their original order. */
  lemma {:induction false} WhereIsSubsequence(rows: seq<Student>, keep: Student -> bool)
    ensures IsSubsequence(Where(rows, keep), rows)
  {
    if rows != [] {
      WhereIsSubsequence(rows[1..], keep);
      var r := Where(rows, keep);
      if keep(rows[0]) {
        assert r[1..] == Where(rows[1..], keep);
      } else {
        assert r == Where(rows[1..], keep);
        if r != [] {
          assert r[0] in r && r[0] != rows[0];
        }
      }
    }
  }

  /** A kept row appears as often as in the table; a dropped row does not appear at all. */
  lemma {:induction false} WhereMultiplicity(rows: seq<Student>, keep: Student -> bool)
    ensures forall x :: multiset(Where(rows, keep))[x] == if keep(x) then multiset(rows)[x] else 0
  {
    if rows != [] {
      WhereMultiplicity(rows[1..], keep);
      assert rows == [rows[0]] + rows[1..];
    }
  }

  /** The filtered table as one mask: the rows of the loaded table that the selection admits. */
  function Filtered(df: seq<Student>, sel: Selection): seq<Student> {
    Where(df, s => Admits(sel, s))
  }

  /** Masking twice is masking once with the conjunction of the two masks. */
  lemma {:induction false} WhereWhere(rows: seq<Student>, p: Student -> bool, q: Student -> bool)
    ensures Where(Where(rows, p), q) == Where(rows, s => p(s) && q(s))
  {
    if rows != [] {
      WhereWhere(rows[1..], p, q);
      var once := Where(rows, p);
      var both := s => p(s) && q(s);
      if p(rows[0]) {
        assert once[0] == rows[0] && once[1..] == Where(rows[1..], p);
        assert Where(once, q) == (if q(rows[0]) then [rows[0]] else []) + Where(Where(rows[1..], p), q);
      } else {
        assert once == Where(rows[1..], p);
      }
      assert Where(rows, both) == (if both(rows[0]) then [rows[0]] else []) + Where(rows[1..], both);
    }
  }

  /** A mask only matters through its values on the rows present. */
  lemma {:induction false} WhereAgree(rows: seq<Student>, p: Student -> bool, q: Student -> bool)
    requires forall s :: s in rows ==> p(s) == q(s)
    ensures Where(rows, p) == Where(rows, q)
  {
    if rows != [] {
      WhereAgree(rows[1..], p, q);
    }
  }

  /** A mask that holds on every row keeps the table as it is. */
  lemma {:induction false} WhereAll(rows: seq<Student>, p: Student -> bool)
    requires forall s :: s in rows ==> p(s)
    ensures Where(rows, p) == rows
  {
    if rows != [] {
      WhereAll(rows[1..], p);
    }
  }

  /** The mask keeps every row exactly when it holds on every row; otherwise the table shrinks. */
  lemma {:induction false} WhereKeepsCount(rows: seq<Student>, p: Student -> bool)
    ensures |Where(rows, p)| == |rows| <==> forall s :: s in rows ==> p(s)
  {
    if rows != [] {
      WhereKeepsCount(rows[1..], p);
      assert rows[0] in rows;
      assert forall s :: s in rows[1..] ==> s in rows;
      assert forall s :: s in rows ==> s == rows[0] || s in rows[1..];
    }
  }

  /** Two masks applied one after the other give the same table in either order. */
  lemma FilterOrderIrrelevant(rows: seq<Student>, p: Student -> bool, q: Student -> bool)
    ensures Where(Where(rows, p), q) == Where(Where(rows, q), p)
  {
    WhereWhere(rows, p, q);
    WhereWhere(rows, q, p);
    WhereAgree(rows, s => p(s) && q(s), s => q(s) && p(s));
  }

  /**
   * Lines 37-42 of the dashboard, step by step: start from a copy of the table, narrow it by
   * school unless the wildcard is chosen, then by sex unless the wildcard is chosen, then by
   * the inclusive age range. The result is the single-mask table `Filtered(df, sel)`.
   */
  method ApplyFilters(df: seq<Student>, sel: Selection) returns (filtered: seq<Student>)
    ensures filtered == Filtered(df, sel)
  {
    ghost var passed: Student -> bool := s => true;
    WhereAll(df, passed);
    filtered := df;
    if sel.school != ALL_SCHOOLS {
      var bySchool: Student -> bool := (s: Student) => s.school == sel.school;
      WhereWhere(df, passed, bySchool);
      ghost var before := passed;
      passed := s => before(s) && bySchool(s);
      filtered := Where(filtered, bySchool);
    }
    if sel.sex != ALL_SEXES {
      var bySex: Student -> bool := (s: Student) => s.sex == sel.sex;
      WhereWhere(df, passed, bySex);
      ghost var before := passed;
      passed := s => before(s) && bySex(s);
      filtered := Where(filtered, bySex);
    }
    var byAge: Student -> bool := (s: Student) => s.age >= sel.ageLo && s.age <= sel.ageHi;
    WhereWhere(df, passed, byAge);
    filtered := Where(filtered, byAge);
    WhereAgree(df, s => passed(s) && byAge(s), s => Admits(sel, s));
  }

  /**
   * The filtered table is an order-preserving subsequence of the loaded one whose rows are
   * exactly the loaded rows the selection admits, with their multiplicities.
   */
  lemma FilteredIsSubset(df: seq<Student>, sel: Selection)
    ensures IsSubsequence(Filtered(df, sel), df)
    ensures forall s :: s in Filtered(df, sel) <==> s in df && Admits(sel, s)
    ensures forall s :: Admits(sel, s) ==> multiset(Filtered(df, sel))[s] == multiset(df)[s]
  {
    WhereIsSubsequence(df, s => Admits(sel, s));
    WhereMultiplicity(df, s => Admits(sel, s));
  }

  /** With both wildcards chosen, a row is kept exactly when its age lies in the chosen range. */
  lemma WildcardsLeaveOnlyAge(df: seq<Student>, sel: Selection)
    requires sel.school == ALL_SCHOOLS && sel.sex == ALL_SEXES
    ensures Filtered(df, sel) == Where(df, (s: Student) => sel.ageLo <= s.age <= sel.ageHi)
    ensures forall s :: s in Filtered(df, sel) <==> s in df && sel.ageLo <= s.age <= sel.ageHi
  {
    WhereAgree(df, s => Admits(sel, s), (s: Student) => sel.ageLo <= s.age <= sel.ageHi);
  }

  /**
   * A chosen school or sex that is not the wildcard holds of every kept row, and every row of
   * the table that meets all three conditions is kept.
   */
  lemma KeptRowsMatchSelection(df: seq<Student>, sel: Selection)
    ensures sel.school != ALL_SCHOOLS ==> forall s :: s in Filtered(df, sel) ==> s.school == sel.school
    ensures sel.sex != ALL_SEXES ==> forall s :: s in Filtered(df, sel) ==> s.sex == sel.sex
    ensures forall s :: (s in df && s.school == sel.school && s.sex == sel.sex
                          && sel.ageLo <= s.age <= sel.ageHi) ==> s in Filtered(df, sel)
  {
  }

  /** Both ends of the age range are included: a row whose age is the low or the high end is kept. */
  lemma AgeRangeInclusive(df: seq<Student>, sel: Selection, s: Student)
    requires s in df && sel.ageLo <= sel.ageHi
    requires sel.school == ALL_SCHOOLS || s.school == sel.school
    requires sel.sex == ALL_SEXES || s.sex == sel.sex
    requires s.age == sel.ageLo || s.age == sel.ageHi
    ensures s in Filtered(df, sel)
  {
  }

  /** Whatever the slider shows, the filtered table only holds ages in 15..22, even at the default. */
  lemma SliderBoundsAges(df: seq<Student>, sel: Selection)
    requires SliderRange(sel)
    ensures forall s :: s in Filtered(df, sel) ==> SLIDER_MIN <= s.age <= SLIDER_MAX
    ensures (sel.ageLo, sel.ageHi) == DEFAULT_AGES ==>
              forall s :: s in df && (s.age < SLIDER_MIN || s.age > SLIDER_MAX) ==> s !in Filtered(df, sel)
  {
  }

  /**
   * The row count shown under the preview never exceeds the table's, and equals it exactly
   * when every loaded row is admitted.
   */
  lemma FilteredCount(df: seq<Student>, sel: Selection)
    ensures |Filtered(df, sel)| <= |df|
    ensures |Filtered(df, sel)| == |df| <==> forall s :: s in df ==> Admits(sel, s)
  {
    WhereKeepsCount(df, s => Admits(sel, s));
  }

  /** Wildcards and a range covering every age leave the table unchanged: no constraint, no change. */
  lemma NoConstraintIsIdentity(df: seq<Student>, sel: Selection)
    requires sel.school == ALL_SCHOOLS && sel.sex == ALL_SEXES
    requires forall s :: s in df ==> sel.ageLo <= s.age <= sel.ageHi
    ensures Filtered(df, sel) == df
  {
    WhereAll(df, s => Admits(sel, s));
  }
}
