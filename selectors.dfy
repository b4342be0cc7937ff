/**
 * The option lists of the two sidebar selectors: the wildcard entry first, then every value
 * that occurs in the column, once each, in the order in which the values first occur
 * (pandas `Series.unique`).
 */
module Selectors {
  import opened Students
  import opened Filters

  predicate NoDuplicates(s: seq<string>) {
    forall i, j :: 0 <= i < j < |s| ==> s[i] != s[j]
  }

  /** The position of the first occurrence of x in xs. */
  function FirstIndex(xs: seq<string>, x: string): (k: nat)
    requires x in xs
    ensures k < |xs| && xs[k] == x && x !in xs[..k]
  {
    if xs[0] == x then 0 else 1 + FirstIndex(xs[1..], x)
  }

  /**
   * The distinct values of xs in order of first appearance: a value is appended when the scan
   * reaches its first occurrence.
   */
  function Unique(xs: seq<string>): (u: seq<string>)
    ensures forall x :: x in u <==> x in xs
    ensures NoDuplicates(u)
    decreases |xs|
  {
    if xs == [] then []
    else
      var prefix := Unique(xs[..|xs| - 1]);
      var last := xs[|xs| - 1];
      assert forall x :: x in xs <==> x in xs[..|xs| - 1] || x == last;
      if last in prefix then prefix else prefix + [last]
  }

  /** Appending a value does not move the first occurrence of a value already present. */
  lemma FirstIndexAppend(xs: seq<string>, y: string, x: string)
    requires x in xs
    ensures FirstIndex(xs + [y], x) == FirstIndex(xs, x)
  {
    var k := FirstIndex(xs, x);
    var j := FirstIndex(xs + [y], x);
    assert (xs + [y])[..k] == xs[..k];
    assert (xs + [y])[k] == x;
  }

  /** The distinct values appear in the same order as their first occurrences in the column. */
  lemma {:induction false} UniqueInFirstAppearanceOrder(xs: seq<string>)
    ensures forall i, j :: 0 <= i < j < |Unique(xs)| ==>
              FirstIndex(xs, Unique(xs)[i]) < FirstIndex(xs, Unique(xs)[j])
  {
    if xs != [] {
      var init := xs[..|xs| - 1];
      var last := xs[|xs| - 1];
      assert xs == init + [last];
      UniqueInFirstAppearanceOrder(init);
      var u := Unique(xs);
      var p := Unique(init);
      forall x | x in p
        ensures FirstIndex(xs, x) == FirstIndex(init, x) < |init|
      {
        FirstIndexAppend(init, last, x);
      }
      if last !in p {
        assert last !in init;
        assert FirstIndex(xs, last) == |init|;
        forall i, j | 0 <= i < j < |u|
          ensures FirstIndex(xs, u[i]) < FirstIndex(xs, u[j])
        {
          assert u[i] == p[i] && u[i] in p;
          if j < |p| {
            assert u[j] == p[j] && u[j] in p;
          }
        }
      } else {
        assert u == p;
        forall i, j | 0 <= i < j < |u|
          ensures FirstIndex(xs, u[i]) < FirstIndex(xs, u[j])
        {
          assert u[i] in p && u[j] in p;
        }
      }
    }
  }

  /** Line 32: "Todas" followed by the distinct schools of the table. */
  function SchoolOptions(df: seq<Student>): (options: seq<string>)
    ensures |options| >= 1 && options[0] == ALL_SCHOOLS
    ensures forall v :: v in options[1..] <==> exists s :: s in df && s.school == v
    ensures NoDuplicates(options[1..])
  {
    var column := SchoolColumn(df);
    assert forall v :: v in column <==> exists s :: s in df && s.school == v by {
      forall v | v in column ensures exists s :: s in df && s.school == v {
        var i :| 0 <= i < |column| && column[i] == v;
        assert df[i] in df;
      }
      forall s | s in df ensures s.school in column {
        var i :| 0 <= i < |df| && df[i] == s;
        assert column[i] == s.school;
      }
    }
    [ALL_SCHOOLS] + Unique(column)
  }

  /** Line 33: "Todos" followed by the distinct sexes of the table. */
  function SexOptions(df: seq<Student>): (options: seq<string>)
    ensures |options| >= 1 && options[0] == ALL_SEXES
    ensures forall v :: v in options[1..] <==> exists s :: s in df && s.sex == v
    ensures NoDuplicates(options[1..])
  {
    var column := SexColumn(df);
    assert forall v :: v in column <==> exists s :: s in df && s.sex == v by {
      forall v | v in column ensures exists s :: s in df && s.sex == v {
        var i :| 0 <= i < |column| && column[i] == v;
        assert df[i] in df;
      }
      forall s | s in df ensures s.sex in column {
        var i :| 0 <= i < |df| && df[i] == s;
        assert column[i] == s.sex;
      }
    }
    [ALL_SEXES] + Unique(column)
  }

  /** The values after the wildcard are listed in the order the table first shows them. */
  lemma OptionsInFirstAppearanceOrder(df: seq<Student>)
    ensures SchoolOptions(df)[1..] == Unique(SchoolColumn(df))
    ensures SexOptions(df)[1..] == Unique(SexColumn(df))
    ensures forall i, j :: 1 <= i < j < |SchoolOptions(df)| ==>
              FirstIndex(SchoolColumn(df), SchoolOptions(df)[i]) < FirstIndex(SchoolColumn(df), SchoolOptions(df)[j])
    ensures forall i, j :: 1 <= i < j < |SexOptions(df)| ==>
              FirstIndex(SexColumn(df), SexOptions(df)[i]) < FirstIndex(SexColumn(df), SexOptions(df)[j])
  {
    UniqueInFirstAppearanceOrder(SchoolColumn(df));
    UniqueInFirstAppearanceOrder(SexColumn(df));
    var so := SchoolOptions(df);
    assert forall i :: 1 <= i < |so| ==> so[i] == Unique(SchoolColumn(df))[i - 1];
    var xo := SexOptions(df);
    assert forall i :: 1 <= i < |xo| ==> xo[i] == Unique(SexColumn(df))[i - 1];
  }
}
