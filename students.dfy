/** One row of the student table: the columns the dashboard filters, ranks or derives from. */
module Students {

  datatype Student = Student(
    school: string,
    sex: string,
    age: int,
    studytime: int,
    failures: int,
    absences: int,
    g1: int,
    g2: int,
    g3: int)

  /** The value of the derived column "melhoria" for one row: final grade minus first grade. */
  function Improvement(s: Student): int {
    s.g3 - s.g1
  }

  function SchoolColumn(rows: seq<Student>): (c: seq<string>)
    ensures |c| == |rows|
  {
    seq(|rows|, i requires 0 <= i < |rows| => rows[i].school)
  }

  function SexColumn(rows: seq<Student>): (c: seq<string>)
    ensures |c| == |rows|
  {
    seq(|rows|, i requires 0 <= i < |rows| => rows[i].sex)
  }

  function G1Column(rows: seq<Student>): (c: seq<int>)
    ensures |c| == |rows|
  {
    seq(|rows|, i requires 0 <= i < |rows| => rows[i].g1)
  }

  function G3Column(rows: seq<Student>): (c: seq<int>)
    ensures |c| == |rows|
  {
    seq(|rows|, i requires 0 <= i < |rows| => rows[i].g3)
  }

  /** Element-wise difference of two aligned integer columns (pandas Series subtraction). */
  function Minus(a: seq<int>, b: seq<int>): (c: seq<int>)
    requires |a| == |b|
    ensures |c| == |a|
  {
    seq(|a|, i requires 0 <= i < |a| => a[i] - b[i])
  }
}
