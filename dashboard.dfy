/**
 * The dashboard's data path from the loaded table to the tables it shows: filter, count,
 * preview of the first rows, the derived "melhoria" column inserted into the filtered frame,
 * and the three five-row rankings.
 */
module Dashboard {
  import opened Students
  import opened Filters
  import opened Rankings

  /** Rows shown by the preview and by each ranking. */
  const PREVIEW_ROWS: nat := 5
  const RANKED_ROWS: nat := 5

  /** The name of the derived column. */
  const MELHORIA: string := "melhoria"

  /** The derived column for a table: for each row, its final grade minus its first grade. */
  function ImprovementColumn(rows: seq<Student>): (c: seq<int>)
    ensures |c| == |rows|
    ensures forall i :: 0 <= i < |rows| ==> c[i] == Improvement(rows[i])
  {
    Minus(G3Column(rows), G1Column(rows))
  }

  /**
   * A pandas DataFrame: its rows, and the integer columns assigned to it after it was built,
   * by name. Assigning a column changes the frame in place.
   */
  class Frame {
    var rows: seq<Student>
    var added: map<string, seq<int>>

    /** Every added column has one value per row. */
    ghost predicate Valid()
      reads this
    {
      forall name :: name in added ==> |added[name]| == |rows|
    }

    /** A frame holding the given rows and no added column. */
    constructor (rows: seq<Student>)
      ensures Valid() && this.rows == rows && added == map[]
    {
      this.rows := rows;
      added := map[];
    }

    /**
     * Line 156, `frame['melhoria'] = frame['G3'] - frame['G1']`: inserts (or replaces) the
     * derived column in this frame; the rows and the other added columns stay as they were.
     */
    method AddImprovement()
      requires Valid()
      modifies this
      ensures Valid() && rows == old(rows)
      ensures added == old(added)[MELHORIA := ImprovementColumn(rows)]
      ensures forall i :: 0 <= i < |rows| ==> added[MELHORIA][i] == rows[i].g3 - rows[i].g1
    {
      added := added[MELHORIA := Minus(G3Column(rows), G1Column(rows))];
    }
  }

  /** `frame.head(n)`: the first n rows, or all of them when there are fewer. */
  function Head(rows: seq<Student>, n: nat): (h: seq<Student>)
    ensures |h| == Min(n, |rows|)
    ensures h <= rows
  {
    rows[..Min(n, |rows|)]
  }

  /** The rows at the given positions, in the order of the positions. */
  function RowsAt(rows: seq<Student>, positions: seq<nat>): (r: seq<Student>)
    requires forall k :: 0 <= k < |positions| ==> positions[k] < |rows|
    ensures |r| == |positions|
    ensures forall k :: 0 <= k < |r| ==> r[k] == rows[positions[k]]
  {
    seq(|positions|, k requires 0 <= k < |positions| => rows[positions[k]])
  }

  /** The row-level table of a ranking: the rows `nlargest`/`nsmallest` returns. */
  function RankedRows(rows: seq<Student>, keys: seq<int>, dir: Direction): (r: seq<Student>)
    requires |keys| == |rows|
    ensures |r| == Min(RANKED_ROWS, |rows|)
    ensures forall k :: 0 <= k < |r| ==> r[k] in rows
  {
    RowsAt(rows, Select(keys, RANKED_ROWS, dir))
  }

  /** What the page shows for one selection. */
  datatype Report = Report(
    total: nat,                     // "Total de estudantes", line 46
    preview: seq<Student>,          // the head of the filtered table, line 47
    bestFinal: seq<Student>,        // top 5 by G3, line 153
    mostImproved: seq<Student>,     // top 5 by melhoria, line 158
    worstFinal: seq<Student>)       // bottom 5 by G3, line 162

  /**
   * Lines 36-47 and 151-162 in order. The loaded frame is only read (there is no modifies
   * clause): the filter starts from a copy, and the derived column goes into a fresh frame
   * holding the filtered rows, never into the loaded one.
   */
  method Run(df: Frame, sel: Selection) returns (report: Report)
    ensures report.total == |Filtered(df.rows, sel)|
    ensures report.preview == Head(Filtered(df.rows, sel), PREVIEW_ROWS)
    ensures report.bestFinal == RankedRows(Filtered(df.rows, sel), G3Column(Filtered(df.rows, sel)), Largest)
    ensures report.mostImproved
              == RankedRows(Filtered(df.rows, sel), ImprovementColumn(Filtered(df.rows, sel)), Largest)
    ensures report.worstFinal == RankedRows(Filtered(df.rows, sel), G3Column(Filtered(df.rows, sel)), Smallest)
  {
    var filtered := ApplyFilters(df.rows, sel);
    var frame := new Frame(filtered);
    var total := |frame.rows|;
    var preview := Head(frame.rows, PREVIEW_ROWS);
    var bestFinal := RankedRows(frame.rows, G3Column(frame.rows), Largest);
    frame.AddImprovement();
    var mostImproved := RankedRows(frame.rows, frame.added[MELHORIA], Largest);
    var worstFinal := RankedRows(frame.rows, G3Column(frame.rows), Smallest);
    report := Report(total, preview, bestFinal, mostImproved, worstFinal);
  }
}
