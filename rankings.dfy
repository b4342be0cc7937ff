/**
 * The "Top 5" tables of the dashboard: pandas `nlargest(n, column)` and `nsmallest(n, column)`
 * with the default `keep='first'`. A ranking is stated on row positions: given the column of
 * keys, it returns the positions of the chosen rows, best first. Keys are compared first; among
 * equal keys the row that comes earlier in the table comes first and is preferred.
 */
module Rankings {

  datatype Direction = Largest | Smallest

  function Min(a: int, b: int): int {
    if a < b then a else b
  }

  /** Row i is ranked ahead of row j: a strictly better key, or an equal key and an earlier row. */
  predicate Precedes(keys: seq<int>, dir: Direction, i: nat, j: nat)
    requires i < |keys| && j < |keys|
  {
    if keys[i] == keys[j] then i < j
    else if dir == Largest then keys[i] > keys[j]
    else keys[i] < keys[j]
  }

  predicate InRange(keys: seq<int>, s: seq<nat>) {
    forall k :: 0 <= k < |s| ==> s[k] < |keys|
  }

  /** Every position of s is a row of the table, and s lists them in ranking order. */
  predicate Ranked(keys: seq<int>, dir: Direction, s: seq<nat>) {
    && InRange(keys, s)
    && forall a, b :: 0 <= a < b < |s| ==> Precedes(keys, dir, s[a], s[b])
  }

  /** The ranking order is a strict total order on the rows. */
  lemma PrecedesTotal(keys: seq<int>, dir: Direction, i: nat, j: nat)
    requires i < |keys| && j < |keys| && i != j
    ensures Precedes(keys, dir, i, j) != Precedes(keys, dir, j, i)
  {
  }

  lemma PrecedesTransitive(keys: seq<int>, dir: Direction, i: nat, j: nat, k: nat)
    requires i < |keys| && j < |keys| && k < |keys|
    requires Precedes(keys, dir, i, j) && Precedes(keys, dir, j, k)
    ensures Precedes(keys, dir, i, k)
  {
  }

  /** Places row x just before the first row of s that it is ranked ahead of. */
  function Insert(keys: seq<int>, dir: Direction, x: nat, s: seq<nat>): (r: seq<nat>)
    requires x < |keys| && InRange(keys, s)
    ensures |r| == |s| + 1 && InRange(keys, r)
    ensures multiset(r) == multiset(s) + multiset{x}
  {
    if s == [] then [x]
    else if Precedes(keys, dir, x, s[0]) then [x] + s
    else
      assert s == [s[0]] + s[1..];
      [s[0]] + Insert(keys, dir, x, s[1..])
  }

  lemma {:induction false} InsertRanked(keys: seq<int>, dir: Direction, x: nat, s: seq<nat>)
    requires x < |keys| && Ranked(keys, dir, s) && x !in s
    ensures Ranked(keys, dir, Insert(keys, dir, x, s))
  {
    if s != [] {
      var r := Insert(keys, dir, x, s);
      if Precedes(keys, dir, x, s[0]) {
        forall b | 1 <= b < |r|
          ensures Precedes(keys, dir, x, r[b])
        {
          if b > 1 {
            PrecedesTransitive(keys, dir, x, s[0], s[b - 1]);
          }
        }
      } else {
        var rest := Insert(keys, dir, x, s[1..]);
        assert x !in s[1..];
        InsertRanked(keys, dir, x, s[1..]);
        assert r == [s[0]] + rest;
        PrecedesTotal(keys, dir, x, s[0]);
        forall b | 0 <= b < |rest|
          ensures Precedes(keys, dir, s[0], rest[b])
        {
          assert rest[b] in multiset(rest);
          if rest[b] != x {
            assert rest[b] in s[1..];
          }
        }
      }
    }
  }

  /** Insertion sort of row positions into ranking order. */
  function Sort(keys: seq<int>, dir: Direction, s: seq<nat>): (r: seq<nat>)
    requires InRange(keys, s)
    ensures |r| == |s| && InRange(keys, r)
    ensures multiset(r) == multiset(s)
  {
    if s == [] then []
    else
      assert s == [s[0]] + s[1..];
      Insert(keys, dir, s[0], Sort(keys, dir, s[1..]))
  }

  predicate Distinct(s: seq<nat>) {
    forall a, b :: 0 <= a < b < |s| ==> s[a] != s[b]
  }

  lemma {:induction false} SortRanked(keys: seq<int>, dir: Direction, s: seq<nat>)
    requires InRange(keys, s) && Distinct(s)
    ensures Ranked(keys, dir, Sort(keys, dir, s))
  {
    if s != [] {
      var rest := Sort(keys, dir, s[1..]);
      SortRanked(keys, dir, s[1..]);
      assert s[0] !in s[1..];
      assert s[0] !in multiset(rest);
      InsertRanked(keys, dir, s[0], rest);
    }
  }

  /** The positions 0, 1, ..., n - 1 of the rows of a table of n rows. */
  function Positions(n: nat): (s: seq<nat>)
    ensures |s| == n
  {
    seq(n, i requires 0 <= i < n => i)
  }

  /** Every row of the table has a place in the full ranking. */
  lemma SortedHasAllRows(keys: seq<int>, dir: Direction)
    ensures forall j :: 0 <= j < |keys| ==> j in Sort(keys, dir, Positions(|keys|))
  {
    var all := Positions(|keys|);
    forall j | 0 <= j < |keys| ensures j in Sort(keys, dir, all) {
      assert all[j] == j;
      assert j in multiset(all);
    }
  }

  /** A row left out of a prefix of a ranking is ranked behind every row of that prefix. */
  lemma LeftOutRanksBehind(keys: seq<int>, dir: Direction, sorted: seq<nat>, m: nat, j: nat)
    requires Ranked(keys, dir, sorted) && m <= |sorted| && j in sorted && j !in sorted[..m]
    ensures forall k :: 0 <= k < m ==> Precedes(keys, dir, sorted[k], j)
  {
    var p :| 0 <= p < |sorted| && sorted[p] == j;
    assert forall q :: 0 <= q < m ==> sorted[..m][q] == sorted[q];
  }

  /**
   * t answers `nlargest`/`nsmallest` for n: it lists min(n, rows) rows of the table in ranking
   * order, and every row it leaves out is ranked behind every row it lists.
   */
  predicate IsTopN(keys: seq<int>, n: nat, dir: Direction, t: seq<nat>) {
    && |t| == Min(n, |keys|)
    && Ranked(keys, dir, t)
    && forall j, k :: 0 <= j < |keys| && j !in t && 0 <= k < |t| ==> Precedes(keys, dir, t[k], j)
  }

  /**
   * `nlargest(n, column)` (dir = Largest) and `nsmallest(n, column)` (dir = Smallest) with
   * keep='first': the first n rows of the table in ranking order.
   */
  function Select(keys: seq<int>, n: nat, dir: Direction): (top: seq<nat>)
    ensures IsTopN(keys, n, dir, top)
  {
    var sorted := Sort(keys, dir, Positions(|keys|));
    SortRanked(keys, dir, Positions(|keys|));
    SortedHasAllRows(keys, dir);
    var m := Min(n, |keys|);
    forall j | 0 <= j < |keys| && j !in sorted[..m]
      ensures forall k :: 0 <= k < m ==> Precedes(keys, dir, sorted[k], j)
    {
      LeftOutRanksBehind(keys, dir, sorted, m, j);
    }
    sorted[..m]
  }

  /** In a top-n answer, the k-th row is ranked ahead of every row not among its first k + 1. */
  lemma Leads(keys: seq<int>, n: nat, dir: Direction, t: seq<nat>, k: nat, j: nat)
    requires IsTopN(keys, n, dir, t) && k < |t|
    ensures j < |keys| && j !in t[..k + 1] ==> Precedes(keys, dir, t[k], j)
  {
    if j < |keys| && j !in t[..k + 1] && j in t {
      var p :| 0 <= p < |t| && t[p] == j;
      assert forall q :: 0 <= q <= k ==> t[..k + 1][q] == t[q];
    }
  }

  lemma {:induction false} TopNPrefixesAgree(keys: seq<int>, n: nat, dir: Direction, t: seq<nat>, u: seq<nat>, k: nat)
    requires IsTopN(keys, n, dir, t) && IsTopN(keys, n, dir, u) && k <= |t|
    ensures t[..k] == u[..k]
  {
    if k > 0 {
      var i := k - 1;
      TopNPrefixesAgree(keys, n, dir, t, u, i);
      Leads(keys, n, dir, t, i, u[i]);
      Leads(keys, n, dir, u, i, t[i]);
      assert forall q :: 0 <= q < i ==> t[q] == t[..i][q] == u[..i][q] == u[q];
      assert t[..k] == t[..i] + [t[i]] && u[..k] == u[..i] + [u[i]];
    }
  }

  /** The top-n contract leaves no choice: Select is the only answer that meets it. */
  lemma TopNIsUnique(keys: seq<int>, n: nat, dir: Direction, t: seq<nat>)
    requires IsTopN(keys, n, dir, t)
    ensures t == Select(keys, n, dir)
  {
    var u := Select(keys, n, dir);
    TopNPrefixesAgree(keys, n, dir, t, u, |t|);
    assert t == t[..|t|] && u == u[..|u|];
  }

  /** The key column with every key negated. */
  function Negated(keys: seq<int>): (neg: seq<int>)
    ensures |neg| == |keys|
  {
    seq(|keys|, i requires 0 <= i < |keys| => -keys[i])
  }

  /** `nsmallest` on a column is `nlargest` on the negated column, ties resolved the same way. */
  lemma SmallestIsLargestOfNegated(keys: seq<int>, n: nat)
    ensures Select(keys, n, Smallest) == Select(Negated(keys), n, Largest)
  {
    var t := Select(keys, n, Smallest);
    var neg := Negated(keys);
    assert forall i, j :: 0 <= i < |keys| && 0 <= j < |keys| ==>
      Precedes(keys, Smallest, i, j) == Precedes(neg, Largest, i, j);
    assert IsTopN(neg, n, Largest, t);
    TopNIsUnique(neg, n, Largest, t);
  }

  /**
   * What the two tables show, in terms of the key column: for `nlargest` the keys never rise
   * down the table, equal keys keep table order, and no row left out has a larger key than the
   * last row listed (nor an equal key and an earlier place); `nsmallest` is the mirror image.
   */
  lemma TopKeysOrdered(keys: seq<int>, n: nat)
    ensures var top := Select(keys, n, Largest);
      && (forall a, b :: 0 <= a < b < |top| ==>
            keys[top[a]] > keys[top[b]] || (keys[top[a]] == keys[top[b]] && top[a] < top[b]))
      && (forall j :: 0 <= j < |keys| && j !in top && top != [] ==>
            keys[j] < keys[top[|top| - 1]] || (keys[j] == keys[top[|top| - 1]] && j > top[|top| - 1]))
    ensures var bottom := Select(keys, n, Smallest);
      && (forall a, b :: 0 <= a < b < |bottom| ==>
            keys[bottom[a]] < keys[bottom[b]] || (keys[bottom[a]] == keys[bottom[b]] && bottom[a] < bottom[b]))
      && (forall j :: 0 <= j < |keys| && j !in bottom && bottom != [] ==>
            keys[j] > keys[bottom[|bottom| - 1]] || (keys[j] == keys[bottom[|bottom| - 1]] && j > bottom[|bottom| - 1]))
  {
  }

  /**
   * A row with a strictly better key than a listed row is listed too, and ahead of it: for
   * `nlargest` a final grade of 15 is shown above a final grade of 12 whenever the 12 is shown.
   */
  lemma BetterKeyListedFirst(keys: seq<int>, n: nat, dir: Direction, i: nat, b: nat)
    requires i < |keys| && b < |Select(keys, n, dir)|
    requires var j := Select(keys, n, dir)[b];
      if dir == Largest then keys[i] > keys[j] else keys[i] < keys[j]
    ensures exists a :: 0 <= a < b && Select(keys, n, dir)[a] == i
  {
    var top := Select(keys, n, dir);
    var j := top[b];
    assert !Precedes(keys, dir, j, i);
    assert i in top;
    var a :| 0 <= a < |top| && top[a] == i;
  }
}
