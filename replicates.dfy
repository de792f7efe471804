/**
 * Replicate aggregation (`group_and_calculate_mean`): rows are grouped by
 * path key and sample name, each content column is averaged over the
 * group's non-null values and rounded to two decimals, and the result is
 * sorted by path key and name.
 */
module Replicates {
  import opened Wrappers
  import opened Floats
  import opened Order
  import opened Table

  /** IEEE sum of `vs` in order, starting from `0.0`. */
  function Sum(vs: seq<Num>): (s: Num)
    ensures (forall v <- vs :: v.Fin?) ==> s.Fin?
    ensures s.Inf? ==> exists v <- vs :: v.Inf?
  {
    if vs == [] then Fin(0.0) else Plus(Sum(vs[..|vs| - 1]), vs[|vs| - 1])
  }

  /** The exact sum of finite values. */
  function RealSum(vs: seq<Num>): real
    requires forall v <- vs :: v.Fin?
  {
    if vs == [] then 0.0 else RealSum(vs[..|vs| - 1]) + vs[|vs| - 1].v
  }

  /** Without infinities and NaN the IEEE sum is the exact sum. */
  lemma {:induction false} SumOfFinite(vs: seq<Num>)
    requires forall v <- vs :: v.Fin?
    ensures Sum(vs) == Fin(RealSum(vs))
  {
    if vs != [] {
      assert forall v <- vs[..|vs| - 1] :: v in vs;
      SumOfFinite(vs[..|vs| - 1]);
    }
  }

  /** A NaN anywhere makes the sum NaN. */
  lemma {:induction false} SumWithNaN(vs: seq<Num>)
    requires NaN in vs
    ensures Sum(vs) == NaN
  {
    var init := vs[..|vs| - 1];
    if vs[|vs| - 1] != NaN {
      assert vs == init + [vs[|vs| - 1]];
      SumWithNaN(init);
    }
  }

  /** The non-null values of content column `j` in the rows `g`, in row order. */
  function ColumnValues(g: seq<Row>, j: nat): (vs: seq<Num>)
    ensures |vs| <= |g|
    ensures (forall x <- g :: j < |x.cells| && x.cells[j].Some?) ==> |vs| == |g|
    ensures (forall x <- g :: j >= |x.cells| || x.cells[j].None?) ==> vs == []
  {
    if g == [] then []
    else
      var x := g[|g| - 1];
      ColumnValues(g[..|g| - 1], j) + (if j < |x.cells| && x.cells[j].Some? then [x.cells[j].value] else [])
  }

  /** Polars `pl.col(c).mean().round(2)` over one group: null when the column has no value there. */
  function ColumnMean(g: seq<Row>, j: nat, mode: RoundMode): (m: Option<Num>)
    ensures m.None? <==> ColumnValues(g, j) == []
    ensures m.Some? && m.value.Fin? ==> OnGrid(m.value.v)
  {
    var vs := ColumnValues(g, j);
    if vs == [] then None
    else Some(RoundNum(Divide(Sum(vs), Fin(|vs| as real)), mode))
  }

  /** With only finite values the mean is their average, rounded. */
  lemma MeanIsAverage(g: seq<Row>, j: nat, mode: RoundMode)
    requires ColumnValues(g, j) != [] && forall v <- ColumnValues(g, j) :: v.Fin?
    ensures
      var vs := ColumnValues(g, j);
      ColumnMean(g, j, mode) == Some(Fin(Round2(RealSum(vs) / |vs| as real, mode)))
  {
    SumOfFinite(ColumnValues(g, j));
  }

  /** A NaN value in the column makes its mean NaN. */
  lemma MeanWithNaN(g: seq<Row>, j: nat, mode: RoundMode)
    requires NaN in ColumnValues(g, j)
    ensures ColumnMean(g, j, mode) == Some(NaN)
  {
    SumWithNaN(ColumnValues(g, j));
  }

  /** The aggregated row of a non-empty group: its key and name, and one mean per content column. */
  function MeanRow(g: seq<Row>, width: nat, mode: RoundMode): (y: Row)
    requires g != []
    ensures GroupKey(y, true) == GroupKey(g[0], true)
    ensures |y.cells| == width && forall j | 0 <= j < width :: y.cells[j] == ColumnMean(g, j, mode)
  {
    Row(g[0].key, g[0].name, seq(width, j requires 0 <= j < width => ColumnMean(g, j, mode)))
  }

  /** The aggregated rows of the groups `ks`, in the order of `ks`. */
  function MeanRows(rows: seq<Row>, ks: seq<seq<string>>, width: nat, mode: RoundMode): (out: seq<Row>)
    requires forall i | 0 <= i < |ks| :: Group(rows, ks[i], true) != []
    ensures |out| == |ks|
    ensures forall i | 0 <= i < |ks| ::
      out[i] == MeanRow(Group(rows, ks[i], true), width, mode) && GroupKey(out[i], true) == ks[i]
  {
    if ks == [] then []
    else
      var g := Group(rows, ks[|ks| - 1], true);
      assert g[0] in g;
      MeanRows(rows, ks[..|ks| - 1], width, mode) + [MeanRow(g, width, mode)]
  }

  /** Every distinct key and name has a non-empty group. */
  lemma DistinctKeysHaveGroups(rows: seq<Row>)
    ensures forall k <- DistinctKeys(rows, true) :: Group(rows, k, true) != []
  {
    forall k <- DistinctKeys(rows, true)
      ensures Group(rows, k, true) != []
    {
      var x :| x in rows && GroupKey(x, true) == k;
      assert x in Group(rows, k, true);
    }
  }

  /**
   * `group_and_calculate_mean` on the rows of a frame with `width` content
   * columns: one aggregated row per distinct key and name, sorted by them.
   */
  function Aggregate(rows: seq<Row>, width: nat, mode: RoundMode): (out: seq<Row>)
    ensures SortedBy(out, true)
    ensures multiset(out) == multiset(Means(rows, width, mode))
  {
    SortBy(Means(rows, width, mode), true)
  }

  /** The aggregated rows before sorting, one per distinct key and name in order of first appearance. */
  function Means(rows: seq<Row>, width: nat, mode: RoundMode): (ms: seq<Row>)
    ensures |ms| == |DistinctKeys(rows, true)|
    ensures forall i | 0 <= i < |ms| ::
      GroupKey(ms[i], true) == DistinctKeys(rows, true)[i] && |ms[i].cells| == width
  {
    DistinctKeysHaveGroups(rows);
    MeanRows(rows, DistinctKeys(rows, true), width, mode)
  }

  /**
   * The tie rule of Polars' `.round(2)` in the version the pipeline targets.
   * Every lemma about the aggregation takes the mode as a parameter, so they
   * hold for half-to-even rounding as well.
   */
  const MEAN_ROUNDING: RoundMode := HalfAwayFromZero

  /**
   * `group_and_calculate_mean` on a frame: a missing `Name` column is an error;
   * otherwise the columns stay as they are and the rows are the aggregated
   * rows, sorted and one per key and name.
   */
  function GroupAndCalculateMean(f: Frame): (res: Result<Frame, FrameError>)
    ensures res.Failure? <==> "Name" !in f.columns
    ensures res.Success? ==> res.value.columns == f.columns
    ensures res.Success? ==>
      res.value.rows == Aggregate(f.rows, |ContentColumns(f.columns)|, MEAN_ROUNDING)
    ensures res.Success? ==> SortedBy(res.value.rows, true) && UniqueKeys(res.value.rows, true)
  {
    if "Name" !in f.columns then Failure(NoNameColumn)
    else
      var i := NameIndex(f.columns);
      ColumnSplit(f.columns);
      var groupBy := f.columns[..i + 1];
      var content := f.columns[i + 1..];
      AggregateKeys(f.rows, |content|, MEAN_ROUNDING);
      Success(Frame(groupBy + content, Aggregate(f.rows, |content|, MEAN_ROUNDING)))
  }

  lemma PrependUnique(a: Row, t: seq<Row>, withName: bool)
    requires UniqueKeys(t, withName)
    requires forall y <- t :: GroupKey(y, withName) != GroupKey(a, withName)
    ensures UniqueKeys([a] + t, withName)
  {
    var r := [a] + t;
    forall i, j | 0 <= i < j < |r|
      ensures GroupKey(r[i], withName) != GroupKey(r[j], withName)
    {
      if i == 0 {
        assert r[j] in t;
      } else {
        assert r[i] == t[i - 1] && r[j] == t[j - 1];
      }
    }
  }

  /** The head of a sequence with unique grouping values shares its value with nothing after it. */
  lemma HeadIsNew(s: seq<Row>, x: Row, t: seq<Row>, withName: bool)
    requires |s| > 0 && UniqueKeys(s, withName)
    requires GroupKey(x, withName) != GroupKey(s[0], withName)
    requires multiset(t) == multiset(s[1..]) + multiset{x}
    ensures forall y <- t :: GroupKey(y, withName) != GroupKey(s[0], withName)
  {
    forall y <- t
      ensures GroupKey(y, withName) != GroupKey(s[0], withName)
    {
      assert y in multiset(t);
      if y != x {
        assert y in multiset(s[1..]);
        var q :| 0 <= q < |s[1..]| && s[1..][q] == y;
        assert s[q + 1] == y;
      }
    }
  }

  /** Inserting a row whose grouping value is new keeps grouping values unique. */
  lemma {:induction false} InsertKeepsUnique(x: Row, s: seq<Row>, withName: bool)
    requires SortedBy(s, withName) && UniqueKeys(s, withName)
    requires forall y <- s :: GroupKey(y, withName) != GroupKey(x, withName)
    ensures UniqueKeys(Insert(x, s, withName), withName)
  {
    if s == [] {
    } else if KeyLe(GroupKey(x, withName), GroupKey(s[0], withName)) {
      PrependUnique(x, s, withName);
    } else {
      var rest := s[1..];
      assert forall y <- rest :: y in s;
      TailUnique(s, withName);
      InsertKeepsUnique(x, rest, withName);
      var t := Insert(x, rest, withName);
      assert s[0] in s;
      HeadIsNew(s, x, t, withName);
      PrependUnique(s[0], t, withName);
    }
  }

  /** Sorting keeps grouping values unique. */
  lemma {:induction false} SortByKeepsUnique(s: seq<Row>, withName: bool)
    requires UniqueKeys(s, withName)
    ensures UniqueKeys(SortBy(s, withName), withName)
  {
    if s != [] {
      var t := SortBy(s[1..], withName);
      SortByKeepsUnique(s[1..], withName);
      forall y <- t
        ensures GroupKey(y, withName) != GroupKey(s[0], withName)
      {
        assert y in multiset(s[1..]);
        var q :| 0 <= q < |s[1..]| && s[1..][q] == y;
        assert s[q + 1] == y;
      }
      InsertKeepsUnique(s[0], t, withName);
    }
  }

  /** Each aggregated row belongs to a distinct key and name and is the mean row of its group. */
  lemma MeansAreMeanRows(rows: seq<Row>, width: nat, mode: RoundMode)
    ensures forall y <- Means(rows, width, mode) ::
      && GroupKey(y, true) in DistinctKeys(rows, true)
      && Group(rows, GroupKey(y, true), true) != []
      && y == MeanRow(Group(rows, GroupKey(y, true), true), width, mode)
  {
    DistinctKeysHaveGroups(rows);
    var ks := DistinctKeys(rows, true);
    var means := Means(rows, width, mode);
    forall y <- means
      ensures GroupKey(y, true) in ks && Group(rows, GroupKey(y, true), true) != []
      ensures y == MeanRow(Group(rows, GroupKey(y, true), true), width, mode)
    {
      var i :| 0 <= i < |means| && means[i] == y;
      assert ks[i] in ks;
    }
  }

  /** Every input row's key and name has an aggregated row. */
  lemma MeansCoverRows(rows: seq<Row>, width: nat, mode: RoundMode)
    ensures forall x <- rows :: exists y <- Means(rows, width, mode) :: GroupKey(x, true) == GroupKey(y, true)
  {
    var ks := DistinctKeys(rows, true);
    var means := Means(rows, width, mode);
    forall x <- rows
      ensures exists y <- means :: GroupKey(x, true) == GroupKey(y, true)
    {
      var i :| 0 <= i < |ks| && ks[i] == GroupKey(x, true);
      assert means[i] in means;
    }
  }

  /** No two aggregated rows share a key and name. */
  lemma MeansAreUnique(rows: seq<Row>, width: nat, mode: RoundMode)
    ensures UniqueKeys(Means(rows, width, mode), true)
  {
  }

  lemma SameMembers(s: seq<Row>, t: seq<Row>)
    requires multiset(s) == multiset(t)
    ensures forall y :: y in s <==> y in t
  {
    forall y
      ensures y in s <==> y in t
    {
      assert y in s <==> y in multiset(s);
      assert y in t <==> y in multiset(t);
    }
  }

  /**
   * One output row per distinct key and name: every output row has the key
   * and name of some input row, every input row's key and name appear in the
   * output, and no two output rows share them.  The output is sorted.
   */
  lemma AggregateKeys(rows: seq<Row>, width: nat, mode: RoundMode)
    ensures SortedBy(Aggregate(rows, width, mode), true)
    ensures UniqueKeys(Aggregate(rows, width, mode), true)
    ensures forall y <- Aggregate(rows, width, mode) :: exists x <- rows :: GroupKey(x, true) == GroupKey(y, true)
    ensures forall x <- rows :: exists y <- Aggregate(rows, width, mode) :: GroupKey(x, true) == GroupKey(y, true)
  {
    var means := Means(rows, width, mode);
    MeansAreMeanRows(rows, width, mode);
    MeansCoverRows(rows, width, mode);
    MeansAreUnique(rows, width, mode);
    SortByKeepsUnique(means, true);
    SameMembers(means, Aggregate(rows, width, mode));
    forall y <- Aggregate(rows, width, mode)
      ensures exists x <- rows :: GroupKey(x, true) == GroupKey(y, true)
    {
      assert GroupKey(y, true) in DistinctKeys(rows, true);
    }
  }

  /**
   * Every output row holds, in each content column, the rounded mean of that
   * column's non-null values over the input rows with the same key and name.
   */
  lemma AggregateCells(rows: seq<Row>, width: nat, mode: RoundMode)
    ensures forall y <- Aggregate(rows, width, mode) ::
      && Group(rows, GroupKey(y, true), true) != []
      && |y.cells| == width
      && forall j | 0 <= j < width :: y.cells[j] == ColumnMean(Group(rows, GroupKey(y, true), true), j, mode)
  {
    MeansAreMeanRows(rows, width, mode);
    SameMembers(Means(rows, width, mode), Aggregate(rows, width, mode));
  }

  /** Every row has `width` cells and every finite cell is already on the two-decimal grid. */
  predicate Rounded(rows: seq<Row>, width: nat) {
    forall x <- rows ::
      && |x.cells| == width
      && forall c <- x.cells :: c.Some? && c.value.Fin? ==> OnGrid(c.value.v)
  }

  /** The mean of a single rounded cell is that cell. */
  lemma MeanOfOneCell(x: Row, j: nat, mode: RoundMode)
    requires j < |x.cells|
    requires x.cells[j].Some? && x.cells[j].value.Fin? ==> OnGrid(x.cells[j].value.v)
    ensures ColumnMean([x], j, mode) == x.cells[j]
  {
    assert [x][..0] == [];
    assert ColumnValues([x], j) == if x.cells[j].Some? then [x.cells[j].value] else [];
    if x.cells[j].Some? {
      var v := x.cells[j].value;
      assert Sum([v]) == Plus(Fin(0.0), v) by {
        assert [v][..0] == [];
      }
      if v.Fin? {
        Round2Fixes(v.v, mode);
      }
    }
  }

  /** A single rounded row is its own mean row. */
  lemma MeanRowOfOne(x: Row, width: nat, mode: RoundMode)
    requires Rounded([x], width)
    ensures MeanRow([x], width, mode) == x
  {
    assert x in [x];
    forall j | 0 <= j < width
      ensures ColumnMean([x], j, mode) == x.cells[j]
    {
      assert x.cells[j] in x.cells;
      MeanOfOneCell(x, j, mode);
    }
  }

  lemma GroupOfAbsent(rows: seq<Row>, k: seq<string>)
    requires forall y <- rows :: GroupKey(y, true) != k
    ensures Group(rows, k, true) == []
  {
  }

  /** With unique keys and names, each row is a group of its own. */
  lemma {:induction false} GroupOfUnique(rows: seq<Row>, x: Row)
    requires UniqueKeys(rows, true) && x in rows
    ensures Group(rows, GroupKey(x, true), true) == [x]
  {
    var n := |rows| - 1;
    var init, last := rows[..n], rows[n];
    var k := GroupKey(x, true);
    assert rows == init + [last];
    GroupOfSnoc(init, last, k, true);
    UniqueInit(rows);
    if last == x {
      forall y <- init
        ensures GroupKey(y, true) != k
      {
        var i :| 0 <= i < n && init[i] == y;
        assert rows[i] == y;
      }
      GroupOfAbsent(init, k);
    } else {
      var i :| 0 <= i < |rows| && rows[i] == x;
      assert i < n && init[i] == x;
      GroupOfUnique(init, x);
    }
  }

  /** Dropping the last row keeps the keys unique. */
  lemma UniqueInit(rows: seq<Row>)
    requires UniqueKeys(rows, true) && rows != []
    ensures UniqueKeys(rows[..|rows| - 1], true)
  {
    var init := rows[..|rows| - 1];
    forall a, b | 0 <= a < b < |init|
      ensures GroupKey(init[a], true) != GroupKey(init[b], true)
    {
      assert init[a] == rows[a] && init[b] == rows[b];
    }
  }

  /** With unique keys and names, the distinct keys are the rows' keys in row order. */
  lemma {:induction false} DistinctKeysOfUnique(rows: seq<Row>)
    requires UniqueKeys(rows, true)
    ensures |DistinctKeys(rows, true)| == |rows|
    ensures forall i | 0 <= i < |rows| :: DistinctKeys(rows, true)[i] == GroupKey(rows[i], true)
  {
    if rows != [] {
      var n := |rows| - 1;
      var init, last := rows[..n], rows[n];
      UniqueInit(rows);
      DistinctKeysOfUnique(init);
      var ks := DistinctKeys(init, true);
      var k := GroupKey(last, true);
      assert k !in ks by {
        forall i | 0 <= i < |ks|
          ensures ks[i] != k
        {
          assert ks[i] == GroupKey(rows[i], true);
        }
      }
      DistinctKeysOfSnoc(rows);
      var ks' := DistinctKeys(rows, true);
      forall i | 0 <= i < |rows|
        ensures ks'[i] == GroupKey(rows[i], true)
      {
        if i < n {
          assert ks'[i] == ks[i] && init[i] == rows[i];
        }
      }
    }
  }

  lemma DistinctKeysOfSnoc(rows: seq<Row>)
    requires rows != []
    ensures var n := |rows| - 1;
      var ks, k := DistinctKeys(rows[..n], true), GroupKey(rows[n], true);
      DistinctKeys(rows, true) == if k in ks then ks else ks + [k]
  {
  }

  /** Rows that are already one per key and name, and already rounded, aggregate to themselves. */
  lemma MeansOfUnique(rows: seq<Row>, width: nat, mode: RoundMode)
    requires UniqueKeys(rows, true) && Rounded(rows, width)
    ensures Means(rows, width, mode) == rows
  {
    DistinctKeysOfUnique(rows);
    var means := Means(rows, width, mode);
    forall i | 0 <= i < |rows|
      ensures means[i] == rows[i]
    {
      var x := rows[i];
      GroupOfUnique(rows, x);
      assert Rounded([x], width);
      MeanRowOfOne(x, width, mode);
    }
  }

  /**
   * A frame that already has one rounded row per key and name is only sorted
   * by aggregation: no row is merged, dropped or changed.
   */
  lemma AggregateOfUnique(rows: seq<Row>, width: nat, mode: RoundMode)
    requires UniqueKeys(rows, true) && Rounded(rows, width)
    ensures Aggregate(rows, width, mode) == SortBy(rows, true)
  {
    MeansOfUnique(rows, width, mode);
  }

  /** Aggregating replicates twice is the same as aggregating them once. */
  lemma AggregateIdempotent(rows: seq<Row>, width: nat, mode: RoundMode)
    ensures Aggregate(Aggregate(rows, width, mode), width, mode) == Aggregate(rows, width, mode)
  {
    var out := Aggregate(rows, width, mode);
    AggregateKeys(rows, width, mode);
    AggregateCells(rows, width, mode);
    forall y <- out, c <- y.cells
      ensures c.Some? && c.value.Fin? ==> OnGrid(c.value.v)
    {
      var j :| 0 <= j < |y.cells| && y.cells[j] == c;
    }
    AggregateOfUnique(out, width, mode);
    SortBySorted(out, true);
  }
}
