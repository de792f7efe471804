/**
 * The typed table the relative-reflectance and replicate stages work on:
 * rows with a path key, a sample name and one float-or-null cell per
 * wavelength column, with the grouping and sorting Polars provides.
 */
module Table {
  import opened Wrappers
  import opened Floats
  import opened Order

  /** One row: path key columns, the `Name` column, then one cell per content column (`None` is null). */
  datatype Row = Row(key: seq<string>, name: string, cells: seq<Option<Num>>)

  /** A data frame: column names and rows. */
  datatype Frame = Frame(columns: seq<string>, rows: seq<Row>)

  /** `df.columns.index("Name")` raises `ValueError` when there is no such column. */
  datatype FrameError = NoNameColumn

  /** `columns.index("Name")`: the first position of `Name`. */
  function NameIndex(columns: seq<string>): (i: nat)
    requires "Name" in columns
    ensures i < |columns| && columns[i] == "Name"
    ensures "Name" !in columns[..i]
  {
    if columns[0] == "Name" then 0
    else
      var i := 1 + NameIndex(columns[1..]);
      assert columns[..i] == [columns[0]] + columns[1..][..i - 1];
      i
  }

  /** `df.columns[:name_index]`: the path key columns. */
  function KeyColumns(columns: seq<string>): (k: seq<string>)
    requires "Name" in columns
    ensures |k| < |columns| && columns[|k|] == "Name"
    ensures columns[..|k|] == k && "Name" !in k
  {
    columns[..NameIndex(columns)]
  }

  /** `df.columns[name_index + 1:]`: the wavelength columns. */
  function ContentColumns(columns: seq<string>): (c: seq<string>)
    requires "Name" in columns
    ensures |c| < |columns| && columns[|columns| - |c| - 1] == "Name"
    ensures columns[|columns| - |c|..] == c && "Name" !in columns[..|columns| - |c| - 1]
  {
    columns[NameIndex(columns) + 1..]
  }

  /** The key columns are exactly those before the first `Name`, the content columns exactly those after it. */
  lemma ColumnSplit(columns: seq<string>)
    requires "Name" in columns
    ensures columns == KeyColumns(columns) + ["Name"] + ContentColumns(columns)
    ensures "Name" !in KeyColumns(columns)
  {
    var i := NameIndex(columns);
    assert columns == columns[..i] + [columns[i]] + columns[i + 1..];
  }

  /** Every row fills the frame's columns: the key columns, `Name`, then the content columns. */
  predicate Shaped(f: Frame) {
    "Name" in f.columns ==>
      forall r <- f.rows ::
        |r.key| == NameIndex(f.columns) && |r.cells| == |f.columns| - NameIndex(f.columns) - 1
  }

  /** The value a row is grouped and sorted by: its path key, or its path key followed by its name. */
  function GroupKey(r: Row, withName: bool): (k: seq<string>)
    ensures |k| == |r.key| + (if withName then 1 else 0)
  {
    if withName then r.key + [r.name] else r.key
  }

  /** The rows whose grouping value is `k`, in their order (one group of `group_by`). */
  function Group(rows: seq<Row>, k: seq<string>, withName: bool): (g: seq<Row>)
    ensures |g| <= |rows|
    ensures forall x <- g :: x in rows && GroupKey(x, withName) == k
    ensures forall x <- rows :: GroupKey(x, withName) == k ==> x in g
  {
    if rows == [] then []
    else
      var last := rows[|rows| - 1];
      var g := Group(rows[..|rows| - 1], k, withName);
      assert forall x <- rows :: x in rows[..|rows| - 1] || x == last;
      if GroupKey(last, withName) == k then g + [last] else g
  }

  lemma GroupOfSnoc(rows: seq<Row>, x: Row, k: seq<string>, withName: bool)
    ensures Group(rows + [x], k, withName)
         == Group(rows, k, withName) + (if GroupKey(x, withName) == k then [x] else [])
  {
    assert (rows + [x])[..|rows|] == rows;
  }

  /** Rows that all share grouping value `k` form one group, in their order. */
  lemma {:induction false} GroupOfOneKey(rows: seq<Row>, k: seq<string>, withName: bool)
    requires forall x <- rows :: GroupKey(x, withName) == k
    ensures Group(rows, k, withName) == rows
  {
    if rows != [] {
      var init, last := rows[..|rows| - 1], rows[|rows| - 1];
      assert rows == init + [last];
      assert forall x <- init :: x in rows;
      GroupOfOneKey(init, k, withName);
      GroupOfSnoc(init, last, k, withName);
    }
  }

  /** The distinct grouping values of `rows`, in order of first appearance. */
  function DistinctKeys(rows: seq<Row>, withName: bool): (ks: seq<seq<string>>)
    ensures Distinct(ks)
    ensures forall x <- rows :: GroupKey(x, withName) in ks
    ensures forall k <- ks :: exists x <- rows :: GroupKey(x, withName) == k
  {
    if rows == [] then []
    else
      var last := rows[|rows| - 1];
      var ks := DistinctKeys(rows[..|rows| - 1], withName);
      assert forall x <- rows :: x in rows[..|rows| - 1] || x == last;
      if GroupKey(last, withName) in ks then ks else ks + [GroupKey(last, withName)]
  }

  /** The groups of `ks`, one after the other. */
  function Regroup(rows: seq<Row>, ks: seq<seq<string>>, withName: bool): seq<Row> {
    if ks == [] then []
    else Regroup(rows, ks[..|ks| - 1], withName) + Group(rows, ks[|ks| - 1], withName)
  }

  lemma {:induction false} RegroupOfSnoc(rows: seq<Row>, x: Row, ks: seq<seq<string>>, withName: bool)
    requires Distinct(ks)
    ensures multiset(Regroup(rows + [x], ks, withName))
         == multiset(Regroup(rows, ks, withName)) + (if GroupKey(x, withName) in ks then multiset{x} else multiset{})
  {
    if ks != [] {
      var init, k := ks[..|ks| - 1], ks[|ks| - 1];
      DistinctInit(ks);
      assert ks == init + [k];
      RegroupOfSnoc(rows, x, init, withName);
      GroupOfSnoc(rows, x, k, withName);
      var key := GroupKey(x, withName);
      assert key in ks <==> key in init || key == k;
      SnocCount(Regroup(rows + [x], init, withName), Regroup(rows, init, withName),
        Group(rows + [x], k, withName), Group(rows, k, withName), x, key in init, key == k);
    }
  }

  /** Bookkeeping of one extra row across two concatenated parts. */
  lemma SnocCount(a': seq<Row>, a: seq<Row>, g': seq<Row>, g: seq<Row>, x: Row, inA: bool, inG: bool)
    requires multiset(a') == multiset(a) + (if inA then multiset{x} else multiset{})
    requires g' == g + (if inG then [x] else [])
    requires !(inA && inG)
    ensures multiset(a' + g') == multiset(a + g) + (if inA || inG then multiset{x} else multiset{})
  {
  }

  /** No value is listed twice: grouping values, or column names. */
  predicate Distinct<T(==)>(ks: seq<T>) {
    forall i, j | 0 <= i < j < |ks| :: ks[i] != ks[j]
  }

  lemma DistinctInit<T>(ks: seq<T>)
    requires |ks| > 0 && Distinct(ks)
    ensures Distinct(ks[..|ks| - 1])
    ensures ks[|ks| - 1] !in ks[..|ks| - 1]
  {
    assert ks == ks[..|ks| - 1] + [ks[|ks| - 1]];
  }

  /**
   * Splitting rows into their groups and putting the groups one after the other
   * loses no row and adds none, when every row's grouping value is listed once.
   */
  lemma {:induction false} RegroupIsPermutation(rows: seq<Row>, ks: seq<seq<string>>, withName: bool)
    requires Distinct(ks)
    requires forall x <- rows :: GroupKey(x, withName) in ks
    ensures multiset(Regroup(rows, ks, withName)) == multiset(rows)
  {
    if rows == [] {
      RegroupOfEmpty(ks, withName);
    } else {
      var init, x := rows[..|rows| - 1], rows[|rows| - 1];
      assert rows == init + [x];
      RegroupIsPermutation(init, ks, withName);
      RegroupOfSnoc(init, x, ks, withName);
    }
  }

  lemma {:induction false} RegroupOfEmpty(ks: seq<seq<string>>, withName: bool)
    ensures Regroup([], ks, withName) == []
  {
    if ks != [] {
      RegroupOfEmpty(ks[..|ks| - 1], withName);
    }
  }

  /** Sorted ascending by grouping value, as `df.sort(by=...)` leaves a frame. */
  predicate SortedBy(s: seq<Row>, withName: bool) {
    forall i, j | 0 <= i < j < |s| :: KeyLe(GroupKey(s[i], withName), GroupKey(s[j], withName))
  }

  /** A row no later than every row of a sorted sequence may go in front of it. */
  lemma PrependSorted(x: Row, s: seq<Row>, withName: bool)
    requires SortedBy(s, withName)
    requires forall y <- s :: KeyLe(GroupKey(x, withName), GroupKey(y, withName))
    ensures SortedBy([x] + s, withName)
  {
    var t := [x] + s;
    forall i, j | 0 <= i < j < |t|
      ensures KeyLe(GroupKey(t[i], withName), GroupKey(t[j], withName))
    {
      if i == 0 {
        assert t[j] in s;
      } else {
        assert t[i] == s[i - 1] && t[j] == s[j - 1];
      }
    }
  }

  lemma HeadIsLeast(s: seq<Row>, withName: bool)
    requires SortedBy(s, withName) && |s| > 0
    ensures forall y <- s :: KeyLe(GroupKey(s[0], withName), GroupKey(y, withName))
  {
    forall y <- s
      ensures KeyLe(GroupKey(s[0], withName), GroupKey(y, withName))
    {
      var j :| 0 <= j < |s| && s[j] == y;
      if j == 0 {
        KeyLeTotal(GroupKey(y, withName), GroupKey(y, withName));
      }
    }
  }

  /** One step of insertion sort: `x` goes before the first row it does not sort after. */
  function Insert(x: Row, s: seq<Row>, withName: bool): (r: seq<Row>)
    requires SortedBy(s, withName)
    ensures SortedBy(r, withName)
    ensures multiset(r) == multiset(s) + multiset{x}
  {
    if s == [] then [x]
    else if KeyLe(GroupKey(x, withName), GroupKey(s[0], withName)) then
      HeadIsLeast(s, withName);
      LeastFirst(x, s, withName);
      [x] + s
    else
      KeyLeTotal(GroupKey(x, withName), GroupKey(s[0], withName));
      var t := Insert(x, s[1..], withName);
      assert s == [s[0]] + s[1..];
      HeadBeforeInserted(x, s, t, withName);
      [s[0]] + t
  }

  lemma LeastFirst(x: Row, s: seq<Row>, withName: bool)
    requires SortedBy(s, withName) && |s| > 0
    requires KeyLe(GroupKey(x, withName), GroupKey(s[0], withName))
    requires forall y <- s :: KeyLe(GroupKey(s[0], withName), GroupKey(y, withName))
    ensures SortedBy([x] + s, withName)
  {
    forall y <- s
      ensures KeyLe(GroupKey(x, withName), GroupKey(y, withName))
    {
      KeyLeTransitive(GroupKey(x, withName), GroupKey(s[0], withName), GroupKey(y, withName));
    }
    PrependSorted(x, s, withName);
  }

  lemma HeadBeforeInserted(x: Row, s: seq<Row>, t: seq<Row>, withName: bool)
    requires SortedBy(s, withName) && |s| > 0 && SortedBy(t, withName)
    requires KeyLe(GroupKey(s[0], withName), GroupKey(x, withName))
    requires multiset(t) == multiset(s[1..]) + multiset{x}
    ensures SortedBy([s[0]] + t, withName)
  {
    forall y <- t
      ensures KeyLe(GroupKey(s[0], withName), GroupKey(y, withName))
    {
      assert y in multiset(t);
      if y != x {
        assert y in multiset(s[1..]);
        var j :| 0 <= j < |s[1..]| && s[1..][j] == y;
        assert s[j + 1] == y;
      }
    }
    PrependSorted(s[0], t, withName);
  }

  /** Insertion sort: sorted by grouping value, and the same rows as before. */
  function SortBy(s: seq<Row>, withName: bool): (r: seq<Row>)
    ensures SortedBy(r, withName)
    ensures multiset(r) == multiset(s)
  {
    if s == [] then []
    else
      assert s == [s[0]] + s[1..];
      Insert(s[0], SortBy(s[1..], withName), withName)
  }

  /** A row no later than the head of a sorted sequence is inserted in front. */
  lemma InsertLeast(x: Row, t: seq<Row>, withName: bool)
    requires SortedBy(t, withName)
    requires t != [] ==> KeyLe(GroupKey(x, withName), GroupKey(t[0], withName))
    ensures Insert(x, t, withName) == [x] + t
  {
  }

  lemma SortedTail(s: seq<Row>, withName: bool)
    requires SortedBy(s, withName) && s != []
    ensures SortedBy(s[1..], withName)
    ensures s == [s[0]] + s[1..]
    ensures |s| > 1 ==> KeyLe(GroupKey(s[0], withName), GroupKey(s[1..][0], withName))
  {
  }

  /** No two rows share a grouping value. */
  predicate UniqueKeys(s: seq<Row>, withName: bool) {
    forall i, j | 0 <= i < j < |s| :: GroupKey(s[i], withName) != GroupKey(s[j], withName)
  }

  lemma TailUnique(s: seq<Row>, withName: bool)
    requires |s| > 0 && UniqueKeys(s, withName)
    ensures UniqueKeys(s[1..], withName)
  {
    var rest := s[1..];
    forall i, j | 0 <= i < j < |rest|
      ensures GroupKey(rest[i], withName) != GroupKey(rest[j], withName)
    {
      assert rest[i] == s[i + 1] && rest[j] == s[j + 1];
    }
  }

  /**
   * With unique grouping values a collection of rows has only one sorted order,
   * so every sorting algorithm, stable or not, yields the same sequence.
   */
  lemma {:induction false} SortedUnique(s: seq<Row>, t: seq<Row>, withName: bool)
    requires SortedBy(s, withName) && SortedBy(t, withName)
    requires multiset(s) == multiset(t) && UniqueKeys(s, withName)
    ensures s == t
  {
    if s != [] {
      var a := s[0];
      assert a in multiset(t);
      var b := t[0];
      assert b in multiset(s);
      HeadIsLeast(s, withName);
      HeadIsLeast(t, withName);
      KeyLeAntisymmetric(GroupKey(a, withName), GroupKey(b, withName));
      var q :| 0 <= q < |s| && s[q] == b;
      assert q == 0;
      SortedTail(s, withName);
      SortedTail(t, withName);
      TailUnique(s, withName);
      assert multiset(s[1..]) == multiset(t[1..]) by {
        assert s == [a] + s[1..] && t == [a] + t[1..];
        assert multiset(s[1..]) == multiset(s) - multiset{a};
        assert multiset(t[1..]) == multiset(t) - multiset{a};
      }
      SortedUnique(s[1..], t[1..], withName);
    }
  }

  /** Sorting what is already sorted changes nothing. */
  lemma {:induction false} SortBySorted(s: seq<Row>, withName: bool)
    requires SortedBy(s, withName) && UniqueKeys(s, withName)
    ensures SortBy(s, withName) == s
  {
    if s != [] {
      SortedTail(s, withName);
      TailUnique(s, withName);
      SortBySorted(s[1..], withName);
      InsertLeast(s[0], s[1..], withName);
    }
  }
}
