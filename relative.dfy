/**
 * Relative reflectance (`cal_relative`): rows are grouped by their path key;
 * in a group that has both a reference row (name containing `ref`) and a dark
 * row (name containing `dark`), every row whose name does not start with
 * `ref` or `dark` is rescaled cell by cell to `(m - d) * 100 / (r - d)`,
 * rounded to two decimals.  The result is sorted by path key.
 */
module Relative {
  import opened Wrappers
  import opened Text
  import opened Floats
  import opened Table

  datatype RelativeError =
    | MissingName               // `df.columns.index("Name")`: ValueError
    | NullMeasurement(row: Row) // NumPy arithmetic on a null of a rescaled row: TypeError

  /** A calibration row, which is never rescaled: its name starts with `ref` or `dark`, any case. */
  predicate IsCalibration(name: string)
    ensures IsCalibration(name) ==> ContainsIgnoreCase(name, REF) || ContainsIgnoreCase(name, DARK)
  {
    StartsWithIgnoreCase(name, REF) || StartsWithIgnoreCase(name, DARK)
  }

  /** The position of the first row of `g` whose name contains `w` (`|g|` when none does). */
  function FirstContaining(g: seq<Row>, w: Word): (i: nat)
    ensures i <= |g|
    ensures i < |g| ==> ContainsIgnoreCase(g[i].name, w)
    ensures forall j | 0 <= j < i :: !ContainsIgnoreCase(g[j].name, w)
  {
    if g == [] then 0
    else if ContainsIgnoreCase(g[0].name, w) then 0
    else 1 + FirstContaining(g[1..], w)
  }

  /** `FirstContaining` is pinned by its contract: no other position satisfies it. */
  lemma FirstContainingIs(g: seq<Row>, w: Word, i: nat)
    requires i <= |g|
    requires i < |g| ==> ContainsIgnoreCase(g[i].name, w)
    requires forall j | 0 <= j < i :: !ContainsIgnoreCase(g[j].name, w)
    ensures FirstContaining(g, w) == i
  {
  }

  /** Row `p` is the first row of group `k`, in input order, whose name contains `w`. */
  predicate FirstMatchAt(rows: seq<Row>, k: seq<string>, w: Word, p: int) {
    0 <= p < |rows| && rows[p].key == k && ContainsIgnoreCase(rows[p].name, w)
    && forall j | 0 <= j < p :: rows[j].key == k ==> !ContainsIgnoreCase(rows[j].name, w)
  }

  /** At most one row is the first match. */
  lemma FirstMatchUnique(rows: seq<Row>, k: seq<string>, w: Word, p: int, q: int)
    requires FirstMatchAt(rows, k, w, p) && FirstMatchAt(rows, k, w, q)
    ensures p == q
  {
  }

  /** The first match within a group is the first match among all rows. */
  lemma {:induction false} FirstOfGroup(rows: seq<Row>, k: seq<string>, w: Word)
    ensures var g := Group(rows, k, false);
      FirstContaining(g, w) < |g| ==>
        exists p :: FirstMatchAt(rows, k, w, p) && rows[p] == g[FirstContaining(g, w)]
  {
    if rows != [] {
      var init, x := rows[..|rows| - 1], rows[|rows| - 1];
      assert rows == init + [x];
      var g0 := Group(init, k, false);
      var g := Group(rows, k, false);
      GroupOfSnoc(init, x, k, false);
      FirstOfGroup(init, k, w);
      var i0 := FirstContaining(g0, w);
      if i0 < |g0| {
        FirstContainingIs(g, w, i0);
        var p :| FirstMatchAt(init, k, w, p) && init[p] == g0[i0];
        assert FirstMatchAt(rows, k, w, p);
      } else {
        forall j | 0 <= j < |init| && init[j].key == k
          ensures !ContainsIgnoreCase(init[j].name, w)
        {
          assert init[j] in g0;
        }
        if x.key == k && ContainsIgnoreCase(x.name, w) {
          FirstContainingIs(g, w, |g0|);
          assert FirstMatchAt(rows, k, w, |init|);
        } else {
          FirstContainingIs(g, w, |g|);
        }
      }
    }
  }

  /** The first row of group `k` whose name contains `w`: `group_df.filter(...)[0]`. */
  function Calibration(rows: seq<Row>, k: seq<string>, w: Word): (c: Option<Row>)
    ensures c.Some? ==> exists p :: FirstMatchAt(rows, k, w, p) && rows[p] == c.value
    ensures c.Some? ==> c.value in rows && c.value.key == k && ContainsIgnoreCase(c.value.name, w)
    ensures c.None? <==> forall x <- rows :: x.key == k ==> !ContainsIgnoreCase(x.name, w)
  {
    var g := Group(rows, k, false);
    var i := FirstContaining(g, w);
    FirstOfGroup(rows, k, w);
    if i < |g| then Some(g[i])
    else
      assert forall x <- rows :: x.key == k ==> x in g;
      None
  }

  /** Group `k` has both a reference row and a dark row, so it is not skipped. */
  predicate Contributes(rows: seq<Row>, k: seq<string>) {
    Calibration(rows, k, REF).Some? && Calibration(rows, k, DARK).Some?
  }

  /** A group is kept exactly when some row of it contains `ref` and some row contains `dark`. */
  lemma ContributesIff(rows: seq<Row>, k: seq<string>)
    ensures Contributes(rows, k) <==>
      && (exists x <- rows :: x.key == k && ContainsIgnoreCase(x.name, REF))
      && (exists x <- rows :: x.key == k && ContainsIgnoreCase(x.name, DARK))
  {
  }

  /** Row `x` of the frame `rows` yields an output row. */
  predicate Emitted(rows: seq<Row>, x: Row) {
    Contributes(rows, x.key) && !IsCalibration(x.name)
  }

  /** Every cell is present, so NumPy can do arithmetic on the row. */
  predicate Convertible(x: Row) {
    forall c <- x.cells :: c.Some?
  }

  /** Every row that would be rescaled can be: the condition under which `cal_relative` returns. */
  predicate Computable(rows: seq<Row>) {
    forall x <- rows :: Emitted(rows, x) ==> Convertible(x)
  }

  /** `to_numpy()` of a cell: a null becomes NaN. */
  function AsFloat(c: Option<Num>): Num {
    match c
    case None => NaN
    case Some(n) => n
  }

  /** The `j`-th value of a calibration row (NaN past its end, which a rectangular frame never reaches). */
  function CalibrationValue(cells: seq<Option<Num>>, j: nat): Num {
    if j < |cells| then AsFloat(cells[j]) else NaN
  }

  /** `np.round((m - d) * 100 / (r - d), 2)` for one value. */
  function RelativeCell(m: Num, r: Num, d: Num): (c: Num)
    ensures m.NaN? || r.NaN? || d.NaN? ==> c == NaN
    ensures m.Fin? && r.Fin? && d.Fin? && r.v != d.v ==> c.Fin?
    ensures c.Fin? ==> OnGrid(c.v)
  {
    RoundNum(Divide(TimesPositive(Minus(m, d), 100.0), Minus(r, d)), HalfToEven)
  }

  /** With finite values and distinct calibration values, the cell is the rounded rescaling. */
  lemma RelativeCellFinite(m: real, r: real, d: real)
    requires r != d
    ensures RelativeCell(Fin(m), Fin(r), Fin(d)) == Fin(Round2((m - d) * 100.0 / (r - d), HalfToEven))
    ensures -0.005 <= RelativeCell(Fin(m), Fin(r), Fin(d)).v - (m - d) * 100.0 / (r - d) <= 0.005
  {
    assert Minus(Fin(r), Fin(d)) == Fin(r - d);
    assert Minus(Fin(m), Fin(d)) == Fin(m - d);
  }

  /** The reference row itself maps to 100 and the dark row to 0. */
  lemma CalibrationRowsMapToEnds(r: real, d: real)
    requires r != d
    ensures RelativeCell(Fin(r), Fin(r), Fin(d)) == Fin(100.0)
    ensures RelativeCell(Fin(d), Fin(r), Fin(d)) == Fin(0.0)
  {
    var q := r - d;
    SpanOverSpan(q);
    OnGridWhole(100);
    OnGridWhole(0);
    Round2Fixes(100.0, HalfToEven);
    Round2Fixes(0.0, HalfToEven);
    RelativeCellFinite(r, r, d);
    assert (r - d) * 100.0 / (r - d) == 100.0;
    RelativeCellFinite(d, r, d);
    assert d - d == 0.0;
    assert (d - d) * 100.0 == 0.0;
  }

  lemma SpanOverSpan(q: real)
    requires q != 0.0
    ensures q * 100.0 / q == 100.0 && 0.0 * 100.0 / q == 0.0
  {
  }

  /** Equal reference and dark values divide by zero: NaN for `0/0`, otherwise an infinity of the numerator's sign. */
  lemma EqualCalibration(m: real, c: real)
    ensures m == c ==> RelativeCell(Fin(m), Fin(c), Fin(c)) == NaN
    ensures m != c ==> RelativeCell(Fin(m), Fin(c), Fin(c)) == Inf(m < c)
  {
    assert Minus(Fin(c), Fin(c)) == Fin(0.0);
    assert Minus(Fin(m), Fin(c)) == Fin(m - c);
  }

  /** A finite value against an infinite reference is `0.0`, not a non-finite value. */
  lemma InfiniteReference(m: real, negative: bool, d: real)
    ensures RelativeCell(Fin(m), Inf(negative), Fin(d)) == Fin(0.0)
  {
    assert Minus(Inf(negative), Fin(d)) == Inf(negative);
    assert OnGrid(0.0);
    Round2Fixes(0.0, HalfToEven);
  }

  /** NaN anywhere, including a null calibration value, gives NaN. */
  lemma NaNPropagates(m: Num, r: Num, d: Num)
    requires m == NaN || r == NaN || d == NaN
    ensures RelativeCell(m, r, d) == NaN
  {
  }

  /** `relative_values` for a row with cells `m`, against reference cells `r` and dark cells `d`. */
  function RelativeCells(m: seq<Option<Num>>, r: seq<Option<Num>>, d: seq<Option<Num>>): (cells: seq<Option<Num>>)
    ensures |cells| == |m|
    ensures forall j | 0 <= j < |m| ::
      cells[j] == Some(RelativeCell(AsFloat(m[j]), CalibrationValue(r, j), CalibrationValue(d, j)))
  {
    seq(|m|, j requires 0 <= j < |m| => Some(RelativeCell(AsFloat(m[j]), CalibrationValue(r, j), CalibrationValue(d, j))))
  }

  /** The output row for `x`: its key and name, and its cells rescaled against its group's calibration rows. */
  function RelativeRow(rows: seq<Row>, x: Row): (y: Row)
    requires Contributes(rows, x.key)
    ensures y.key == x.key && y.name == x.name && |y.cells| == |x.cells|
  {
    var r := Calibration(rows, x.key, REF).value;
    var d := Calibration(rows, x.key, DARK).value;
    Row(x.key, x.name, RelativeCells(x.cells, r.cells, d.cells))
  }

  /** The output rows for the rows `s` of the frame `rows`, in the order of `s`. */
  function EmitSeq(rows: seq<Row>, s: seq<Row>): (out: seq<Row>)
    ensures forall y <- out :: exists x <- s :: Emitted(rows, x) && y == RelativeRow(rows, x)
    ensures forall x <- s :: Emitted(rows, x) ==> RelativeRow(rows, x) in out
  {
    if s == [] then []
    else
      var init, x := s[..|s| - 1], s[|s| - 1];
      assert forall z <- s :: z in init || z == x;
      assert forall z <- init :: z in s;
      assert x in s;
      EmitSeq(rows, init) + (if Emitted(rows, x) then [RelativeRow(rows, x)] else [])
  }

  /** All output rows of `cal_relative`, before sorting, in the order of the input rows. */
  function RelativeRows(rows: seq<Row>): (out: seq<Row>)
    ensures forall y <- out :: exists x <- rows :: Emitted(rows, x) && y == RelativeRow(rows, x)
    ensures forall x <- rows :: Emitted(rows, x) ==> RelativeRow(rows, x) in out
  {
    EmitSeq(rows, rows)
  }

  lemma EmitSeqOfSnoc(rows: seq<Row>, s: seq<Row>, x: Row)
    ensures EmitSeq(rows, s + [x]) == EmitSeq(rows, s) + (if Emitted(rows, x) then [RelativeRow(rows, x)] else [])
  {
    assert (s + [x])[..|s|] == s;
  }

  /** Taking the output rows of a group is the same as taking the group of the output rows. */
  lemma {:induction false} GroupOfEmitSeq(rows: seq<Row>, s: seq<Row>, k: seq<string>)
    ensures Group(EmitSeq(rows, s), k, false) == EmitSeq(rows, Group(s, k, false))
  {
    if s != [] {
      var init, x := s[..|s| - 1], s[|s| - 1];
      var tail := if Emitted(rows, x) then [RelativeRow(rows, x)] else [];
      assert EmitSeq(rows, s) == EmitSeq(rows, init) + tail;
      assert Group(s, k, false) == Group(init, k, false) + (if x.key == k then [x] else []);
      GroupOfEmitSeq(rows, init, k);
      if Emitted(rows, x) {
        GroupOfSnoc(EmitSeq(rows, init), RelativeRow(rows, x), k, false);
      } else {
        assert EmitSeq(rows, init) + tail == EmitSeq(rows, init);
      }
      if x.key == k {
        EmitSeqOfSnoc(rows, Group(init, k, false), x);
      }
    }
  }

  lemma EmitSeqOfSkipped(rows: seq<Row>, s: seq<Row>)
    requires forall x <- s :: !Emitted(rows, x)
    ensures EmitSeq(rows, s) == []
  {
  }

  /**
   * All or none per group: a group without a reference or a dark row yields
   * no output row; otherwise its output rows are exactly its rows whose name
   * does not start with `ref`/`dark`, each rescaled, in the group's order.
   */
  lemma GroupOfRelativeRows(rows: seq<Row>, k: seq<string>)
    ensures !Contributes(rows, k) ==> Group(RelativeRows(rows), k, false) == []
    ensures Contributes(rows, k) ==>
      var g := Group(rows, k, false);
      && (forall x <- g :: !IsCalibration(x.name) ==> RelativeRow(rows, x) in Group(RelativeRows(rows), k, false))
      && (forall y <- Group(RelativeRows(rows), k, false) ::
            exists x <- g :: !IsCalibration(x.name) && y == RelativeRow(rows, x))
  {
    GroupOfEmitSeq(rows, rows, k);
    if !Contributes(rows, k) {
      EmitSeqOfSkipped(rows, Group(rows, k, false));
    }
  }

  /** Rescaling keeps each row's key and width, so the output rows fill the input's columns. */
  lemma ShapedRelativeRows(f: Frame)
    requires Shaped(f) && "Name" in f.columns
    ensures Shaped(Frame(f.columns, RelativeRows(f.rows)))
  {
    forall y <- RelativeRows(f.rows)
      ensures |y.key| == NameIndex(f.columns) && |y.cells| == |f.columns| - NameIndex(f.columns) - 1
    {
      var x :| x in f.rows && Emitted(f.rows, x) && y == RelativeRow(f.rows, x);
    }
  }

  /** Every row of `g` is in a contributing group whose reference row is `r` and whose dark row is `d`. */
  predicate CalibratedBy(rows: seq<Row>, g: seq<Row>, r: Row, d: Row) {
    forall x <- g :: Calibration(rows, x.key, REF) == Some(r) && Calibration(rows, x.key, DARK) == Some(d)
  }

  /** The non-calibration rows of `g`, rescaled against reference row `r` and dark row `d`. */
  function Rescaled(g: seq<Row>, r: Row, d: Row): seq<Row> {
    if g == [] then []
    else
      var x := g[|g| - 1];
      Rescaled(g[..|g| - 1], r, d)
        + (if IsCalibration(x.name) then [] else [Row(x.key, x.name, RelativeCells(x.cells, r.cells, d.cells))])
  }

  /** Within a calibrated group, rescaling against `r` and `d` is what `RelativeRows` does. */
  lemma {:induction false} RescaledIsEmitted(rows: seq<Row>, g: seq<Row>, r: Row, d: Row)
    requires CalibratedBy(rows, g, r, d)
    ensures Rescaled(g, r, d) == EmitSeq(rows, g)
  {
    if g != [] {
      var init, x := g[..|g| - 1], g[|g| - 1];
      assert x in g;
      assert CalibratedBy(rows, init, r, d) by {
        forall y <- init ensures y in g {
          var i :| 0 <= i < |init| && init[i] == y;
          assert g[i] == y;
        }
      }
      RescaledIsEmitted(rows, init, r, d);
    }
  }

  lemma RescaledStep(g: seq<Row>, j: nat, r: Row, d: Row)
    requires j < |g|
    ensures g[..j + 1] == g[..j] + [g[j]]
    ensures Rescaled(g[..j + 1], r, d) == Rescaled(g[..j], r, d)
      + (if IsCalibration(g[j].name) then [] else [Row(g[j].key, g[j].name, RelativeCells(g[j].cells, r.cells, d.cells))])
  {
    assert g[..j + 1][..j] == g[..j];
  }

  /**
   * The inner loop of `cal_relative` over the rows of one contributing group,
   * with reference row `r` and dark row `d`: each row whose name does not
   * start with `ref`/`dark` is rescaled and appended to `out`; a null in such
   * a row stops the run and names the row.
   */
  method RescaleGroup(g: seq<Row>, r: Row, d: Row, out: seq<Row>) returns (res: Result<seq<Row>, Row>)
    ensures res.Success? <==> forall x <- g :: !IsCalibration(x.name) ==> Convertible(x)
    ensures res.Success? ==> res.value == out + Rescaled(g, r, d)
    ensures res.Failure? ==> res.error in g && !IsCalibration(res.error.name) && !Convertible(res.error)
  {
    var acc := out;
    var j := 0;
    while j < |g|
      invariant 0 <= j <= |g|
      invariant acc == out + Rescaled(g[..j], r, d)
      invariant forall x <- g[..j] :: !IsCalibration(x.name) ==> Convertible(x)
    {
      var x := g[j];
      RescaledStep(g, j, r, d);
      if !IsCalibration(x.name) {
        if !Convertible(x) {
          return Failure(x);
        }
        var values := RelativeCells(x.cells, r.cells, d.cells);
        acc := acc + [Row(x.key, x.name, values)];
      }
      j := j + 1;
    }
    assert g[..j] == g;
    return Success(acc);
  }

  /** The rows of the groups `ks` that would be rescaled can be. */
  predicate ComputableIn(rows: seq<Row>, ks: seq<seq<string>>) {
    forall x <- rows :: x.key in ks && Emitted(rows, x) ==> Convertible(x)
  }

  /** Group `k` adds `EmitSeq` of its rows to the regrouped output. */
  lemma GroupStep(rows: seq<Row>, ks: seq<seq<string>>, k: seq<string>)
    ensures Regroup(RelativeRows(rows), ks + [k], false)
         == Regroup(RelativeRows(rows), ks, false) + EmitSeq(rows, Group(rows, k, false))
  {
    assert (ks + [k])[..|ks|] == ks;
    GroupOfEmitSeq(rows, rows, k);
  }

  /** A skipped group adds no output row and nothing that could fail. */
  lemma SkipStep(rows: seq<Row>, ks: seq<seq<string>>, k: seq<string>)
    requires !Contributes(rows, k) && ComputableIn(rows, ks)
    ensures Regroup(RelativeRows(rows), ks + [k], false) == Regroup(RelativeRows(rows), ks, false)
    ensures ComputableIn(rows, ks + [k])
  {
    GroupStep(rows, ks, k);
    EmitSeqOfSkipped(rows, Group(rows, k, false));
    assert Regroup(RelativeRows(rows), ks, false) + [] == Regroup(RelativeRows(rows), ks, false);
  }

  /** A contributing group whose rescaled rows have no null keeps the run going. */
  lemma ContributeStep(rows: seq<Row>, ks: seq<seq<string>>, k: seq<string>)
    requires Contributes(rows, k) && ComputableIn(rows, ks)
    requires forall x <- Group(rows, k, false) :: !IsCalibration(x.name) ==> Convertible(x)
    ensures ComputableIn(rows, ks + [k])
  {
    forall x <- rows | x.key in ks + [k] && Emitted(rows, x)
      ensures Convertible(x)
    {
      if x.key == k {
        assert x in Group(rows, k, false);
      }
    }
  }

  lemma TakeOneMore<T>(s: seq<T>, i: nat)
    requires i < |s|
    ensures s[..i + 1] == s[..i] + [s[i]]
  {
  }

  /** After every group, the regrouped output is a permutation of all output rows. */
  lemma FinishStep(rows: seq<Row>, out: seq<Row>)
    requires out == Regroup(RelativeRows(rows), DistinctKeys(rows, false), false)
    requires ComputableIn(rows, DistinctKeys(rows, false))
    ensures Computable(rows)
    ensures multiset(out) == multiset(RelativeRows(rows))
  {
    var keys := DistinctKeys(rows, false);
    var relative := RelativeRows(rows);
    assert forall y <- relative :: y.key in keys;
    RegroupIsPermutation(relative, keys, false);
  }

  /**
   * One pass of the outer loop of `cal_relative`, for group `k`: a group
   * without a reference or a dark row is skipped; otherwise its rows are
   * rescaled onto `out`.
   */
  method RescaleKey(rows: seq<Row>, ks: seq<seq<string>>, k: seq<string>, out: seq<Row>) returns (res: Result<seq<Row>, Row>)
    requires out == Regroup(RelativeRows(rows), ks, false) && ComputableIn(rows, ks)
    ensures res.Success? ==> res.value == Regroup(RelativeRows(rows), ks + [k], false) && ComputableIn(rows, ks + [k])
    ensures res.Failure? ==> res.error in rows && Emitted(rows, res.error) && !Convertible(res.error)
  {
    var g := Group(rows, k, false);
    var ri := FirstContaining(g, REF);
    var di := FirstContaining(g, DARK);
    if ri == |g| || di == |g| {
      SkipStep(rows, ks, k);
      return Success(out);
    }
    assert CalibratedBy(rows, g, g[ri], g[di]);
    RescaledIsEmitted(rows, g, g[ri], g[di]);
    GroupStep(rows, ks, k);
    res := RescaleGroup(g, g[ri], g[di], out);
    if res.Success? {
      ContributeStep(rows, ks, k);
    }
  }

  /** The outer loop of `cal_relative`: the groups of `rows`, one after the other. */
  method RescaleGroups(rows: seq<Row>) returns (res: Result<seq<Row>, Row>)
    ensures res.Success? <==> Computable(rows)
    ensures res.Success? ==> multiset(res.value) == multiset(RelativeRows(rows))
    ensures res.Failure? ==> res.error in rows && Emitted(rows, res.error) && !Convertible(res.error)
  {
    var keys := DistinctKeys(rows, false);
    var out: seq<Row> := [];
    var i := 0;
    while i < |keys|
      invariant 0 <= i <= |keys|
      invariant out == Regroup(RelativeRows(rows), keys[..i], false)
      invariant ComputableIn(rows, keys[..i])
    {
      TakeOneMore(keys, i);
      var step := RescaleKey(rows, keys[..i], keys[i], out);
      if step.Failure? {
        return step;
      }
      out := step.value;
      i := i + 1;
    }
    assert keys[..i] == keys;
    FinishStep(rows, out);
    return Success(out);
  }

  /**
   * `cal_relative`: a null in a row that would be rescaled stops the run;
   * otherwise the result has the input's columns, is sorted by path key and
   * holds exactly the rows of `RelativeRows`, each as often.
   */
  method CalRelative(f: Frame) returns (res: Result<Frame, RelativeError>)
    requires Shaped(f)
    ensures res == Failure(MissingName) <==> "Name" !in f.columns
    ensures "Name" in f.columns ==> (res.Success? <==> Computable(f.rows))
    ensures res.Failure? && res.error.NullMeasurement? ==>
      var x := res.error.row;
      x in f.rows && Emitted(f.rows, x) && !Convertible(x)
    ensures res.Success? ==>
      && res.value.columns == f.columns
      && SortedBy(res.value.rows, false)
      && multiset(res.value.rows) == multiset(RelativeRows(f.rows))
      && Shaped(res.value)
  {
    if "Name" !in f.columns {
      return Failure(MissingName);
    }
    var relative := RescaleGroups(f.rows);
    if relative.Failure? {
      return Failure(NullMeasurement(relative.error));
    }
    ShapedRelativeRows(f);
    ColumnSplit(f.columns);
    var columns := KeyColumns(f.columns) + ["Name"] + ContentColumns(f.columns);
    var sorted := SortBy(relative.value, false);
    assert forall y <- sorted :: y in multiset(RelativeRows(f.rows));
    return Success(Frame(columns, sorted));
  }

  /** `leafref` contains `ref` but does not start with it, and contains no `dark`. */
  lemma LeafrefName()
    ensures ContainsIgnoreCase("leafref", REF) && !IsCalibration("leafref")
    ensures !ContainsIgnoreCase("leafref", DARK)
  {
    var s := "leafref";
    assert s[0] == 'l' && s[1] == 'e' && s[2] == 'a' && s[3] == 'f';
    assert REF[0] == 'r' && DARK[0] == 'd';
    assert MatchesAt(s, 4, REF);
    assert !FoldsTo(s[0], REF[0]) && !FoldsTo(s[0], DARK[0]);
    forall i: nat | i <= |s|
      ensures !MatchesAt(s, i, DARK)
    {
      if i + 4 <= |s| {
        assert !FoldsTo(s[i], DARK[0]);
      }
    }
  }

  lemma DarkName()
    ensures ContainsIgnoreCase("dark", DARK) && IsCalibration("dark")
    ensures !ContainsIgnoreCase("dark", REF)
  {
    var s := "dark";
    assert s[0] == 'd' && s[1] == 'a';
    assert REF[0] == 'r';
    assert MatchesAt(s, 0, DARK);
    forall i: nat | i <= |s|
      ensures !MatchesAt(s, i, REF)
    {
      if i + 3 <= |s| {
        assert !FoldsTo(s[i], REF[0]);
      }
    }
  }

  lemma TwoRowCalibration(x: Row, y: Row)
    requires x.key == y.key
    requires ContainsIgnoreCase(x.name, REF) && !ContainsIgnoreCase(x.name, DARK) && ContainsIgnoreCase(y.name, DARK)
    ensures Calibration([x, y], x.key, REF) == Some(x)
    ensures Calibration([x, y], x.key, DARK) == Some(y)
  {
    var rows := [x, y];
    GroupOfOneKey(rows, x.key, false);
    assert FirstContaining(rows, DARK) == 1 by {
      assert rows[1..] == [y];
    }
  }

  /**
   * A group whose only rows are `x`, whose name contains `ref` but does not
   * start with it, and a dark row `y`: `x` is the reference row and is also
   * rescaled, against itself, to 100.
   */
  lemma ReferenceRescaledAgainstItself(k: seq<string>, p: string, q: string, r: real, d: real)
    requires ContainsIgnoreCase(p, REF) && !ContainsIgnoreCase(p, DARK) && !IsCalibration(p)
    requires ContainsIgnoreCase(q, DARK) && IsCalibration(q)
    requires r != d
    ensures RelativeRows([Row(k, p, [Some(Fin(r))]), Row(k, q, [Some(Fin(d))])]) == [Row(k, p, [Some(Fin(100.0))])]
  {
    var x, y := Row(k, p, [Some(Fin(r))]), Row(k, q, [Some(Fin(d))]);
    TwoRowCalibration(x, y);
    SelfRescaledCells(r, d);
    assert RelativeRow([x, y], x) == Row(k, p, [Some(Fin(100.0))]);
    TwoRowEmit(x, y);
  }

  lemma SelfRescaledCells(r: real, d: real)
    requires r != d
    ensures RelativeCells([Some(Fin(r))], [Some(Fin(r))], [Some(Fin(d))]) == [Some(Fin(100.0))]
  {
    CalibrationRowsMapToEnds(r, d);
    var cells := RelativeCells([Some(Fin(r))], [Some(Fin(r))], [Some(Fin(d))]);
    assert cells[0] == Some(Fin(100.0));
  }

  /** Of two rows of one contributing group, only the first is rescaled. */
  lemma TwoRowEmit(x: Row, y: Row)
    requires Contributes([x, y], x.key) && x.key == y.key
    requires !IsCalibration(x.name) && IsCalibration(y.name)
    ensures RelativeRows([x, y]) == [RelativeRow([x, y], x)]
  {
    var rows := [x, y];
    EmitSeqOfSnoc(rows, [], x);
    EmitSeqOfSnoc(rows, [x], y);
    assert [x] + [y] == rows && [] + [x] == [x];
  }

  /** For example `leafref` with 80 against `dark` with 20 gives `leafref` with 100. */
  lemma LeafrefIsReferenceAndOutput()
    ensures RelativeRows([Row(["A"], "leafref", [Some(Fin(80.0))]), Row(["A"], "dark", [Some(Fin(20.0))])])
         == [Row(["A"], "leafref", [Some(Fin(100.0))])]
  {
    LeafrefName();
    DarkName();
    ReferenceRescaledAgainstItself(["A"], "leafref", "dark", 80.0, 20.0);
  }
}
