/**
 * The column rules of build_prescriptions_table and build_lab_table in process_tables.py.
 * A table read with dtype=str is a frame: its column names and its rows, each row a
 * dict from column name to a text cell or NaN (None). The rules are pandas' drop,
 * dropna(subset=...), and a new column made by ''.join of two string columns.
 * read_csv, to_csv, to_sql and the D_LABITEMS merge are not part of this model.
 */
module ColumnRules {
  import opened Results

  /** A row of a frame: NaN is None. */
  type Cells = map<string, Option<string>>

  datatype Frame = Frame(columns: seq<string>, rows: seq<Cells>)

  datatype FrameError =
    | KeyError(missing: seq<string>) // the labels asked for that the frame lacks, in the order asked
    | TypeError                      // ''.join met a NaN, which is a float, not a str

  /** The cell of column c; a row without the column reads as NaN. */
  function Cell(row: Cells, c: string): Option<string> {
    if c in row then row[c] else None
  }

  function Labels(names: seq<string>): (s: set<string>)
    ensures forall c :: c in s <==> c in names
  {
    set c | c in names
  }

  /** Every row has exactly the frame's columns. */
  predicate WellFormed(f: Frame) {
    forall i :: 0 <= i < |f.rows| ==> f.rows[i].Keys == Labels(f.columns)
  }

  /** The names of xs not in ys, in the order of xs. */
  function Without(xs: seq<string>, ys: seq<string>): (r: seq<string>)
    ensures forall c :: c in r <==> c in xs && c !in ys
    ensures |r| <= |xs|
    decreases |xs|
  {
    if xs == [] then []
    else
      var last := xs[|xs| - 1];
      Without(xs[..|xs| - 1], ys) + (if last in ys then [] else [last])
  }

  /** The positions of xs whose names are not in ys, in increasing order. */
  function KeptAt(xs: seq<string>, ys: seq<string>): seq<nat>
    decreases |xs|
  {
    if xs == [] then []
    else KeptAt(xs[..|xs| - 1], ys) + (if xs[|xs| - 1] in ys then [] else [|xs| - 1])
  }

  /** w is the subsequence of xs at positions p: exactly the positions whose names are not in ys, in increasing order. */
  ghost predicate PicksKept(xs: seq<string>, ys: seq<string>, p: seq<nat>, w: seq<string>) {
    && |p| == |w|
    && (forall k :: 0 <= k < |p| ==> p[k] < |xs| && xs[p[k]] !in ys && w[k] == xs[p[k]])
    && (forall k, l :: 0 <= k < l < |p| ==> p[k] < p[l])
    && (forall i :: 0 <= i < |xs| && xs[i] !in ys ==> i in p)
  }

  /** One more name at the end keeps the picking exact. */
  lemma PicksKeptSnoc(init: seq<string>, last: string, ys: seq<string>, p: seq<nat>, w: seq<string>)
    requires PicksKept(init, ys, p, w)
    ensures PicksKept(init + [last], ys, p + (if last in ys then [] else [|init|]), w + (if last in ys then [] else [last]))
  {
    var xs := init + [last];
    assert forall i :: 0 <= i < |init| ==> xs[i] == init[i];
    if last !in ys {
      var p' := p + [|init|];
      var w' := w + [last];
      assert forall k :: 0 <= k < |p| ==> p'[k] == p[k] && w'[k] == w[k];
    }
  }

  /** The remaining columns are the names of xs not in ys, each at its position, in the order of xs. */
  lemma {:induction false} WithoutInOrder(xs: seq<string>, ys: seq<string>)
    ensures PicksKept(xs, ys, KeptAt(xs, ys), Without(xs, ys))
    decreases |xs|
  {
    if xs != [] {
      var n := |xs| - 1;
      WithoutInOrder(xs[..n], ys);
      PicksKeptSnoc(xs[..n], xs[n], ys, KeptAt(xs[..n], ys), Without(xs[..n], ys));
      assert xs[..n] + [xs[n]] == xs;
    }
  }

  lemma {:induction false} WithoutAppend(xs: seq<string>, y: string, ys: seq<string>)
    ensures Without(xs + [y], ys) == Without(xs, ys) + (if y in ys then [] else [y])
  {
    assert (xs + [y])[..|xs|] == xs;
  }

  /** Dropping in two steps is dropping the union. */
  lemma {:induction false} WithoutTwice(xs: seq<string>, ys: seq<string>, zs: seq<string>)
    ensures Without(Without(xs, ys), zs) == Without(xs, ys + zs)
    decreases |xs|
  {
    if xs != [] {
      var init := xs[..|xs| - 1];
      var last := xs[|xs| - 1];
      WithoutTwice(init, ys, zs);
      if last in ys {
        assert Without(xs, ys) == Without(init, ys);
        assert Without(xs, ys + zs) == Without(init, ys + zs);
      } else {
        assert Without(xs, ys) == Without(init, ys) + [last];
        WithoutAppend(Without(init, ys), last, zs);
        assert Without(xs, ys + zs) == Without(init, ys + zs) + (if last in zs then [] else [last]);
      }
    }
  }

  // ---------------------------------------------------------------- drop(columns=...)

  /** Every row without the labels in gone. */
  function DropRows(rows: seq<Cells>, gone: seq<string>): (r: seq<Cells>)
    ensures |r| == |rows| && forall i :: 0 <= i < |rows| ==> r[i] == rows[i] - Labels(gone)
    decreases |rows|
  {
    if rows == [] then [] else DropRows(rows[..|rows| - 1], gone) + [rows[|rows| - 1] - Labels(gone)]
  }

  /**
   * data.drop(columns=gone): KeyError names every label the frame lacks; otherwise the
   * columns keep their order without those labels, and every row loses them.
   */
  function Drop(f: Frame, gone: seq<string>): (r: Result<Frame, FrameError>)
    ensures r.Ok? <==> forall c :: c in gone ==> c in f.columns
    ensures r.Err? ==> (r.error.KeyError? && r.error.missing != []
      && forall c :: c in r.error.missing <==> c in gone && c !in f.columns)
    ensures r.Ok? ==> (r.value.columns == Without(f.columns, gone)
      && |r.value.rows| == |f.rows| && forall i :: 0 <= i < |f.rows| ==> r.value.rows[i] == f.rows[i] - Labels(gone))
  {
    var missing := Without(gone, f.columns);
    if missing != [] then
      assert missing[0] in gone && missing[0] !in f.columns;
      Err(KeyError(missing))
    else
      Ok(Frame(Without(f.columns, gone), DropRows(f.rows, gone)))
  }

  // ---------------------------------------------------------------- dropna(subset=...)

  /** No NaN in the columns of subset. */
  predicate Complete(row: Cells, subset: seq<string>) {
    forall c :: c in subset ==> Cell(row, c).Some?
  }

  /** The complete rows, in order. */
  function KeepComplete(rows: seq<Cells>, subset: seq<string>): (r: seq<Cells>)
    ensures |r| <= |rows|
    ensures forall i :: 0 <= i < |r| ==> Complete(r[i], subset)
    decreases |rows|
  {
    if rows == [] then []
    else
      var last := rows[|rows| - 1];
      KeepComplete(rows[..|rows| - 1], subset) + (if Complete(last, subset) then [last] else [])
  }

  /** A row survives exactly when it is a row of the input with no NaN in the subset. */
  lemma {:induction false} KeepCompleteMember(rows: seq<Cells>, subset: seq<string>)
    ensures forall row :: row in KeepComplete(rows, subset) <==> row in rows && Complete(row, subset)
    decreases |rows|
  {
    if rows != [] {
      var init := rows[..|rows| - 1];
      KeepCompleteMember(init, subset);
      assert rows == init + [rows[|rows| - 1]];
    }
  }

  /** The filter works row by row: the survivors of two parts are the survivors of each, in order. */
  lemma {:induction false} KeepCompleteAppend(xs: seq<Cells>, ys: seq<Cells>, subset: seq<string>)
    ensures KeepComplete(xs + ys, subset) == KeepComplete(xs, subset) + KeepComplete(ys, subset)
    decreases |ys|
  {
    if ys == [] {
      assert xs + ys == xs;
    } else {
      var init := ys[..|ys| - 1];
      KeepCompleteAppend(xs, init, subset);
      assert (xs + ys)[..|xs + ys| - 1] == xs + init;
    }
  }

  /** A table with no NaN in the subset loses no row. */
  lemma {:induction false} KeepCompleteAll(rows: seq<Cells>, subset: seq<string>)
    requires forall i :: 0 <= i < |rows| ==> Complete(rows[i], subset)
    ensures KeepComplete(rows, subset) == rows
    decreases |rows|
  {
    if rows != [] {
      KeepCompleteAll(rows[..|rows| - 1], subset);
      assert rows == rows[..|rows| - 1] + [rows[|rows| - 1]];
    }
  }

  /** Dropping columns outside the subset and dropping incomplete rows can be done in either order. */
  lemma {:induction false} KeepCompleteDropRows(rows: seq<Cells>, gone: seq<string>, subset: seq<string>)
    requires forall c :: c in subset ==> c !in gone
    ensures KeepComplete(DropRows(rows, gone), subset) == DropRows(KeepComplete(rows, subset), gone)
    decreases |rows|
  {
    if rows != [] {
      var init := rows[..|rows| - 1];
      var last := rows[|rows| - 1];
      KeepCompleteDropRows(init, gone, subset);
      var dropped := DropRows(rows, gone);
      assert dropped == DropRows(init, gone) + [last - Labels(gone)];
      assert Complete(last - Labels(gone), subset) == Complete(last, subset) by {
        assert forall c :: c in subset ==> Cell(last - Labels(gone), c) == Cell(last, c);
      }
      var kept := KeepComplete(init, subset);
      if Complete(last, subset) {
        assert (kept + [last])[..|kept|] == kept;
      }
    }
  }

  /** data.dropna(subset=subset): KeyError names the subset labels the frame lacks; otherwise the complete rows. */
  function DropNa(f: Frame, subset: seq<string>): (r: Result<Frame, FrameError>)
    ensures r.Ok? <==> forall c :: c in subset ==> c in f.columns
    ensures r.Err? ==> (r.error.KeyError? && r.error.missing != []
      && forall c :: c in r.error.missing <==> c in subset && c !in f.columns)
    ensures r.Ok? ==> r.value.columns == f.columns && r.value.rows == KeepComplete(f.rows, subset)
  {
    var missing := Without(subset, f.columns);
    if missing != [] then
      assert missing[0] in subset && missing[0] !in f.columns;
      Err(KeyError(missing))
    else
      Ok(Frame(f.columns, KeepComplete(f.rows, subset)))
  }

  // ---------------------------------------------------------------- data[target] = data[[a, b]].apply(''.join, axis=1)

  /** One row of the apply: ''.join([row[a], row[b]]) stored under target, or TypeError on a NaN. */
  function Joined(row: Cells, a: string, b: string, target: string): (r: Result<Cells, FrameError>)
    ensures r.Ok? <==> Cell(row, a).Some? && Cell(row, b).Some?
    ensures r.Err? ==> r.error == TypeError
    ensures r.Ok? ==> (target in r.value && r.value[target] == Some(Cell(row, a).value + Cell(row, b).value)
      && forall k :: k != target ==> (k in r.value <==> k in row) && (k in row ==> r.value[k] == row[k]))
  {
    match (Cell(row, a), Cell(row, b))
    case (Some(x), Some(y)) => Ok(row[target := Some(x + y)])
    case _ => Err(TypeError)
  }

  /**
   * The new column target holds, in every row, the text of a followed directly by the
   * text of b; it is appended after the other columns unless it already exists. A
   * missing a or b is a KeyError, a NaN in either a TypeError.
   */
  function JoinColumns(f: Frame, a: string, b: string, target: string): (r: Result<Frame, FrameError>)
    ensures r.Ok? <==> (a in f.columns && b in f.columns
      && forall i :: 0 <= i < |f.rows| ==> Cell(f.rows[i], a).Some? && Cell(f.rows[i], b).Some?)
    ensures r.Err? && a in f.columns && b in f.columns ==> r.error == TypeError
    ensures r.Ok? ==> (r.value.columns == (if target in f.columns then f.columns else f.columns + [target])
      && |r.value.rows| == |f.rows|
      && forall i :: 0 <= i < |f.rows| ==> r.value.rows[i] == Joined(f.rows[i], a, b, target).value)
  {
    var missing := Without([a, b], f.columns);
    if missing != [] then
      assert missing[0] in [a, b];
      Err(KeyError(missing))
    else
      JoinRowsFacts(f.rows, a, b, target);
      match MapAll(row => Joined(row, a, b, target), f.rows)
      case Err(e) => Err(e)
      case Ok(rows) => Ok(Frame(if target in f.columns then f.columns else f.columns + [target], rows))
  }

  /** Joining every row succeeds exactly when no row has NaN in a or b, and then keeps the rows in order. */
  lemma JoinRowsFacts(rows: seq<Cells>, a: string, b: string, target: string)
    ensures var m := MapAll(row => Joined(row, a, b, target), rows);
      && (m.Ok? <==> forall i :: 0 <= i < |rows| ==> Cell(rows[i], a).Some? && Cell(rows[i], b).Some?)
      && (m.Err? ==> m.error == TypeError)
      && (m.Ok? ==> |m.value| == |rows| && forall i :: 0 <= i < |rows| ==> m.value[i] == Joined(rows[i], a, b, target).value)
  {
    var g := row => Joined(row, a, b, target);
    MapAllFacts(g, rows);
    var m := MapAll(g, rows);
    if m.Err? {
      var i :| 0 <= i < |rows| && g(rows[i]).Err? && m.error == g(rows[i]).error;
    }
  }

  /** A row once a and b are joined into target and then dropped. */
  function JoinedRow(row: Cells, a: string, b: string, target: string): (r: Cells)
    requires Cell(row, a).Some? && Cell(row, b).Some? && target != a && target != b
    ensures target in r && r[target] == Some(Cell(row, a).value + Cell(row, b).value)
    ensures forall k :: k != target ==> (k in r <==> k in row && k != a && k != b)
    ensures forall k :: k != target && k in r ==> r[k] == row[k]
  {
    Joined(row, a, b, target).value - Labels([a, b])
  }

  /** The new column followed by data.drop(columns=[a, b]): the two sources give way to their join. */
  function JoinAndDrop(f: Frame, a: string, b: string, target: string): Result<Frame, FrameError> {
    match JoinColumns(f, a, b, target)
    case Err(e) => Err(e)
    case Ok(g) => Drop(g, [a, b])
  }

  /** When a and b are columns, the join and drop succeed exactly when no row has NaN in a or b. */
  lemma JoinAndDropOk(f: Frame, a: string, b: string, target: string)
    requires a in f.columns && b in f.columns
    ensures JoinAndDrop(f, a, b, target).Ok? <==>
      forall i :: 0 <= i < |f.rows| ==> Cell(f.rows[i], a).Some? && Cell(f.rows[i], b).Some?
  {
    var j := JoinColumns(f, a, b, target);
    if j.Ok? {
      assert a in j.value.columns && b in j.value.columns;
    }
  }

  /** After the join and drop every row holds target in place of a and b. */
  lemma JoinAndDropRows(f: Frame, a: string, b: string, target: string)
    requires target != a && target != b && JoinAndDrop(f, a, b, target).Ok?
    ensures var out := JoinAndDrop(f, a, b, target).value.rows;
      |out| == |f.rows| && forall i :: 0 <= i < |f.rows| ==>
        Cell(f.rows[i], a).Some? && Cell(f.rows[i], b).Some? && out[i] == JoinedRow(f.rows[i], a, b, target)
  {
    var g := JoinColumns(f, a, b, target).value;
    var out := Drop(g, [a, b]).value.rows;
    forall i | 0 <= i < |f.rows|
      ensures out[i] == JoinedRow(f.rows[i], a, b, target)
    {
      assert g.rows[i] == Joined(f.rows[i], a, b, target).value;
    }
  }

  /** A target that was not a column before is the last column after the join and drop. */
  lemma JoinAndDropColumns(f: Frame, a: string, b: string, target: string)
    requires target != a && target != b && target !in f.columns && JoinAndDrop(f, a, b, target).Ok?
    ensures JoinAndDrop(f, a, b, target).value.columns == Without(f.columns, [a, b]) + [target]
  {
    WithoutAppend(f.columns, target, [a, b]);
  }

  /** The join and drop on a frame whose rows are rows without the columns gone, which hold neither a nor b. */
  lemma JoinAfterDrop(g: Frame, rows: seq<Cells>, gone: seq<string>, a: string, b: string, target: string)
    requires a in g.columns && b in g.columns && target != a && target != b && a !in gone && b !in gone
    requires |g.rows| == |rows| && forall i :: 0 <= i < |rows| ==> g.rows[i] == rows[i] - Labels(gone)
    requires forall i :: 0 <= i < |rows| ==> Cell(rows[i], a).Some? && Cell(rows[i], b).Some?
    ensures forall i :: 0 <= i < |rows| ==>
      Cell(rows[i] - Labels(gone), a) == Cell(rows[i], a) && Cell(rows[i] - Labels(gone), b) == Cell(rows[i], b)
    ensures JoinAndDrop(g, a, b, target).Ok?
    ensures var out := JoinAndDrop(g, a, b, target).value.rows;
      |out| == |rows| && forall i :: 0 <= i < |rows| ==> out[i] == JoinedRow(rows[i] - Labels(gone), a, b, target)
  {
    forall i | 0 <= i < |rows|
      ensures Cell(g.rows[i], a) == Cell(rows[i], a) && Cell(g.rows[i], b) == Cell(rows[i], b)
    {
    }
    JoinAndDropOk(g, a, b, target);
    JoinAndDropRows(g, a, b, target);
  }

  // ---------------------------------------------------------------- PRESCRIPTIONS

  const PrescriptionsDropped: seq<string> := ["ROW_ID", "GSN", "DRUG_NAME_POE", "DRUG_NAME_GENERIC", "NDC",
    "PROD_STRENGTH", "FORM_VAL_DISP", "FORM_UNIT_DISP", "STARTDATE", "ENDDATE"]

  const Doses: seq<string> := ["DOSE_VAL_RX", "DOSE_UNIT_RX"]

  /** The column steps of build_prescriptions_table. */
  function Prescriptions(f: Frame): Result<Frame, FrameError> {
    match Drop(f, PrescriptionsDropped)
    case Err(e) => Err(e)
    case Ok(f1) =>
      match DropNa(f1, Doses)
      case Err(e) => Err(e)
      case Ok(f2) => JoinAndDrop(f2, "DOSE_VAL_RX", "DOSE_UNIT_RX", "DRUG_DOSE")
  }

  /** The steps succeed exactly when the frame has the ten dropped columns and both dose columns. */
  lemma PrescriptionsOk(f: Frame)
    ensures Prescriptions(f).Ok? <==> forall c :: c in PrescriptionsDropped + Doses ==> c in f.columns
  {
    assert "DOSE_VAL_RX" !in PrescriptionsDropped && "DOSE_UNIT_RX" !in PrescriptionsDropped;
    var d1 := Drop(f, PrescriptionsDropped);
    if d1.Ok? {
      var f1 := d1.value;
      assert "DOSE_VAL_RX" in f1.columns <==> "DOSE_VAL_RX" in f.columns;
      assert "DOSE_UNIT_RX" in f1.columns <==> "DOSE_UNIT_RX" in f.columns;
      var d2 := DropNa(f1, Doses);
      if d2.Ok? {
        var f2 := d2.value;
        forall i | 0 <= i < |f2.rows|
          ensures Cell(f2.rows[i], "DOSE_VAL_RX").Some? && Cell(f2.rows[i], "DOSE_UNIT_RX").Some?
        {
          assert Complete(f2.rows[i], Doses);
        }
        JoinAndDropOk(f2, "DOSE_VAL_RX", "DOSE_UNIT_RX", "DRUG_DOSE");
      }
    }
  }

  /**
   * The rows are the input rows with both doses present, in order, each without the ten
   * columns and with DRUG_DOSE, the dose value followed directly by its unit, in place
   * of the two dose columns.
   */
  lemma PrescriptionsRows(f: Frame)
    requires Prescriptions(f).Ok?
    ensures var kept := KeepComplete(f.rows, Doses);
      var out := Prescriptions(f).value.rows;
      |out| == |kept| && forall i :: 0 <= i < |kept| ==>
        Cell(kept[i] - Labels(PrescriptionsDropped), "DOSE_VAL_RX") == Cell(kept[i], "DOSE_VAL_RX")
        && Cell(kept[i] - Labels(PrescriptionsDropped), "DOSE_UNIT_RX") == Cell(kept[i], "DOSE_UNIT_RX")
        && out[i] == JoinedRow(kept[i] - Labels(PrescriptionsDropped), "DOSE_VAL_RX", "DOSE_UNIT_RX", "DRUG_DOSE")
  {
    PrescriptionsOk(f);
    assert "DOSE_VAL_RX" !in PrescriptionsDropped && "DOSE_UNIT_RX" !in PrescriptionsDropped;
    var f1 := Drop(f, PrescriptionsDropped).value;
    var f2 := DropNa(f1, Doses).value;
    var kept := KeepComplete(f.rows, Doses);
    KeepCompleteDropRows(f.rows, PrescriptionsDropped, Doses);
    assert f1.rows == DropRows(f.rows, PrescriptionsDropped);
    assert f2.rows == DropRows(kept, PrescriptionsDropped);
    forall i | 0 <= i < |kept|
      ensures Cell(kept[i], "DOSE_VAL_RX").Some? && Cell(kept[i], "DOSE_UNIT_RX").Some?
    {
      assert Complete(kept[i], Doses);
    }
    JoinAfterDrop(f2, kept, PrescriptionsDropped, "DOSE_VAL_RX", "DOSE_UNIT_RX", "DRUG_DOSE");
  }

  /** With no DRUG_DOSE column before, the columns are the input's without the twelve, then DRUG_DOSE. */
  lemma PrescriptionsColumns(f: Frame)
    requires Prescriptions(f).Ok? && "DRUG_DOSE" !in f.columns
    ensures Prescriptions(f).value.columns == Without(f.columns, PrescriptionsDropped + Doses) + ["DRUG_DOSE"]
  {
    PrescriptionsOk(f);
    var f1 := Drop(f, PrescriptionsDropped).value;
    var f2 := DropNa(f1, Doses).value;
    JoinAndDropColumns(f2, "DOSE_VAL_RX", "DOSE_UNIT_RX", "DRUG_DOSE");
    WithoutTwice(f.columns, PrescriptionsDropped, Doses);
  }

  // ---------------------------------------------------------------- LAB (the LABEVENTS side)

  const LabRequired: seq<string> := ["HADM_ID", "VALUE", "VALUEUOM"]

  const LabDropped: seq<string> := ["ROW_ID", "VALUENUM"]

  /** The column steps of build_lab_table on LABEVENTS, before the merge. */
  function LabEvents(f: Frame): Result<Frame, FrameError> {
    match DropNa(f, LabRequired)
    case Err(e) => Err(e)
    case Ok(f1) =>
      match Drop(f1, LabDropped)
      case Err(e) => Err(e)
      case Ok(f2) => JoinAndDrop(f2, "VALUE", "VALUEUOM", "VALUE_UNIT")
  }

  /** The steps succeed exactly when the frame has HADM_ID, VALUE, VALUEUOM, ROW_ID and VALUENUM. */
  lemma LabEventsOk(f: Frame)
    ensures LabEvents(f).Ok? <==> forall c :: c in LabRequired + LabDropped ==> c in f.columns
  {
    assert forall c :: c in LabRequired + LabDropped <==> c in LabRequired || c in LabDropped;
    var d1 := DropNa(f, LabRequired);
    if d1.Ok? {
      var f1 := d1.value;
      var d2 := Drop(f1, LabDropped);
      if d2.Ok? {
        var f2 := d2.value;
        assert "VALUE" in f2.columns && "VALUEUOM" in f2.columns;
        assert f2.rows == DropRows(f1.rows, LabDropped);
        CompleteAfterDrop(f1.rows, LabRequired, LabDropped, "VALUE", "VALUEUOM");
        JoinAndDropOk(f2, "VALUE", "VALUEUOM", "VALUE_UNIT");
      }
    }
  }

  /** Rows with no NaN in the subset keep two of its columns non-NaN when other columns are dropped. */
  lemma CompleteAfterDrop(rows: seq<Cells>, subset: seq<string>, gone: seq<string>, a: string, b: string)
    requires a in subset && b in subset && a !in gone && b !in gone
    requires forall i :: 0 <= i < |rows| ==> Complete(rows[i], subset)
    ensures forall i :: 0 <= i < |rows| ==>
      Cell(DropRows(rows, gone)[i], a).Some? && Cell(DropRows(rows, gone)[i], b).Some?
  {
    forall i | 0 <= i < |rows|
      ensures Cell(DropRows(rows, gone)[i], a).Some? && Cell(DropRows(rows, gone)[i], b).Some?
    {
      assert Cell(rows[i], a).Some? && Cell(rows[i], b).Some?;
    }
  }

  /**
   * The rows are the input rows with HADM_ID, VALUE and VALUEUOM all present, in order,
   * each without ROW_ID and VALUENUM and with VALUE_UNIT, the value followed directly by
   * its unit, in place of VALUE and VALUEUOM.
   */
  lemma LabEventsRows(f: Frame)
    requires LabEvents(f).Ok?
    ensures var kept := KeepComplete(f.rows, LabRequired);
      var out := LabEvents(f).value.rows;
      |out| == |kept| && forall i :: 0 <= i < |kept| ==>
        Cell(kept[i] - Labels(LabDropped), "VALUE") == Cell(kept[i], "VALUE")
        && Cell(kept[i] - Labels(LabDropped), "VALUEUOM") == Cell(kept[i], "VALUEUOM")
        && out[i] == JoinedRow(kept[i] - Labels(LabDropped), "VALUE", "VALUEUOM", "VALUE_UNIT")
  {
    var f1 := DropNa(f, LabRequired).value;
    var kept := KeepComplete(f.rows, LabRequired);
    assert f1.rows == kept;
    assert "VALUE" in f1.columns && "VALUEUOM" in f1.columns;
    var f2 := Drop(f1, LabDropped).value;
    assert "VALUE" in f2.columns && "VALUEUOM" in f2.columns;
    forall i | 0 <= i < |kept|
      ensures Cell(kept[i], "VALUE").Some? && Cell(kept[i], "VALUEUOM").Some?
    {
      assert Complete(kept[i], LabRequired);
    }
    JoinAfterDrop(f2, kept, LabDropped, "VALUE", "VALUEUOM", "VALUE_UNIT");
  }

  /** With no VALUE_UNIT column before, the columns are the input's without the four, then VALUE_UNIT. */
  lemma LabEventsColumns(f: Frame)
    requires LabEvents(f).Ok? && "VALUE_UNIT" !in f.columns
    ensures LabEvents(f).value.columns == Without(f.columns, LabDropped + ["VALUE", "VALUEUOM"]) + ["VALUE_UNIT"]
  {
    LabEventsOk(f);
    var f2 := Drop(DropNa(f, LabRequired).value, LabDropped).value;
    JoinAndDropColumns(f2, "VALUE", "VALUEUOM", "VALUE_UNIT");
    WithoutTwice(f.columns, LabDropped, ["VALUE", "VALUEUOM"]);
  }

  // ---------------------------------------------------------------- frames stay well formed

  lemma DropWellFormed(f: Frame, gone: seq<string>)
    requires WellFormed(f) && Drop(f, gone).Ok?
    ensures WellFormed(Drop(f, gone).value)
  {
  }

  lemma DropNaWellFormed(f: Frame, subset: seq<string>)
    requires WellFormed(f) && DropNa(f, subset).Ok?
    ensures WellFormed(DropNa(f, subset).value)
  {
    var g := DropNa(f, subset).value;
    KeepCompleteMember(f.rows, subset);
    forall i | 0 <= i < |g.rows|
      ensures g.rows[i].Keys == Labels(g.columns)
    {
      assert g.rows[i] in f.rows;
    }
  }

  lemma JoinColumnsWellFormed(f: Frame, a: string, b: string, target: string)
    requires WellFormed(f) && JoinColumns(f, a, b, target).Ok?
    ensures WellFormed(JoinColumns(f, a, b, target).value)
  {
  }
}
