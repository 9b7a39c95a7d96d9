/**
 * The helpers of process_mimic_db/utils.py: read_table turns the rows of a CSV file
 * into one dict per data row keyed by the header, get_patient_name builds the
 * subject-id to name table, and show_progress draws a 100-character bar.
 * csv.reader, gzip and the files themselves are not part of this model: a file is
 * given as the sequence of its parsed rows.
 */
module Rows {
  import opened Results
  import opened Text

  /** A CSV row as a dict: column name to text. */
  type Row = map<string, string>

  /** Assigning vals[k] to keys[k] for k = 0, 1, ... in a fresh dict; a repeated key keeps its last value. */
  function Assign<V>(keys: seq<string>, vals: seq<V>): map<string, V>
    requires |keys| <= |vals|
    decreases |keys|
  {
    if keys == [] then map[] else Assign(keys[..|keys| - 1], vals)[keys[|keys| - 1] := vals[|keys| - 1]]
  }

  /** i is the last position holding keys[i]. */
  predicate LastOf(keys: seq<string>, i: int)
    requires 0 <= i < |keys|
  {
    forall j :: i < j < |keys| ==> keys[j] != keys[i]
  }

  /** The dict has exactly the keys assigned, and each holds the value of its last assignment. */
  lemma {:induction false} AssignFacts<V>(keys: seq<string>, vals: seq<V>)
    requires |keys| <= |vals|
    ensures forall k :: k in Assign(keys, vals) <==> k in keys
    ensures forall i :: 0 <= i < |keys| && LastOf(keys, i) ==> Assign(keys, vals)[keys[i]] == vals[i]
  {
    AssignKeys(keys, vals);
    forall i | 0 <= i < |keys| && LastOf(keys, i)
      ensures Assign(keys, vals)[keys[i]] == vals[i]
    {
      AssignAt(keys, vals, i);
    }
  }

  /** The dict has exactly the keys assigned. */
  lemma {:induction false} AssignKeys<V>(keys: seq<string>, vals: seq<V>)
    requires |keys| <= |vals|
    ensures forall k :: k in Assign(keys, vals) <==> k in keys
    decreases |keys|
  {
    if keys != [] {
      var n := |keys| - 1;
      AssignKeys(keys[..n], vals);
      assert keys == keys[..n] + [keys[n]];
    }
  }

  /** The last assignment of a key is the value it keeps. */
  lemma {:induction false} AssignAt<V>(keys: seq<string>, vals: seq<V>, i: nat)
    requires |keys| <= |vals| && i < |keys| && LastOf(keys, i)
    ensures keys[i] in Assign(keys, vals) && Assign(keys, vals)[keys[i]] == vals[i]
    decreases |keys|
  {
    var n := |keys| - 1;
    if i < n {
      var init := keys[..n];
      assert init[i] == keys[i] && keys[n] != keys[i];
      assert LastOf(init, i);
      AssignAt(init, vals, i);
    }
  }

  datatype RowError =
    | StopIteration        // next(reader) on a file with no rows
    | IndexError(row: nat) // a row with too few fields, numbered from 0 among the rows read

  /** The inner loop of read_table: arr[header[k]] = line[k] for every k < len(header). */
  method ZipRow(header: seq<string>, line: seq<string>) returns (r: Option<Row>)
    ensures r.None? <==> |line| < |header|
    ensures r.Some? ==> r.value == Assign(header, line)
  {
    var arr: Row := map[];
    for k := 0 to |header|
      invariant k <= |line|
      invariant arr == Assign(header[..k], line)
    {
      if k >= |line| {
        return None;
      }
      assert header[..k + 1][..k] == header[..k];
      arr := arr[header[k] := line[k]];
    }
    assert header[..|header|] == header;
    return Some(arr);
  }

  /** The loop over the data rows: one dict per row after the header, in file order. */
  method ReadRows(rows: seq<seq<string>>) returns (r: Result<seq<Row>, RowError>)
    ensures rows == [] ==> r == Err(StopIteration)
    ensures rows != [] ==> (r.Err? <==> exists i | 1 <= i < |rows| :: |rows[i]| < |rows[0]|)
    ensures r.Err? && rows != [] ==>
      (r.error.IndexError? && 1 <= r.error.row < |rows| && |rows[r.error.row]| < |rows[0]|
       && forall i :: 1 <= i < r.error.row ==> |rows[i]| >= |rows[0]|)
    ensures r.Ok? ==> (|r.value| == |rows| - 1
      && forall i :: 1 <= i < |rows| ==> |rows[i]| >= |rows[0]| && r.value[i - 1] == Assign(rows[0], rows[i]))
  {
    if rows == [] {
      return Err(StopIteration);
    }
    var header := rows[0];
    var outInfo: seq<Row> := [];
    for i := 1 to |rows|
      invariant |outInfo| == i - 1
      invariant forall k :: 1 <= k < i ==> |rows[k]| >= |header| && outInfo[k - 1] == Assign(header, rows[k])
    {
      var arr := ZipRow(header, rows[i]);
      if arr.None? {
        return Err(IndexError(i));
      }
      outInfo := outInfo + [arr.value];
    }
    return Ok(outInfo);
  }

  predicate EndsWith(s: string, suffix: string) {
    |suffix| <= |s| && s[|s| - |suffix|..] == suffix
  }

  /**
   * read_table(data_dir, data_file): a name ending in .gz is read through gzip, any
   * other directly, and both branches build the same dicts from the same rows.
   */
  method ReadTable(dataDir: string, dataFile: string, rows: seq<seq<string>>) returns (r: Result<seq<Row>, RowError>)
    ensures rows == [] ==> r == Err(StopIteration)
    ensures rows != [] ==> (r.Err? <==> exists i | 1 <= i < |rows| :: |rows[i]| < |rows[0]|)
    ensures r.Ok? ==> (|r.value| == |rows| - 1
      && forall i :: 1 <= i < |rows| ==> r.value[i - 1] == Assign(rows[0], rows[i]))
  {
    var file := PathJoin(dataDir, dataFile);
    if EndsWith(file, ".gz") {
      r := ReadRows(rows);
    } else {
      r := ReadRows(rows);
    }
  }

  /** Field k of every row. */
  function Column(rows: seq<seq<string>>, k: nat): (c: seq<string>)
    requires forall i :: 0 <= i < |rows| ==> |rows[i]| > k
    ensures |c| == |rows| && forall i :: 0 <= i < |rows| ==> c[i] == rows[i][k]
  {
    seq(|rows|, i requires 0 <= i < |rows| => rows[i][k])
  }

  /**
   * get_patient_name: column 0 to column 1 of every row of id2name.csv, later rows
   * overwriting earlier ones; a row with fewer than two fields fails with IndexError.
   */
  method PatientNames(rows: seq<seq<string>>) returns (r: Result<map<string, string>, RowError>)
    ensures r.Err? <==> exists i | 0 <= i < |rows| :: |rows[i]| < 2
    ensures r.Err? ==> (r.error.IndexError? && r.error.row < |rows| && |rows[r.error.row]| < 2
      && forall i :: 0 <= i < r.error.row ==> |rows[i]| >= 2)
    ensures r.Ok? ==> (forall i :: 0 <= i < |rows| ==> |rows[i]| >= 2) && r.value == Assign(Column(rows, 0), Column(rows, 1))
  {
    var names: map<string, string> := map[];
    ghost var ids: seq<string> := [];
    ghost var vals: seq<string> := [];
    for i := 0 to |rows|
      invariant |ids| == i && |vals| == i
      invariant forall k :: 0 <= k < i ==> |rows[k]| >= 2 && ids[k] == rows[k][0] && vals[k] == rows[k][1]
      invariant names == Assign(ids, vals)
    {
      if |rows[i]| < 2 {
        return Err(IndexError(i));
      }
      assert (ids + [rows[i][0]])[..i] == ids;
      ghost var vals' := vals + [rows[i][1]];
      AssignVals(ids, vals, vals');
      ids := ids + [rows[i][0]];
      vals := vals';
      names := names[rows[i][0] := rows[i][1]];
    }
    assert ids == Column(rows, 0) && vals == Column(rows, 1);
    return Ok(names);
  }

  /** Only the values at assigned positions matter. */
  lemma {:induction false} AssignVals<V>(keys: seq<string>, vals: seq<V>, vals': seq<V>)
    requires |keys| <= |vals| && |keys| <= |vals'|
    requires forall k :: 0 <= k < |keys| ==> vals[k] == vals'[k]
    ensures Assign(keys, vals) == Assign(keys, vals')
    decreases |keys|
  {
    if keys != [] {
      AssignVals(keys[..|keys| - 1], vals, vals');
    }
  }

  // ---------------------------------------------------------------- show_progress

  /** The bar of show_progress for the percentage cc: '[' + '>'*cc + ' '*(100-cc) + ']'. */
  function ProgressBar(cc: int): (r: string)
    ensures |r| == 2 + (if cc > 0 then cc else 0) + (if cc < 100 then 100 - cc else 0)
    ensures r[0] == '[' && r[|r| - 1] == ']'
    ensures forall i :: 1 <= i <= cc && i < |r| - 1 ==> r[i] == '>'
    ensures forall i :: 1 <= i < |r| - 1 && i > cc ==> r[i] == ' '
  {
    "[" + Repeat('>', cc) + Repeat(' ', 100 - cc) + "]"
  }

  /** For a percentage in range the bar is 102 characters: cc arrows, then spaces up to the closing bracket. */
  lemma ProgressBarInRange(cc: int)
    requires 0 <= cc <= 100
    ensures |ProgressBar(cc)| == 102
    ensures forall i :: 1 <= i <= 100 ==> (ProgressBar(cc)[i] == '>' <==> i <= cc)
  {
  }

  /** The parts of a concatenation of three texts sit where they were put. */
  lemma Between(a: string, m: string, z: string)
    ensures |a + m + z| == |a| + |m| + |z|
    ensures (a + m + z)[..|a|] == a && (a + m + z)[|a|..|a| + |m|] == m && (a + m + z)[|a| + |m|..] == z
  {
  }

  /** The text written to stdout: the bar, the percentage, a percent sign and a carriage return. */
  function ProgressLine(cc: int): (r: string)
    ensures |r| > |ProgressBar(cc)| + 2
    ensures r[..|ProgressBar(cc)|] == ProgressBar(cc)
    ensures r[|r| - 2..] == "%\r"
    ensures ParseInt(r[|ProgressBar(cc)|..|r| - 2]) == Some(cc)
  {
    ParseIntToString(cc);
    Between(ProgressBar(cc), IntToString(cc), "%\r");
    ProgressBar(cc) + IntToString(cc) + "%\r"
  }
}
