/**
 * build_demographic_table of process_tables.py: the patient rows get NAME, DOB_YEAR
 * and DOD_YEAR, every admission gets its patient's fields, ADMITYEAR, DAYS_STAY and
 * AGE, and the admissions are written as fully quoted CSV lines under a fixed header.
 * The rows come from read_table; the name table from get_patient_name.
 */
module Demographic {
  import opened Results
  import opened Text
  import opened Calendar
  import opened Rows

  datatype TableError =
    | KeyError(key: string)    // a missing dict key
    | ValueError(text: string) // a timestamp strptime rejects, or a year int() rejects

  /** datetime.strptime(s, '%Y-%m-%d %H:%M:%S') */
  function ParseTime(s: string): Result<Timestamp, TableError> {
    match ParseTimestamp(s)
    case None => Err(ValueError(s))
    case Some(t) => Ok(t)
  }

  /** str(date.year) */
  function YearText(t: Timestamp): string {
    IntToString(t.year)
  }

  // ---------------------------------------------------------------- patients

  /** What the patients loop does to one row, or the error it raises. */
  function PatientRow(names: map<string, string>, p: Row): Result<Row, TableError> {
    if "SUBJECT_ID" !in p then Err(KeyError("SUBJECT_ID"))
    else if p["SUBJECT_ID"] !in names then Err(KeyError(p["SUBJECT_ID"]))
    else if "DOB" !in p then Err(KeyError("DOB"))
    else if ParseTime(p["DOB"]).Err? then Err(ParseTime(p["DOB"]).error)
    else if "DOD" !in p then Err(KeyError("DOD"))
    else if |p["DOD"]| > 0 && ParseTime(p["DOD"]).Err? then Err(ParseTime(p["DOD"]).error)
    else
      var dob := ParseTime(p["DOB"]).value;
      var dodYear := if |p["DOD"]| > 0 then YearText(ParseTime(p["DOD"]).value) else "";
      Ok(p["NAME" := names[p["SUBJECT_ID"]]]["DOB_YEAR" := YearText(dob)]["DOD_YEAR" := dodYear])
  }

  /** A processed patient keeps every field other than NAME, DOB_YEAR and DOD_YEAR as it was. */
  lemma PatientRowKeeps(names: map<string, string>, p: Row)
    requires PatientRow(names, p).Ok?
    ensures forall k :: k != "NAME" && k != "DOB_YEAR" && k != "DOD_YEAR" ==>
      (k in PatientRow(names, p).value <==> k in p) && (k in p ==> PatientRow(names, p).value[k] == p[k])
  {
  }

  /**
   * A processed patient is named from the name table, has the year of DOB as DOB_YEAR,
   * and has an empty DOD_YEAR exactly when DOD is empty, the year of DOD otherwise.
   */
  lemma PatientRowFacts(names: map<string, string>, p: Row)
    requires PatientRow(names, p).Ok?
    ensures var q := PatientRow(names, p).value;
      && p["SUBJECT_ID"] in names && q["NAME"] == names[p["SUBJECT_ID"]]
      && ParseTimestamp(p["DOB"]).Some? && ParseInt(q["DOB_YEAR"]) == Some(ParseTimestamp(p["DOB"]).value.year)
      && (q["DOD_YEAR"] == "" <==> p["DOD"] == "")
      && (p["DOD"] != "" ==> ParseTimestamp(p["DOD"]).Some? && ParseInt(q["DOD_YEAR"]) == Some(ParseTimestamp(p["DOD"]).value.year))
  {
    var dob := ParseTime(p["DOB"]).value;
    ParseIntToString(dob.year);
    NatToStringDigits(dob.year);
    if |p["DOD"]| > 0 {
      ParseIntToString(ParseTime(p["DOD"]).value.year);
      NatToStringDigits(ParseTime(p["DOD"]).value.year);
    }
  }

  /** The body of the patients loop for one row. */
  method ProcessPatient(names: map<string, string>, p: Row) returns (r: Result<Row, TableError>)
    ensures r == PatientRow(names, p)
  {
    var itm := p;
    if "SUBJECT_ID" !in itm {
      return Err(KeyError("SUBJECT_ID"));
    }
    if itm["SUBJECT_ID"] !in names {
      return Err(KeyError(itm["SUBJECT_ID"]));
    }
    itm := itm["NAME" := names[itm["SUBJECT_ID"]]];
    if "DOB" !in itm {
      return Err(KeyError("DOB"));
    }
    var dob := ParseTime(itm["DOB"]);
    if dob.Err? {
      return Err(dob.error);
    }
    itm := itm["DOB_YEAR" := YearText(dob.value)];
    if "DOD" !in itm {
      return Err(KeyError("DOD"));
    }
    if |itm["DOD"]| > 0 {
      var dod := ParseTime(itm["DOD"]);
      if dod.Err? {
        return Err(dod.error);
      }
      itm := itm["DOD_YEAR" := YearText(dod.value)];
    } else {
      itm := itm["DOD_YEAR" := ""];
    }
    return Ok(itm);
  }

  /** The patients loop: each row processed in order, stopping at the first error (see MapAllFacts). */
  method ProcessPatients(names: map<string, string>, pats: seq<Row>) returns (r: Result<seq<Row>, TableError>)
    ensures r == MapAll(p => PatientRow(names, p), pats)
  {
    ghost var f := p => PatientRow(names, p);
    var out: seq<Row> := [];
    for i := 0 to |pats|
      invariant MapAll(f, pats[..i]) == Ok(out)
    {
      var itm := ProcessPatient(names, pats[i]);
      MapAllSnoc(f, pats, i, out);
      if itm.Err? {
        return Err(itm.error);
      }
      out := out + [itm.value];
    }
    assert pats[..|pats|] == pats;
    return Ok(out);
  }

  /** The SUBJECT_ID of every row. */
  function SubjectIds(pats: seq<Row>): (ids: seq<string>)
    requires forall i :: 0 <= i < |pats| ==> "SUBJECT_ID" in pats[i]
    ensures |ids| == |pats| && forall i :: 0 <= i < |pats| ==> ids[i] == pats[i]["SUBJECT_ID"]
  {
    seq(|pats|, i requires 0 <= i < |pats| => pats[i]["SUBJECT_ID"])
  }

  /** pat_dic = {ky['SUBJECT_ID']: ky for ky in pat_info}: of two rows of a subject the later one wins. */
  function PatientIndex(pats: seq<Row>): map<string, Row>
    requires forall i :: 0 <= i < |pats| ==> "SUBJECT_ID" in pats[i]
  {
    Assign(SubjectIds(pats), pats)
  }

  /** The index holds exactly the subjects of the rows, each with its last row. */
  lemma PatientIndexFacts(pats: seq<Row>)
    requires forall i :: 0 <= i < |pats| ==> "SUBJECT_ID" in pats[i]
    ensures forall id :: id in PatientIndex(pats) <==> exists i | 0 <= i < |pats| :: pats[i]["SUBJECT_ID"] == id
    ensures forall i :: 0 <= i < |pats| && (forall j :: i < j < |pats| ==> pats[j]["SUBJECT_ID"] != pats[i]["SUBJECT_ID"]) ==>
      PatientIndex(pats)[pats[i]["SUBJECT_ID"]] == pats[i]
  {
    var ids := SubjectIds(pats);
    AssignFacts(ids, pats);
    forall i | 0 <= i < |pats| && (forall j :: i < j < |pats| ==> pats[j]["SUBJECT_ID"] != pats[i]["SUBJECT_ID"])
      ensures PatientIndex(pats)[pats[i]["SUBJECT_ID"]] == pats[i]
    {
      assert LastOf(ids, i);
    }
    forall id | id in PatientIndex(pats)
      ensures exists i | 0 <= i < |pats| :: pats[i]["SUBJECT_ID"] == id
    {
      var i :| 0 <= i < |ids| && ids[i] == id;
    }
  }

  // ---------------------------------------------------------------- admissions

  /** The inner loop: every patient field except ROW_ID and SUBJECT_ID overwrites the admission's. */
  method CopyPatientFields(adm: Row, pat: Row) returns (itm: Row)
    ensures forall k :: k in itm <==> k in adm || (k in pat && k != "ROW_ID" && k != "SUBJECT_ID")
    ensures forall k :: k in pat && k != "ROW_ID" && k != "SUBJECT_ID" ==> itm[k] == pat[k]
    ensures forall k :: k in adm && (k !in pat || k == "ROW_ID" || k == "SUBJECT_ID") ==> itm[k] == adm[k]
  {
    itm := adm;
    var todo := pat.Keys;
    while todo != {}
      invariant todo <= pat.Keys
      invariant forall k :: k in itm <==> k in adm || (k in pat && k !in todo && k != "ROW_ID" && k != "SUBJECT_ID")
      invariant forall k :: k in pat && k !in todo && k != "ROW_ID" && k != "SUBJECT_ID" ==> itm[k] == pat[k]
      invariant forall k :: k in adm && (k !in pat || k in todo || k == "ROW_ID" || k == "SUBJECT_ID") ==> itm[k] == adm[k]
      decreases todo
    {
      var ss :| ss in todo;
      todo := todo - {ss};
      if ss == "ROW_ID" || ss == "SUBJECT_ID" {
        continue;
      }
      itm := itm[ss := pat[ss]];
    }
  }

  /** The MIMIC-III age rule: ages above 89 were shifted by 300 years and are mapped back to start at 89. */
  function AgeOf(raw: int): (age: int)
    ensures raw <= 89 ==> age == raw
    ensures raw > 89 ==> age == raw - 211
    ensures age <= 89 <==> raw <= 300
  {
    if raw > 89 then 89 + raw - 300 else raw
  }

  /** The admission after the inner loop: its patient's fields, but for ROW_ID and SUBJECT_ID, written over it. */
  function WithPatient(adm: Row, pat: Row): Row {
    adm + (pat - {"ROW_ID", "SUBJECT_ID"})
  }

  /** The row CopyPatientFields builds is the admission with its patient's fields merged in. */
  lemma WithPatientFields(adm: Row, pat: Row, itm: Row)
    requires forall k :: k in itm <==> k in adm || (k in pat && k != "ROW_ID" && k != "SUBJECT_ID")
    requires forall k :: k in pat && k != "ROW_ID" && k != "SUBJECT_ID" ==> itm[k] == pat[k]
    requires forall k :: k in adm && (k !in pat || k == "ROW_ID" || k == "SUBJECT_ID") ==> itm[k] == adm[k]
    ensures itm == WithPatient(adm, pat)
  {
  }

  /** The fields computed for an admission carrying its patient's fields: ADMITYEAR, DAYS_STAY and AGE. */
  function Derive(itm: Row): Result<Row, TableError> {
    if "ADMITTIME" !in itm then Err(KeyError("ADMITTIME"))
    else if ParseTime(itm["ADMITTIME"]).Err? then Err(ParseTime(itm["ADMITTIME"]).error)
    else if "DISCHTIME" !in itm then Err(KeyError("DISCHTIME"))
    else if ParseTime(itm["DISCHTIME"]).Err? then Err(ParseTime(itm["DISCHTIME"]).error)
    else if "DOB_YEAR" !in itm then Err(KeyError("DOB_YEAR"))
    else if ParseInt(itm["DOB_YEAR"]).None? then Err(ValueError(itm["DOB_YEAR"]))
    else
      var admit := ParseTime(itm["ADMITTIME"]).value;
      var disch := ParseTime(itm["DISCHTIME"]).value;
      var raw := admit.year - ParseInt(itm["DOB_YEAR"]).value;
      Ok(itm["ADMITYEAR" := YearText(admit)]
            ["DAYS_STAY" := IntToString(DaysBetween(admit, disch))]
            ["AGE" := IntToString(AgeOf(raw))])
  }

  /** An admission joined with its patient: the patient fields, ADMITYEAR, DAYS_STAY and AGE. */
  function AdmissionRow(index: map<string, Row>, adm: Row): Result<Row, TableError> {
    if "SUBJECT_ID" !in adm then Err(KeyError("SUBJECT_ID"))
    else if adm["SUBJECT_ID"] !in index then Err(KeyError(adm["SUBJECT_ID"]))
    else Derive(WithPatient(adm, index[adm["SUBJECT_ID"]]))
  }

  /** A joined admission keeps its own ROW_ID and SUBJECT_ID and takes every other field of its patient. */
  lemma AdmissionRowFields(index: map<string, Row>, adm: Row)
    requires AdmissionRow(index, adm).Ok?
    ensures adm["SUBJECT_ID"] in index
    ensures var itm := AdmissionRow(index, adm).value;
      var pat := index[adm["SUBJECT_ID"]];
      && (forall k :: k in adm && (k == "ROW_ID" || k == "SUBJECT_ID") ==> k in itm && itm[k] == adm[k])
      && (forall k :: k in pat && k != "ROW_ID" && k != "SUBJECT_ID" && k != "ADMITYEAR" && k != "DAYS_STAY" && k != "AGE" ==>
            k in itm && itm[k] == pat[k])
  {
    var joined := WithPatient(adm, index[adm["SUBJECT_ID"]]);
    DeriveKeeps(joined);
  }

  /** Derive adds its three fields and leaves every other field as it was. */
  lemma DeriveKeeps(itm: Row)
    requires Derive(itm).Ok?
    ensures forall k :: k != "ADMITYEAR" && k != "DAYS_STAY" && k != "AGE" ==>
      (k in Derive(itm).value <==> k in itm) && (k in itm ==> Derive(itm).value[k] == itm[k])
  {
  }

  /**
   * ADMITYEAR, DAYS_STAY and AGE read back as the admission year, the whole days of the
   * stay (negative exactly when the discharge comes first), and the age rule applied to
   * the admission year minus DOB_YEAR.
   */
  lemma DeriveValues(itm: Row)
    requires Derive(itm).Ok?
    ensures var out := Derive(itm).value;
      && ParseTimestamp(itm["ADMITTIME"]).Some? && ParseTimestamp(itm["DISCHTIME"]).Some?
      && ParseInt(itm["DOB_YEAR"]).Some?
      && var admit := ParseTimestamp(itm["ADMITTIME"]).value;
         var disch := ParseTimestamp(itm["DISCHTIME"]).value;
         && ParseInt(out["ADMITYEAR"]) == Some(admit.year)
         && ParseInt(out["DAYS_STAY"]) == Some(DaysBetween(admit, disch))
         && (DaysBetween(admit, disch) < 0 <==> Before(disch, admit))
         && ParseInt(out["AGE"]) == Some(AgeOf(admit.year - ParseInt(itm["DOB_YEAR"]).value))
  {
    DeriveText(itm);
    var admit := ParseTimestamp(itm["ADMITTIME"]).value;
    var disch := ParseTimestamp(itm["DISCHTIME"]).value;
    var days := DaysBetween(admit, disch);
    var age := AgeOf(admit.year - ParseInt(itm["DOB_YEAR"]).value);
    var out := Derive(itm).value;
    ReadsBack(out, "ADMITYEAR", admit.year);
    ReadsBack(out, "DAYS_STAY", days);
    ReadsBack(out, "AGE", age);
    DaysBetweenSign(admit, disch);
  }

  /** The texts Derive writes into its three fields. */
  lemma DeriveText(itm: Row)
    requires Derive(itm).Ok?
    ensures ParseTimestamp(itm["ADMITTIME"]).Some? && ParseTimestamp(itm["DISCHTIME"]).Some?
    ensures ParseInt(itm["DOB_YEAR"]).Some?
    ensures var out := Derive(itm).value;
      var admit := ParseTimestamp(itm["ADMITTIME"]).value;
      var disch := ParseTimestamp(itm["DISCHTIME"]).value;
      && "ADMITYEAR" in out && out["ADMITYEAR"] == IntToString(admit.year)
      && "DAYS_STAY" in out && out["DAYS_STAY"] == IntToString(DaysBetween(admit, disch))
      && "AGE" in out && out["AGE"] == IntToString(AgeOf(admit.year - ParseInt(itm["DOB_YEAR"]).value))
  {
  }

  /** A field holding the text of a number reads back as that number. */
  lemma ReadsBack(r: Row, key: string, n: int)
    requires key in r && r[key] == IntToString(n)
    ensures ParseInt(r[key]) == Some(n)
  {
    ParseIntToString(n);
  }

  /** The body of the admissions loop after the patient's fields are copied in. */
  method DeriveFields(joined: Row) returns (r: Result<Row, TableError>)
    ensures r == Derive(joined)
  {
    var itm := joined;
    if "ADMITTIME" !in itm {
      return Err(KeyError("ADMITTIME"));
    }
    var admtime := ParseTime(itm["ADMITTIME"]);
    if admtime.Err? {
      return Err(admtime.error);
    }
    itm := itm["ADMITYEAR" := YearText(admtime.value)];
    if "DISCHTIME" !in itm {
      return Err(KeyError("DISCHTIME"));
    }
    var dctime := ParseTime(itm["DISCHTIME"]);
    if dctime.Err? {
      return Err(dctime.error);
    }
    itm := itm["DAYS_STAY" := IntToString(DaysBetween(admtime.value, dctime.value))];
    if "DOB_YEAR" !in itm {
      return Err(KeyError("DOB_YEAR"));
    }
    var dobYear := ParseInt(itm["DOB_YEAR"]);
    if dobYear.None? {
      return Err(ValueError(itm["DOB_YEAR"]));
    }
    assert itm["DOB_YEAR"] == joined["DOB_YEAR"];
    ParseIntToString(admtime.value.year);
    var age := ParseInt(itm["ADMITYEAR"]).value - dobYear.value;
    ParseIntToString(age);
    if ParseInt(IntToString(age)).value > 89 {
      age := 89 + age - 300;
    }
    itm := itm["AGE" := IntToString(age)];
    return Ok(itm);
  }

  /** The body of the admissions loop for one row. */
  method JoinAdmission(index: map<string, Row>, adm: Row) returns (r: Result<Row, TableError>)
    ensures r == AdmissionRow(index, adm)
  {
    if "SUBJECT_ID" !in adm {
      return Err(KeyError("SUBJECT_ID"));
    }
    if adm["SUBJECT_ID"] !in index {
      return Err(KeyError(adm["SUBJECT_ID"]));
    }
    var itm := CopyPatientFields(adm, index[adm["SUBJECT_ID"]]);
    WithPatientFields(adm, index[adm["SUBJECT_ID"]], itm);
    r := DeriveFields(itm);
  }

  /** The admissions loop: each row joined in order, stopping at the first error (see MapAllFacts). */
  method ProcessAdmissions(index: map<string, Row>, adms: seq<Row>) returns (r: Result<seq<Row>, TableError>)
    ensures r == MapAll(a => AdmissionRow(index, a), adms)
  {
    ghost var f := a => AdmissionRow(index, a);
    var out: seq<Row> := [];
    for i := 0 to |adms|
      invariant MapAll(f, adms[..i]) == Ok(out)
    {
      var itm := JoinAdmission(index, adms[i]);
      MapAllSnoc(f, adms, i, out);
      if itm.Err? {
        return Err(itm.error);
      }
      out := out + [itm.value];
    }
    assert adms[..|adms|] == adms;
    return Ok(out);
  }

  // ---------------------------------------------------------------- DEMOGRAPHIC.csv

  /** The columns of DEMOGRAPHIC.csv, in order. */
  const Header: seq<string> := [
    "SUBJECT_ID", "HADM_ID", "NAME", "MARITAL_STATUS", "AGE", "DOB", "GENDER", "LANGUAGE", "RELIGION",
    "ADMISSION_TYPE", "DAYS_STAY", "INSURANCE", "ETHNICITY", "EXPIRE_FLAG", "ADMISSION_LOCATION",
    "DISCHARGE_LOCATION", "DIAGNOSIS", "DOD", "DOB_YEAR", "DOD_YEAR", "ADMITTIME", "DISCHTIME", "ADMITYEAR"]

  /** '"' + '","'.join(fields) + '"\n' */
  function CsvLine(fields: seq<string>): string {
    "\"" + Join("\",\"", fields) + "\"\n"
  }

  /** The rest of a quoted field (RFC 4180, section 2): a doubled quote is one quote, a single quote ends it. */
  function ReadQuoted(s: string, acc: string): (r: Option<(string, string)>)
    ensures r.Some? ==> |r.value.1| < |s|
    decreases |s|
  {
    if s == [] then None
    else if s[0] == '"' then
      (if |s| >= 2 && s[1] == '"' then ReadQuoted(s[2..], acc + ['"']) else Some((acc, s[1..])))
    else ReadQuoted(s[1..], acc + [s[0]])
  }

  /** Reads a line of quoted fields separated by commas and ended by a newline; None when it is malformed. */
  function DecodeCsvLine(s: string): Option<seq<string>>
    decreases |s|
  {
    if s == [] || s[0] != '"' then None
    else
      match ReadQuoted(s[1..], "")
      case None => None
      case Some((f, rest)) =>
        if rest == "\n" then Some([f])
        else if |rest| > 0 && rest[0] == ',' then
          match DecodeCsvLine(rest[1..])
          case None => None
          case Some(fs) => Some([f] + fs)
        else None
  }

  predicate NoQuote(f: string) {
    forall i :: 0 <= i < |f| ==> f[i] != '"'
  }

  lemma {:induction false} ReadQuotedPlain(f: string, rest: string, acc: string)
    requires NoQuote(f) && (rest == [] || rest[0] != '"')
    ensures ReadQuoted(f + "\"" + rest, acc) == Some((acc + f, rest))
    decreases |f|
  {
    var s := f + "\"" + rest;
    if f == [] {
      assert s == "\"" + rest && s[1..] == rest;
      assert acc + f == acc;
    } else {
      assert s[0] == f[0] && s[1..] == f[1..] + "\"" + rest;
      ReadQuotedPlain(f[1..], rest, acc + [f[0]]);
      assert acc + [f[0]] + f[1..] == acc + f;
    }
  }

  /** A written line reads back as its fields when no field holds a double quote. */
  lemma {:induction false} CsvLineRoundTrip(fields: seq<string>)
    requires fields != [] && forall i :: 0 <= i < |fields| ==> NoQuote(fields[i])
    ensures DecodeCsvLine(CsvLine(fields)) == Some(fields)
    decreases |fields|
  {
    var f := fields[0];
    var line := CsvLine(fields);
    if |fields| == 1 {
      assert Join("\",\"", fields) == f;
      assert line == "\"" + (f + "\"" + "\n");
      assert line[0] == '"' && line[1..] == f + "\"" + "\n";
      ReadQuotedPlain(f, "\n", "");
      assert "" + f == f;
      assert ReadQuoted(line[1..], "") == Some((f, "\n"));
      assert fields == [f];
      assert DecodeCsvLine(line) == Some([f]);
    } else {
      var more := fields[1..];
      CsvLineRoundTrip(more);
      assert Join("\",\"", fields) == f + "\",\"" + Join("\",\"", more);
      assert line == "\"" + (f + "\"" + ("," + CsvLine(more)));
      assert line[1..] == f + "\"" + ("," + CsvLine(more));
      ReadQuotedPlain(f, "," + CsvLine(more), "");
      assert "" + f == f;
      assert ("," + CsvLine(more))[1..] == CsvLine(more);
      assert [f] + more == fields;
    }
  }

  /** The number of double quotes in f. */
  function Quotes(f: string): nat
    decreases |f|
  {
    if f == [] then 0 else Quotes(f[..|f| - 1]) + (if f[|f| - 1] == '"' then 1 else 0)
  }

  /** The total length of the fields. */
  function FieldsLength(fields: seq<string>): nat
    decreases |fields|
  {
    if fields == [] then 0 else |fields[0]| + FieldsLength(fields[1..])
  }

  /** The total number of double quotes in the fields. */
  function FieldsQuotes(fields: seq<string>): nat
    decreases |fields|
  {
    if fields == [] then 0 else Quotes(fields[0]) + FieldsQuotes(fields[1..])
  }

  lemma {:induction false} QuotesAppend(acc: string, c: char)
    ensures Quotes(acc + [c]) == Quotes(acc) + (if c == '"' then 1 else 0)
  {
    assert (acc + [c])[..|acc|] == acc;
  }

  /** A text without quote characters counts none, and the converse. */
  lemma {:induction false} QuotesZero(f: string)
    ensures Quotes(f) == 0 <==> NoQuote(f)
    decreases |f|
  {
    if f != [] {
      var init := f[..|f| - 1];
      QuotesZero(init);
      assert forall i :: 0 <= i < |init| ==> init[i] == f[i];
    }
  }

  lemma {:induction false} FieldsQuotesZero(fields: seq<string>)
    requires FieldsQuotes(fields) == 0
    ensures forall i :: 0 <= i < |fields| ==> NoQuote(fields[i])
    decreases |fields|
  {
    if fields != [] {
      QuotesZero(fields[0]);
      FieldsQuotesZero(fields[1..]);
      assert forall i :: 1 <= i < |fields| ==> fields[i] == fields[1..][i - 1];
    }
  }

  /** Reading a quoted field consumes its text, one extra character per quote it holds, and the closing quote. */
  lemma {:induction false} ReadQuotedLength(s: string, acc: string)
    requires ReadQuoted(s, acc).Some?
    ensures var (g, rest) := ReadQuoted(s, acc).value;
      |s| + |acc| + Quotes(acc) == |g| + Quotes(g) + 1 + |rest|
    decreases |s|
  {
    if s[0] == '"' {
      if |s| >= 2 && s[1] == '"' {
        ReadQuotedLength(s[2..], acc + ['"']);
        QuotesAppend(acc, '"');
      }
    } else {
      ReadQuotedLength(s[1..], acc + [s[0]]);
      QuotesAppend(acc, s[0]);
    }
  }

  /** A line that reads back as gs spends three characters per field and one extra per quote read. */
  lemma {:induction false} DecodeLength(s: string)
    requires DecodeCsvLine(s).Some?
    ensures var gs := DecodeCsvLine(s).value;
      |s| == FieldsLength(gs) + FieldsQuotes(gs) + 3 * |gs|
    decreases |s|
  {
    ReadQuotedLength(s[1..], "");
    var (f, rest) := ReadQuoted(s[1..], "").value;
    if rest != "\n" {
      DecodeLength(rest[1..]);
      var fs := DecodeCsvLine(rest[1..]).value;
      assert ([f] + fs)[1..] == fs;
    }
  }

  lemma {:induction false} JoinLength(sep: string, fields: seq<string>)
    requires fields != []
    ensures |Join(sep, fields)| == FieldsLength(fields) + |sep| * (|fields| - 1)
    decreases |fields|
  {
    if |fields| > 1 {
      JoinLength(sep, fields[1..]);
    }
  }

  /** A written line is its fields, three characters of quoting and separation per field. */
  lemma CsvLineLength(fields: seq<string>)
    requires fields != []
    ensures |CsvLine(fields)| == FieldsLength(fields) + 3 * |fields|
  {
    JoinLength("\",\"", fields);
  }

  /**
   * The writer does not escape quotes: a line holding a field with a double quote never
   * reads back as the fields written. It is malformed, or reads as other fields.
   */
  lemma QuoteBreaksLine(fields: seq<string>)
    requires exists i | 0 <= i < |fields| :: !NoQuote(fields[i])
    ensures DecodeCsvLine(CsvLine(fields)) != Some(fields)
  {
    if DecodeCsvLine(CsvLine(fields)) == Some(fields) {
      DecodeLength(CsvLine(fields));
      CsvLineLength(fields);
      FieldsQuotesZero(fields);
    }
  }

  /** A written line reads back as its fields exactly when no field holds a double quote. */
  lemma CsvLineReadsBack(fields: seq<string>)
    requires fields != []
    ensures DecodeCsvLine(CsvLine(fields)) == Some(fields) <==> forall i :: 0 <= i < |fields| ==> NoQuote(fields[i])
  {
    if forall i :: 0 <= i < |fields| ==> NoQuote(fields[i]) {
      CsvLineRoundTrip(fields);
    } else {
      QuoteBreaksLine(fields);
    }
  }

  /** arr = [itm[wd] for wd in header] */
  function Project(itm: Row): Result<seq<string>, TableError> {
    if forall j :: 0 <= j < |Header| ==> Header[j] in itm then
      Ok(seq(|Header|, j requires 0 <= j < |Header| => itm[Header[j]]))
    else
      Err(KeyError(Header[FirstMissing(itm, 0)]))
  }

  /** The first header position from j on whose column the row lacks. */
  function FirstMissing(itm: Row, j: nat): (k: nat)
    requires j <= |Header| && exists m :: j <= m < |Header| && Header[m] !in itm
    ensures j <= k < |Header| && Header[k] !in itm && forall m :: j <= m < k ==> Header[m] in itm
    decreases |Header| - j
  {
    if Header[j] !in itm then j else FirstMissing(itm, j + 1)
  }

  /** The list comprehension of the writing loop, as the loop it abbreviates. */
  method ProjectRow(itm: Row) returns (r: Result<seq<string>, TableError>)
    ensures r == Project(itm)
  {
    var arr: seq<string> := [];
    for j := 0 to |Header|
      invariant |arr| == j && forall m :: 0 <= m < j ==> Header[m] in itm && arr[m] == itm[Header[m]]
    {
      var wd := Header[j];
      if wd !in itm {
        assert FirstMissing(itm, 0) == j;
        return Err(KeyError(wd));
      }
      arr := arr + [itm[wd]];
    }
    assert arr == seq(|Header|, j requires 0 <= j < |Header| => itm[Header[j]]);
    return Ok(arr);
  }

  /** The line written for one admission, or the KeyError of its first missing column. */
  function RowLine(itm: Row): (r: Result<string, TableError>)
    ensures r.Ok? <==> forall j :: 0 <= j < |Header| ==> Header[j] in itm
  {
    match Project(itm)
    case Err(e) => Err(e)
    case Ok(arr) => Ok(CsvLine(arr))
  }

  /**
   * The writing loop: the header line, then the line of every admission in order; the
   * first admission lacking a column stops it with that column's KeyError (see MapAllFacts).
   */
  method WriteDemographic(adms: seq<Row>) returns (r: Result<seq<string>, TableError>)
    ensures MapAll(RowLine, adms).Err? ==> r == Err(MapAll(RowLine, adms).error)
    ensures MapAll(RowLine, adms).Ok? ==> r == Ok([CsvLine(Header)] + MapAll(RowLine, adms).value)
  {
    var head := CsvLine(Header);
    var body: seq<string> := [];
    for i := 0 to |adms|
      invariant MapAll(RowLine, adms[..i]) == Ok(body)
    {
      var arr := ProjectRow(adms[i]);
      MapAllSnoc(RowLine, adms, i, body);
      if arr.Err? {
        return Err(arr.error);
      }
      body := body + [CsvLine(arr.value)];
    }
    assert adms[..|adms|] == adms;
    return Ok([head] + body);
  }
}
