/**
 * The driver of convert_sql2sparql_dataset.py: the command-line flags, where each
 * mode reads and writes, and convert_sql2sparql, which replaces the SQL of every
 * corpus record by its SPARQL translation and its tokens and, with execution on,
 * counts the records on which both engines give the same answer.
 *
 * The translator, clean_text, split_entity, the two query engines and isequal are
 * not part of this model; they come in as the fields of a Collaborators value.
 */
module Corpus {
  import opened Results
  import opened Text
  import SparqlTokens

  /**
   * A JSON value of one corpus record, as far as the scripts tell values apart: a string, a
   * list of strings, null, or JOther for every other value (a number, a boolean, an object,
   * or a list holding anything but strings), kept as its JSON text.
   */
  datatype Json = JStr(s: string) | JStrList(items: seq<string>) | JNull | JOther(raw: string)

  /** One line of a corpus file: a JSON object. */
  type Record = map<string, Json>

  /** A cell of a result row: a SQL value, or an RDF term after toPython(). */
  datatype Cell = IntCell(n: int) | TextCell(t: string) | NoneCell | OtherCell(shown: string)

  /** str(cell); OtherCell carries the rendering of the values this model does not spell out. */
  function Show(c: Cell): string {
    match c
    case IntCell(n) => IntToString(n)
    case TextCell(t) => t
    case NoneCell => "None"
    case OtherCell(shown) => shown
  }

  /** The arguments of SQL2SPARQL(complex=..., root=...). */
  datatype TranslatorConfig = TranslatorConfig(complex: bool, root: string)

  /** The code outside this model that the driver calls; the bool argument selects the mode's database or graph. */
  datatype Collaborators = Collaborators(
    translate: (TranslatorConfig, string) -> string,
    cleanText: string -> string,
    splitEntity: string -> string,
    executeSql: (bool, string) -> seq<seq<Cell>>,
    queryGraph: (bool, string) -> seq<seq<Cell>>,
    isEqual: (seq<seq<string>>, seq<seq<string>>) -> bool)

  // ---------------------------------------------------------------- modes and flags

  datatype DatasetType = Natural | Template

  function TypeName(t: DatasetType): string {
    match t
    case Natural => "natural"
    case Template => "template"
  }

  /** The key the translator roots its graph at: patients in the complex mode, admissions in the simple one. */
  function RootKey(complex: bool): string {
    if complex then "subject_id" else "hadm_id"
  }

  /** Where convert_sql2sparql writes its output in each mode. */
  function SaveDir(complex: bool, t: DatasetType): string {
    if complex then "./dataset/mimic_sparqlstar/" + TypeName(t) + "/"
    else "./dataset/mimic_sparql/" + TypeName(t) + "/"
  }

  /** Where convert_sql2sparql reads the SQL corpus in each mode. */
  function DataDir(complex: bool, t: DatasetType): string {
    if complex then "./dataset/mimicsqlstar/" + TypeName(t) + "/"
    else "./dataset/mimicsql/mimicsql_" + TypeName(t) + "/"
  }

  /** The directory build_vocab reads from and writes to (written without a trailing slash). */
  function VocabDir(complex: bool, t: DatasetType): string {
    if complex then "./dataset/mimic_sparqlstar/" + TypeName(t)
    else "./dataset/mimic_sparql/" + TypeName(t)
  }

  /** The type= function of --complex and --execution: str(x).lower() == 'true'. */
  function ParseFlag(x: string): bool {
    Lower(x) == "true"
  }

  /** A flag is on exactly when its text is "true" in any mix of upper and lower case. */
  lemma ParseFlagIff(x: string)
    ensures ParseFlag(x) <==>
      |x| == 4 && (x[0] == 't' || x[0] == 'T') && (x[1] == 'r' || x[1] == 'R')
      && (x[2] == 'u' || x[2] == 'U') && (x[3] == 'e' || x[3] == 'E')
  {
    if |x| == 4 {
      var l := Lower(x);
      assert l[0] == LowerChar(x[0]) && l[1] == LowerChar(x[1]);
      assert l[2] == LowerChar(x[2]) && l[3] == LowerChar(x[3]);
      assert l == "true" <==> l[0] == 't' && l[1] == 'r' && l[2] == 'u' && l[3] == 'e';
    }
  }

  /** The command line: each option as given, or None when it is absent. */
  datatype CommandLine = CommandLine(complex: Option<string>, datasetType: Option<string>, execution: Option<string>)

  datatype Settings = Settings(complex: bool, datasetType: DatasetType, execution: bool)

  /** argparse's handling of an optional flag whose default is False. */
  function FlagValue(arg: Option<string>): bool {
    match arg
    case None => false
    case Some(x) => ParseFlag(x)
  }

  /** The parsed arguments; an Err is argparse refusing a --dataset_type outside its choices. */
  function ParseCommandLine(cl: CommandLine): (r: Result<Settings, string>)
    ensures r.Ok? <==> cl.datasetType.None? || cl.datasetType.value in {"natural", "template"}
    ensures r.Ok? ==> r.value.complex == FlagValue(cl.complex) && r.value.execution == FlagValue(cl.execution)
    ensures r.Ok? ==> cl.datasetType == Some(TypeName(r.value.datasetType)) || (cl.datasetType.None? && r.value.datasetType == Natural)
  {
    var t :=
      match cl.datasetType
      case None => Some(Natural)
      case Some(s) => if s == "natural" then Some(Natural) else if s == "template" then Some(Template) else None;
    if t.None? then Err("invalid choice: " + cl.datasetType.value)
    else Ok(Settings(FlagValue(cl.complex), t.value, FlagValue(cl.execution)))
  }

  /** One file operation of a run of the script. */
  datatype Step =
    | Convert(readFrom: string, writeTo: string)
    | BuildVocab(readFrom: string, writeTo: string)

  /** The steps of the main block: the three splits in order, then the vocabulary. */
  function RunPlan(s: Settings): seq<Step> {
    var data := DataDir(s.complex, s.datasetType);
    var save := SaveDir(s.complex, s.datasetType);
    var dir := VocabDir(s.complex, s.datasetType);
    [ Convert(PathJoin(data, "train.json"), PathJoin(save, "train.json")),
      Convert(PathJoin(data, "dev.json"), PathJoin(save, "dev.json")),
      Convert(PathJoin(data, "test.json"), PathJoin(save, "test.json")),
      BuildVocab(PathJoin(dir, "train.json"), PathJoin(dir, "vocab")) ]
  }

  /** A directory written as a prefix, a name and a slash. */
  lemma DirParts(pre: string, name: string)
    requires |pre| > 15 && name != [] && name[|name| - 1] != '/'
    ensures |pre + name + "/"| > 15 && (pre + name + "/")[15] == pre[15]
    ensures (pre + name + "/")[|pre + name + "/"| - 1] == '/'
    ensures pre + name + "/" == (pre + name) + "/"
    ensures pre + name != "" && (pre + name)[|pre + name| - 1] != '/'
  {
    assert (pre + name)[|pre + name| - 1] == name[|name| - 1];
  }

  /** The save directory and the read directory part at index 15, right after "./dataset/mimic". */
  lemma SaveAndDataDirsDiffer(complex: bool, t: DatasetType)
    ensures |SaveDir(complex, t)| > 15 && |DataDir(complex, t)| > 15
    ensures SaveDir(complex, t)[15] == '_' && DataDir(complex, t)[15] == 's'
    ensures SaveDir(complex, t) == VocabDir(complex, t) + "/"
    ensures SaveDir(complex, t)[|SaveDir(complex, t)| - 1] == '/' && DataDir(complex, t)[|DataDir(complex, t)| - 1] == '/'
    ensures VocabDir(complex, t) != "" && VocabDir(complex, t)[|VocabDir(complex, t)| - 1] != '/'
  {
    var name := TypeName(t);
    assert name[|name| - 1] == 'l' || name[|name| - 1] == 'e';
    var save := if complex then "./dataset/mimic_sparqlstar/" else "./dataset/mimic_sparql/";
    var data := if complex then "./dataset/mimicsqlstar/" else "./dataset/mimicsql/mimicsql_";
    assert |save| > 15 && save[15] == '_';
    assert |data| > 15 && data[15] == 's';
    DirParts(save, name);
    DirParts(data, name);
  }

  /** os.path.join on a directory that ends in a slash, or on one that does not. */
  lemma JoinDir(dir: string, f: string)
    requires f != "" && f[0] != '/'
    ensures dir != "" && dir[|dir| - 1] == '/' ==> PathJoin(dir, f) == dir + f
    ensures dir != "" && dir[|dir| - 1] != '/' ==> PathJoin(dir, f) == dir + "/" + f
  {
  }

  /** The paths of the four steps, spelled out with the directories' trailing slashes. */
  lemma PlanPaths(s: Settings)
    ensures var save := SaveDir(s.complex, s.datasetType);
      var data := DataDir(s.complex, s.datasetType);
      && RunPlan(s) == [ Convert(data + "train.json", save + "train.json"),
                         Convert(data + "dev.json", save + "dev.json"),
                         Convert(data + "test.json", save + "test.json"),
                         BuildVocab(save + "train.json", save + "vocab") ]
  {
    var save := SaveDir(s.complex, s.datasetType);
    var data := DataDir(s.complex, s.datasetType);
    var dir := VocabDir(s.complex, s.datasetType);
    SaveAndDataDirsDiffer(s.complex, s.datasetType);
    JoinDir(data, "train.json");
    JoinDir(data, "dev.json");
    JoinDir(data, "test.json");
    JoinDir(save, "train.json");
    JoinDir(save, "dev.json");
    JoinDir(save, "test.json");
    JoinDir(dir, "train.json");
    JoinDir(dir, "vocab");
    assert dir + "/" + "train.json" == save + "train.json";
    assert dir + "/" + "vocab" == save + "vocab";
  }

  /** Four steps laid out as the main block lays them out never collide, for directories that differ at one place. */
  lemma PlanDistinct(save: string, data: string, p: seq<Step>)
    requires |save| > 15 && |data| > 15 && save[15] != data[15]
    requires p == [ Convert(data + "train.json", save + "train.json"),
                    Convert(data + "dev.json", save + "dev.json"),
                    Convert(data + "test.json", save + "test.json"),
                    BuildVocab(save + "train.json", save + "vocab") ]
    ensures forall i, j :: 0 <= i < j < 4 ==> p[i].writeTo != p[j].writeTo
    ensures forall i, j :: 0 <= i < 3 && 0 <= j < 4 ==> p[i].readFrom != p[j].writeTo
  {
    assert |p[0].writeTo| == |save| + 10 && |p[1].writeTo| == |save| + 8;
    assert |p[2].writeTo| == |save| + 9 && |p[3].writeTo| == |save| + 5;
    forall i, j | 0 <= i < 3 && 0 <= j < 4
      ensures p[i].readFrom != p[j].writeTo
    {
      assert p[i].readFrom[15] == data[15];
      assert p[j].writeTo[15] == save[15];
    }
  }

  /**
   * The vocabulary is built from the training split the same run has just written, and
   * is written next to it; no two steps write the same file, and no conversion reads
   * a file that any step writes.
   */
  lemma VocabReadsConvertedTrain(s: Settings)
    ensures |RunPlan(s)| == 4 && RunPlan(s)[3].BuildVocab?
    ensures RunPlan(s)[3].readFrom == RunPlan(s)[0].writeTo
    ensures RunPlan(s)[3].writeTo == SaveDir(s.complex, s.datasetType) + "vocab"
    ensures forall i, j :: 0 <= i < j < 4 ==> RunPlan(s)[i].writeTo != RunPlan(s)[j].writeTo
    ensures forall i, j :: 0 <= i < 3 && 0 <= j < 4 ==> RunPlan(s)[i].readFrom != RunPlan(s)[j].writeTo
  {
    SaveAndDataDirsDiffer(s.complex, s.datasetType);
    PlanPaths(s);
    PlanDistinct(SaveDir(s.complex, s.datasetType), DataDir(s.complex, s.datasetType), RunPlan(s));
  }

  // ---------------------------------------------------------------- one split

  /** The answer of one engine: one tuple per row in the engine's order, each cell rendered with str. */
  function Answers(rows: seq<seq<Cell>>): seq<seq<string>> {
    seq(|rows|, i requires 0 <= i < |rows| => seq(|rows[i]|, j requires 0 <= j < |rows[i]| => Show(rows[i][j])))
  }

  /** The loops that collect sql_answer and sparql_answer. */
  method AnswerTuples(rows: seq<seq<Cell>>) returns (answer: seq<seq<string>>)
    ensures |answer| == |rows|
    ensures forall i :: 0 <= i < |rows| ==> |answer[i]| == |rows[i]|
    ensures forall i, j :: 0 <= i < |rows| && 0 <= j < |rows[i]| ==> answer[i][j] == Show(rows[i][j])
    ensures answer == Answers(rows)
  {
    answer := [];
    for i := 0 to |rows|
      invariant |answer| == i
      invariant forall k :: 0 <= k < i ==> |answer[k]| == |rows[k]|
      invariant forall k, j :: 0 <= k < i && 0 <= j < |rows[k]| ==> answer[k][j] == Show(rows[k][j])
    {
      var temp: seq<string> := [];
      for j := 0 to |rows[i]|
        invariant |temp| == j
        invariant forall m :: 0 <= m < j ==> temp[m] == Show(rows[i][m])
      {
        temp := temp + [Show(rows[i][j])];
      }
      answer := answer + [temp];
    }
    forall i | 0 <= i < |rows|
      ensures answer[i] == Answers(rows)[i]
    {
      assert |answer[i]| == |Answers(rows)[i]|;
    }
  }

  /** The translation of a record's SQL before lower-casing: clean_text(convert(sql.lower())). */
  function Translation(env: Collaborators, complex: bool, sql: string): string {
    env.cleanText(env.translate(TranslatorConfig(complex, RootKey(complex)), Lower(sql)))
  }

  /** Both engines agree on a record: isequal on the SQL answer and the SPARQL answer. */
  predicate Agrees(env: Collaborators, complex: bool, sql: string) {
    env.isEqual(Answers(env.executeSql(complex, Lower(sql))), Answers(env.queryGraph(complex, Translation(env, complex, sql))))
  }

  /** The SQL of a record when it has a "sql" field holding a string. */
  function SqlOf(d: Record): Option<string> {
    if "sql" in d && d["sql"].JStr? then Some(d["sql"].s) else None
  }

  /** Some record has a "sql" field, so the DataFrame has a sql column. */
  predicate HasSqlColumn(data: seq<Record>) {
    exists i | 0 <= i < |data| :: "sql" in data[i]
  }

  /** How many of the records agree; records without a SQL string do not count. */
  function CountAgreeing(env: Collaborators, complex: bool, data: seq<Record>): (n: nat)
    ensures n <= |data|
  {
    if data == [] then 0
    else
      CountAgreeing(env, complex, data[..|data| - 1])
      + (var q := SqlOf(data[|data| - 1]); if q.Some? && Agrees(env, complex, q.value) then 1 else 0)
  }

  /** Every record agrees exactly when the count is the number of records. */
  lemma {:induction false} CountAgreeingAll(env: Collaborators, complex: bool, data: seq<Record>)
    ensures CountAgreeing(env, complex, data) == |data| <==>
      forall i :: 0 <= i < |data| ==> SqlOf(data[i]).Some? && Agrees(env, complex, SqlOf(data[i]).value)
  {
    if data != [] {
      var init := data[..|data| - 1];
      CountAgreeingAll(env, complex, init);
      assert forall i :: 0 <= i < |init| ==> init[i] == data[i];
    }
  }

  /** Why a split cannot be converted. */
  datatype ConvertError =
    | MissingColumn(name: string)  // KeyError: no record has the field
    | NotAString(index: nat)       // AttributeError: .lower() on the record's missing or non-string sql

  /** The records to write and the number of records on which the engines agree. */
  datatype Conversion = Conversion(records: seq<Record>, correct: nat)

  /** The SPARQL that replaces a record's SQL. */
  function Sparql(env: Collaborators, complex: bool, sql: string): string {
    Lower(Translation(env, complex, sql))
  }

  /** A record with its sql replaced by the SPARQL and the SPARQL's tokens added as sql_tok. */
  function Converted(env: Collaborators, complex: bool, d: Record): Record
    requires SqlOf(d).Some?
  {
    var sparql := Sparql(env, complex, SqlOf(d).value);
    d["sql" := JStr(sparql)]["sql_tok" := JStrList(SparqlTokens.SparqlTokenize(env.splitEntity, sparql))]
  }

  /** The per-record loop of convert_sql2sparql: each SPARQL with its tokens, and the agreement count. */
  method TranslateRecords(env: Collaborators, complex: bool, execution: bool, data: seq<Record>)
    returns (r: Result<(seq<(string, seq<string>)>, nat), ConvertError>)
    ensures r.Err? <==> exists i | 0 <= i < |data| :: SqlOf(data[i]).None?
    ensures r.Err? ==>
      r.error.NotAString? && r.error.index < |data| && SqlOf(data[r.error.index]).None?
      && forall k :: 0 <= k < r.error.index ==> SqlOf(data[k]).Some?
    ensures r.Ok? ==> |r.value.0| == |data|
    ensures r.Ok? ==> forall i :: 0 <= i < |data| ==>
      SqlOf(data[i]).Some? && r.value.0[i].0 == Sparql(env, complex, SqlOf(data[i]).value)
      && r.value.0[i].1 == SparqlTokens.SparqlTokenize(env.splitEntity, r.value.0[i].0)
    ensures r.Ok? ==> r.value.1 == if execution then CountAgreeing(env, complex, data) else 0
  {
    var correct := 0;
    var sparqls: seq<(string, seq<string>)> := [];
    for i := 0 to |data|
      invariant |sparqls| == i
      invariant forall k :: 0 <= k < i ==>
        SqlOf(data[k]).Some? && sparqls[k].0 == Sparql(env, complex, SqlOf(data[k]).value)
        && sparqls[k].1 == SparqlTokens.SparqlTokenize(env.splitEntity, sparqls[k].0)
      invariant correct == if execution then CountAgreeing(env, complex, data[..i]) else 0
    {
      var q := SqlOf(data[i]);
      if q.None? {
        return Err(NotAString(i));
      }
      var entry, agrees := TranslateOne(env, complex, execution, q.value);
      assert data[..i + 1][..i] == data[..i];
      if agrees {
        correct := correct + 1;
      }
      sparqls := sparqls + [entry];
    }
    assert data[..|data|] == data;
    return Ok((sparqls, correct));
  }

  /** The body of the per-record loop for a record whose sql is a string. */
  method TranslateOne(env: Collaborators, complex: bool, execution: bool, q: string)
    returns (entry: (string, seq<string>), agrees: bool)
    ensures entry.0 == Sparql(env, complex, q)
    ensures entry.1 == SparqlTokens.SparqlTokenize(env.splitEntity, entry.0)
    ensures agrees <==> execution && Agrees(env, complex, q)
  {
    var sql := Lower(q);
    var sqlAnswer: seq<seq<string>> := [];
    var sparqlAnswer: seq<seq<string>> := [];
    if execution {
      sqlAnswer := AnswerTuples(env.executeSql(complex, sql));
    }
    var sparql := env.cleanText(env.translate(TranslatorConfig(complex, RootKey(complex)), sql));
    agrees := false;
    if execution {
      sparqlAnswer := AnswerTuples(env.queryGraph(complex, sparql));
      agrees := env.isEqual(sqlAnswer, sparqlAnswer);
    }
    sparql := Lower(sparql);
    entry := (sparql, SparqlTokens.SparqlTokenize(env.splitEntity, sparql));
  }

  /** The merge loop: zip stops at the shorter list, and each record gets its sql and sql_tok. */
  method MergeRecords(data: seq<Record>, sparqls: seq<(string, seq<string>)>) returns (out: seq<Record>)
    ensures |out| == if |data| < |sparqls| then |data| else |sparqls|
    ensures forall i :: 0 <= i < |out| ==>
      out[i] == data[i]["sql" := JStr(sparqls[i].0)]["sql_tok" := JStrList(sparqls[i].1)]
  {
    out := [];
    var n := if |data| < |sparqls| then |data| else |sparqls|;
    for i := 0 to n
      invariant |out| == i
      invariant forall k :: 0 <= k < i ==>
        out[k] == data[k]["sql" := JStr(sparqls[k].0)]["sql_tok" := JStrList(sparqls[k].1)]
    {
      var d := data[i];
      d := d["sql" := JStr(sparqls[i].0)];
      d := d["sql_tok" := JStrList(sparqls[i].1)];
      out := out + [d];
    }
  }

  /** convert_sql2sparql on one split, without its file I/O and printing. */
  method ConvertSplit(env: Collaborators, complex: bool, execution: bool, data: seq<Record>)
    returns (r: Result<Conversion, ConvertError>)
    ensures !HasSqlColumn(data) ==> r == Err(MissingColumn("sql"))
    ensures HasSqlColumn(data) ==> (r.Err? <==> exists i | 0 <= i < |data| :: SqlOf(data[i]).None?)
    ensures r.Err? && HasSqlColumn(data) ==>
      r.error.NotAString? && r.error.index < |data| && SqlOf(data[r.error.index]).None?
      && forall k :: 0 <= k < r.error.index ==> SqlOf(data[k]).Some?
    ensures r.Ok? ==> |r.value.records| == |data|
    ensures r.Ok? ==> forall i :: 0 <= i < |data| ==>
      SqlOf(data[i]).Some? && r.value.records[i] == Converted(env, complex, data[i])
    ensures r.Ok? ==> r.value.correct == if execution then CountAgreeing(env, complex, data) else 0
  {
    if !HasSqlColumn(data) {
      return Err(MissingColumn("sql"));
    }
    var t := TranslateRecords(env, complex, execution, data);
    if t.Err? {
      return Err(t.error);
    }
    var records := MergeRecords(data, t.value.0);
    return Ok(Conversion(records, t.value.1));
  }

  /**
   * A converted record keeps every other field as it was, holds the lower-cased SPARQL
   * under sql, and holds under sql_tok tokens that spell out that SPARQL (after
   * split_entity) without its whitespace.
   */
  lemma ConvertedRecord(env: Collaborators, complex: bool, d: Record, k: string)
    requires SqlOf(d).Some? && k != "sql" && k != "sql_tok"
    ensures var sparql := Sparql(env, complex, SqlOf(d).value);
      var out := Converted(env, complex, d);
      (k in out <==> k in d) && (k in d ==> out[k] == d[k])
        && SqlOf(out) == Some(sparql) && out.Keys == d.Keys + {"sql_tok"}
        && Concat(out["sql_tok"].items) == RemoveSpace(env.splitEntity(sparql))
  {
    var sparql := Sparql(env, complex, SqlOf(d).value);
    SparqlTokens.SparqlTokenizeConcat(env.splitEntity, sparql);
  }
}
