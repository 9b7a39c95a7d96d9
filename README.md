# MIMIC-SPARQL corpus tooling, modelled in Dafny

This project models the deterministic core of the MIMIC-SPARQL corpus builder and of the training
driver's checkpoint choice. It covers four files.

- `mimic_sparql/convert_sql2sparql_dataset.py` is modelled by `Corpus`, `SparqlTokens` and `Vocab`.
  - `convert_sql2sparql` lower-cases each record's SQL and translates it. It optionally counts the
    records on which the SQL database and the knowledge graph give equal answers. It stores the
    lower-cased SPARQL with its tokens in place of the SQL.
  - `sparql_tokenize` separates RDF typed-literal markers `^^` and splits on whitespace. The
    `"value"^^datatype` form is section 3.3 of RDF 1.1 Concepts and Abstract Syntax.
  - `build_vocab` counts the question and SPARQL tokens of the converted training split with a
    `Counter`. It writes one `token count` line per entry of `most_common()`, skipping blank tokens.
  - The command-line flags choose the mode (simple or complex), the dataset type, and the order of
    the four steps.
- `process_mimic_db/process_tables.py` is modelled by `Demographic`, `Calendar` and `ColumnRules`.
  - The DEMOGRAPHIC table: patient names and birth/death years, the admission join, ADMITYEAR,
    DAYS_STAY and the shifted AGE, and the quoted CSV writer.
  - The column rules of the PRESCRIPTIONS and LAB tables: `drop`, `dropna`, joining two text
    columns, and dropping them again.
- `process_mimic_db/utils.py` is modelled by `Rows`: `read_table`, `get_patient_name` and
  `show_progress`.
- `text2program-for-ehr/trainer/run_trainer.py` is modelled by `Checkpoints`: `get_trainer_config`
  and `find_best_ckpt_by_metric`.

`Results` holds `Option`, `Result` and `MapAll`. `MapAll` is a loop over a list that stops at the
first element raising an exception. `Text` holds the Python string operations the sources use:
`split`/`join`, `str.split()`, `replace`, `lower`, `str(int)`/`int`, repetition, and string
comparison.

Code that works step by step is written as methods with loop invariants. Each method is proved
equal to a function, and the lemmas state that function's properties. Examples are the Counter
update, the patient and admission loops, `read_table` and the CSV writer.

The stored `sql` of a converted record is the lower-cased SPARQL (`Corpus.Converted`). The
original-case text is used only for the graph query (`Corpus.Agrees`).

## Model

| member | source | states |
|---|---|---|
| SparqlTokens.MarkTypedSplitFrom | mimic_sparql/convert_sql2sparql_dataset.py:16 | `' ^^'.join(s.split('^^'))` is the left-to-right scan that puts a space before every non-overlapping `^^` |
| SparqlTokens.WordsOfMarked | mimic_sparql/convert_sql2sparql_dataset.py:16-18 | splitting the marked text on whitespace is the reference scan that ends tokens at whitespace and starts one at every `^^` |
| SparqlTokens.TokenizeIsScan | mimic_sparql/convert_sql2sparql_dataset.py:15-18 | the three steps after split_entity equal the single-pass reference tokeniser |
| SparqlTokens.TokenizeShape | mimic_sparql/convert_sql2sparql_dataset.py:15-18 | every token is non-empty, has no whitespace, and either holds no `^^` or is `^^` followed by text holding no `^^` |
| SparqlTokens.SparqlTokenizeConcat | mimic_sparql/convert_sql2sparql_dataset.py:14-18 | the tokens concatenated give split_entity's output with all whitespace removed: nothing is lost or invented |
| SparqlTokens.RescanJoined | mimic_sparql/convert_sql2sparql_dataset.py:16-18 | a list of well-formed tokens joined with spaces scans back to the same list |
| SparqlTokens.TokenizeIdempotent | mimic_sparql/convert_sql2sparql_dataset.py:15-18 | tokenising the space-joined tokens gives the same tokens |
| SparqlTokens.TypedLiteral | mimic_sparql/convert_sql2sparql_dataset.py:16-18 | a typed literal `v^^t` without spaces is split into exactly `[v, "^^" + t]` |
| SparqlTokens.TypedLiteralExample | mimic_sparql/convert_sql2sparql_dataset.py:16-18 | `"10006"^^xsd:int` becomes the two tokens `"10006"` and `^^xsd:int` |
| Corpus.ParseFlagIff | mimic_sparql/convert_sql2sparql_dataset.py:160-162 | `str(x).lower() == 'true'` holds exactly for the four-letter spellings of true in any letter case |
| Corpus.ParseCommandLine | mimic_sparql/convert_sql2sparql_dataset.py:159-167 | argparse succeeds exactly when the dataset type is absent or one of natural/template; the flags and the type are the ones given, with the defaults otherwise |
| Corpus.PlanDistinct | mimic_sparql/convert_sql2sparql_dataset.py:169-172 | no two steps write the same file and no conversion reads a file that a step writes |
| Corpus.VocabReadsConvertedTrain | mimic_sparql/convert_sql2sparql_dataset.py:130-139 | build_vocab reads exactly the file the train conversion wrote and writes `vocab` in the save directory; the steps never overwrite each other's inputs or outputs |
| Corpus.AnswerTuples | mimic_sparql/convert_sql2sparql_dataset.py:75-83 | each result row becomes the tuple of its cells' `str()` text, row by row and cell by cell |
| Corpus.CountAgreeingAll | mimic_sparql/convert_sql2sparql_dataset.py:101-103 | the correct count equals the number of records exactly when every record's SQL and SPARQL answers are isequal |
| Corpus.TranslateOne | mimic_sparql/convert_sql2sparql_dataset.py:67-110 | one record: the stored SPARQL is the lower-cased clean_text of the translation of the lower-cased SQL, its tokens are sparql_tokenize of it, and it counts as correct exactly when execution is on and the answers agree |
| Corpus.TranslateRecords | mimic_sparql/convert_sql2sparql_dataset.py:64-110 | fails at the first record without a SQL string; otherwise one (SPARQL, tokens) pair per record in order, and the correct count is the agreeing records when execution is on and 0 otherwise |
| Corpus.MergeRecords | mimic_sparql/convert_sql2sparql_dataset.py:115-119 | zip keeps the shorter length; each record gets `sql` and `sql_tok` replaced by the converted pair and keeps every other field |
| Corpus.ConvertSplit | mimic_sparql/convert_sql2sparql_dataset.py:62-119 | KeyError when no record has `sql`; otherwise fails at the first record whose sql is not a string, or returns every record converted and the correct count |
| Corpus.ConvertedRecord | mimic_sparql/convert_sql2sparql_dataset.py:115-119 | a converted record keeps every other field unchanged, gains only `sql_tok`, holds the SPARQL as `sql`, and its tokens concatenate back to the entity-split SPARQL without whitespace |
| Vocab.FieldTokens | mimic_sparql/convert_sql2sparql_dataset.py:141-143 | a field fails exactly when it is missing (KeyError) or holds a value Counter.update cannot iterate |
| Vocab.FirstOrderKeys | mimic_sparql/convert_sql2sparql_dataset.py:137-143 | the Counter's keys, in insertion order, are exactly the tokens seen, each once |
| Vocab.CountPositive | mimic_sparql/convert_sql2sparql_dataset.py:142-143 | a token's count is positive exactly when it was seen |
| Vocab.CounterAdd | mimic_sparql/convert_sql2sparql_dataset.py:142-143 | feeding one token increments a known key or appends a new key with count 1, keeping counts equal to occurrences |
| Vocab.Update | mimic_sparql/convert_sql2sparql_dataset.py:142-143 | `counter.update(items)` leaves the Counter equal to the counts and first-seen order of everything fed so far plus items |
| Vocab.CountTokens | mimic_sparql/convert_sql2sparql_dataset.py:136-143 | the loop over the records fails with the first field error, or ends with the Counter of the whole token stream |
| Vocab.InsertPerm | mimic_sparql/convert_sql2sparql_dataset.py:146 | inserting an entry into the listing adds exactly that entry |
| Vocab.SortDescPerm | mimic_sparql/convert_sql2sparql_dataset.py:146 | most_common lists a permutation of the Counter's entries |
| Vocab.SortDescSorted | mimic_sparql/convert_sql2sparql_dataset.py:146 | most_common lists counts in non-increasing order |
| Vocab.SortDescDistinct | mimic_sparql/convert_sql2sparql_dataset.py:146 | most_common lists each key once |
| Vocab.SortDescStable | mimic_sparql/convert_sql2sparql_dataset.py:146 | entries with equal counts keep the Counter's insertion order (a stable sort) |
| Vocab.EntriesFacts | mimic_sparql/convert_sql2sparql_dataset.py:137-143 | the Counter holds one entry per distinct token, with that token's number of occurrences |
| Vocab.KeptMember | mimic_sparql/convert_sql2sparql_dataset.py:146-153 | an entry is written exactly when it is listed and its token is not blank |
| Vocab.VocabFacts | mimic_sparql/convert_sql2sparql_dataset.py:136-153 | the vocab lines are `token count` for exactly the non-blank tokens seen, with their true counts, distinct, by non-increasing count, ties in first-seen order |
| Vocab.LineReadBack | mimic_sparql/convert_sql2sparql_dataset.py:153 | a vocab line splits back into its token and a count that int() reads back |
| Vocab.WriteLines | mimic_sparql/convert_sql2sparql_dataset.py:146-153 | the writing loop emits one line per listed entry whose token is not blank, in listing order |
| Vocab.BuildVocab | mimic_sparql/convert_sql2sparql_dataset.py:130-153 | build_vocab returns the first field error, or the vocab lines of the whole token stream |
| Text.JoinSplit | mimic_sparql/convert_sql2sparql_dataset.py:16-17 | `sep.join(s.split(sep))` gives back s |
| Text.SplitTwoParts | text2program-for-ehr/trainer/run_trainer.py:50 | `s.split(sep)` has two or more parts exactly when sep occurs in s |
| Text.SplitLast | text2program-for-ehr/trainer/run_trainer.py:50 | the last part of `s.split(sep)` follows the last occurrence of sep and contains no sep |
| Text.RemoveAllSplit | text2program-for-ehr/trainer/run_trainer.py:50 | `s.replace(pat, '')` is the concatenation of `s.split(pat)`, and s itself when pat does not occur |
| Text.WordsShape | mimic_sparql/convert_sql2sparql_dataset.py:18 | `str.split()` yields only non-empty words without whitespace |
| Text.WordsEmptyIffBlank | mimic_sparql/convert_sql2sparql_dataset.py:148 | `len(k.split()) == 0` exactly when k is empty or all whitespace |
| Text.ParseIntToString | mimic_sparql/mimicsql/evaluation/process_mimic_db/process_tables.py:45-46 | `int(str(n)) == n` for every integer |
| Text.LexLessTotal | text2program-for-ehr/trainer/run_trainer.py:60 | Python string comparison orders any two different strings |
| Text.LexLessTransitive | text2program-for-ehr/trainer/run_trainer.py:60 | Python string comparison is transitive |
| Calendar.ParseFormat | mimic_sparql/mimicsql/evaluation/process_mimic_db/process_tables.py:22 | strptime with `%Y-%m-%d %H:%M:%S` reads back the canonical text of every valid timestamp |
| Calendar.FormatParse | mimic_sparql/mimicsql/evaluation/process_mimic_db/process_tables.py:22 | every text the parser accepts is the canonical text of its timestamp |
| Calendar.DaysBetween | mimic_sparql/mimicsql/evaluation/process_mimic_db/process_tables.py:44 | `(b - a).days` is the floor of the second difference divided by 86400 |
| Calendar.SecondsOrder | mimic_sparql/mimicsql/evaluation/process_mimic_db/process_tables.py:44 | calendar order of timestamps agrees with the order of their second counts, and equal counts mean equal timestamps |
| Calendar.DaysBetweenSign | mimic_sparql/mimicsql/evaluation/process_mimic_db/process_tables.py:44 | DAYS_STAY is negative exactly when the discharge precedes the admission, and 0 when they coincide |
| Rows.AssignFacts | mimic_sparql/mimicsql/evaluation/process_mimic_db/utils.py:26-28 | the dict has exactly the header's keys, each holding the field at its last position in the header |
| Rows.ZipRow | mimic_sparql/mimicsql/evaluation/process_mimic_db/utils.py:26-29 | the inner loop fails (IndexError) exactly when the row is shorter than the header, and otherwise builds the header-to-field dict |
| Rows.ReadRows | mimic_sparql/mimicsql/evaluation/process_mimic_db/utils.py:23-29 | StopIteration on an empty file; IndexError at the first short data row; otherwise one dict per data row in file order |
| Rows.ReadTable | mimic_sparql/mimicsql/evaluation/process_mimic_db/utils.py:15-40 | the gzip and the plain branch give the same result: StopIteration, an IndexError exactly when a data row is short, or one dict per data row |
| Rows.PatientNames | mimic_sparql/mimicsql/evaluation/process_mimic_db/utils.py:6-13 | IndexError at the first row with fewer than two fields; otherwise column 0 maps to column 1, later rows overwriting earlier ones |
| Rows.ProgressBarInRange | mimic_sparql/mimicsql/evaluation/process_mimic_db/utils.py:44 | for 0 to 100 percent the bar is 102 characters with exactly the first cc inner positions `>` |
| Rows.ProgressLine | mimic_sparql/mimicsql/evaluation/process_mimic_db/utils.py:44-45 | the text written is the bar, then text that int() reads back as cc, then `%` and a carriage return |
| Demographic.PatientRowKeeps | mimic_sparql/mimicsql/evaluation/process_mimic_db/process_tables.py:20-28 | processing a patient changes only NAME, DOB_YEAR and DOD_YEAR |
| Demographic.PatientRowFacts | mimic_sparql/mimicsql/evaluation/process_mimic_db/process_tables.py:21-28 | NAME is the id's name; DOB_YEAR reads back as the birth year; DOD_YEAR is empty exactly when DOD is, and otherwise reads back as the death year |
| Demographic.ProcessPatient | mimic_sparql/mimicsql/evaluation/process_mimic_db/process_tables.py:21-28 | the per-patient updates give the patient row specified by PatientRow, including its KeyError and ValueError cases |
| Demographic.ProcessPatients | mimic_sparql/mimicsql/evaluation/process_mimic_db/process_tables.py:20-28 | the loop over patients stops at the first failing row, or returns every processed row in order |
| Demographic.PatientIndexFacts | mimic_sparql/mimicsql/evaluation/process_mimic_db/process_tables.py:30 | pat_dic's keys are exactly the patients' ids, and an id maps to the last patient row with that id |
| Demographic.CopyPatientFields | mimic_sparql/mimicsql/evaluation/process_mimic_db/process_tables.py:36-39 | every patient field except ROW_ID and SUBJECT_ID overwrites the admission's; the admission keeps its own other fields |
| Demographic.AgeOf | mimic_sparql/mimicsql/evaluation/process_mimic_db/process_tables.py:45-47 | ages up to 89 are kept and larger ones are shifted down by 211; the result is at most 89 exactly when the raw age is at most 300 |
| Demographic.AdmissionRowFields | mimic_sparql/mimicsql/evaluation/process_mimic_db/process_tables.py:36-39 | a joined admission has the patient's id, keeps its own ROW_ID and SUBJECT_ID, and holds every other patient field that is not derived |
| Demographic.DeriveKeeps | mimic_sparql/mimicsql/evaluation/process_mimic_db/process_tables.py:41-47 | the derivation changes only ADMITYEAR, DAYS_STAY and AGE |
| Demographic.DeriveValues | mimic_sparql/mimicsql/evaluation/process_mimic_db/process_tables.py:41-47 | ADMITYEAR reads back as the admission year, DAYS_STAY as the whole days of the stay (negative exactly when discharge precedes admission), AGE as the shifted age |
| Demographic.DeriveFields | mimic_sparql/mimicsql/evaluation/process_mimic_db/process_tables.py:41-47 | the derivation steps give the row specified by Derive, including its errors |
| Demographic.JoinAdmission | mimic_sparql/mimicsql/evaluation/process_mimic_db/process_tables.py:36-47 | one admission: KeyError for an unknown subject, otherwise the patient fields copied and the three fields derived |
| Demographic.ProcessAdmissions | mimic_sparql/mimicsql/evaluation/process_mimic_db/process_tables.py:34-47 | the loop over admissions stops at the first failing row, or returns every joined row in order |
| Demographic.CsvLineRoundTrip | mimic_sparql/mimicsql/evaluation/process_mimic_db/process_tables.py:56-59 | a line written from fields without a double quote reads back as those fields |
| Demographic.QuoteBreaksLine | mimic_sparql/mimicsql/evaluation/process_mimic_db/process_tables.py:56-59 | quotes are written unescaped, so a line with any field holding a double quote never reads back as the fields written: it is malformed or reads as other fields |
| Demographic.CsvLineLength | mimic_sparql/mimicsql/evaluation/process_mimic_db/process_tables.py:56-59 | a written line is its fields plus three characters of quoting and separation per field |
| Demographic.CsvLineReadsBack | mimic_sparql/mimicsql/evaluation/process_mimic_db/process_tables.py:56-59 | a written line reads back as its fields exactly when no field holds a double quote |
| Demographic.FirstMissing | mimic_sparql/mimicsql/evaluation/process_mimic_db/process_tables.py:58 | the first header column missing from a row, the one whose KeyError is raised |
| Demographic.ProjectRow | mimic_sparql/mimicsql/evaluation/process_mimic_db/process_tables.py:58 | the header's fields of a row in header order, or KeyError for the first missing column |
| Demographic.RowLine | mimic_sparql/mimicsql/evaluation/process_mimic_db/process_tables.py:58-59 | a row can be written exactly when it has every header column |
| Demographic.WriteDemographic | mimic_sparql/mimicsql/evaluation/process_mimic_db/process_tables.py:50-59 | the file is the quoted header line followed by one quoted line per admission, or the first row's KeyError |
| ColumnRules.Without | mimic_sparql/mimicsql/evaluation/process_mimic_db/process_tables.py:108-112 | the remaining columns are exactly the names not dropped, and there are no more of them than before |
| ColumnRules.WithoutInOrder | mimic_sparql/mimicsql/evaluation/process_mimic_db/process_tables.py:108-112 | the remaining columns are the input's columns at exactly the positions not dropped, each once, in the input's order |
| ColumnRules.WithoutTwice | mimic_sparql/mimicsql/evaluation/process_mimic_db/process_tables.py:108-112 | dropping two lists in turn leaves the columns of dropping both at once |
| ColumnRules.Drop | mimic_sparql/mimicsql/evaluation/process_mimic_db/process_tables.py:108-109 | `drop(columns=...)` fails with KeyError naming exactly the missing labels; otherwise removes those columns from the header and every row |
| ColumnRules.KeepCompleteMember | mimic_sparql/mimicsql/evaluation/process_mimic_db/process_tables.py:110 | dropna keeps exactly the rows with a value in every subset column |
| ColumnRules.KeepCompleteAppend | mimic_sparql/mimicsql/evaluation/process_mimic_db/process_tables.py:110 | dropna works row by row, keeping row order |
| ColumnRules.KeepCompleteDropRows | mimic_sparql/mimicsql/evaluation/process_mimic_db/process_tables.py:129-130 | dropna and dropping columns outside its subset commute |
| ColumnRules.DropNa | mimic_sparql/mimicsql/evaluation/process_mimic_db/process_tables.py:110 | KeyError naming exactly the subset labels that are missing; otherwise the same columns and only the complete rows |
| ColumnRules.Joined | mimic_sparql/mimicsql/evaluation/process_mimic_db/process_tables.py:111 | `''.join` of two cells fails (TypeError) exactly when one is missing; otherwise the target holds their concatenation and nothing else changes |
| ColumnRules.JoinColumns | mimic_sparql/mimicsql/evaluation/process_mimic_db/process_tables.py:111 | adding the joined column succeeds exactly when both columns exist and every row has both values; the target is appended to the header if new |
| ColumnRules.JoinAndDropOk | mimic_sparql/mimicsql/evaluation/process_mimic_db/process_tables.py:111-112 | joining then dropping the two columns succeeds exactly when every row has both values |
| ColumnRules.JoinAndDropRows | mimic_sparql/mimicsql/evaluation/process_mimic_db/process_tables.py:111-112 | each row ends up without the two columns and with their concatenation under the target |
| ColumnRules.JoinAndDropColumns | mimic_sparql/mimicsql/evaluation/process_mimic_db/process_tables.py:111-112 | the header loses the two columns and gains the target at the end |
| ColumnRules.PrescriptionsOk | mimic_sparql/mimicsql/evaluation/process_mimic_db/process_tables.py:107-112 | the PRESCRIPTIONS steps succeed exactly when every dropped and dose column is present |
| ColumnRules.PrescriptionsRows | mimic_sparql/mimicsql/evaluation/process_mimic_db/process_tables.py:108-112 | the rows are the dose-complete rows, without the dropped columns, with DRUG_DOSE the value followed by the unit |
| ColumnRules.PrescriptionsColumns | mimic_sparql/mimicsql/evaluation/process_mimic_db/process_tables.py:108-112 | the columns are the input's without the dropped and dose columns, then DRUG_DOSE |
| ColumnRules.LabEventsOk | mimic_sparql/mimicsql/evaluation/process_mimic_db/process_tables.py:129-132 | the LABEVENTS steps succeed exactly when HADM_ID, VALUE, VALUEUOM, ROW_ID and VALUENUM are present |
| ColumnRules.LabEventsRows | mimic_sparql/mimicsql/evaluation/process_mimic_db/process_tables.py:129-132 | the rows are those with HADM_ID, VALUE and VALUEUOM, without ROW_ID and VALUENUM, with VALUE_UNIT the value followed by the unit |
| ColumnRules.LabEventsColumns | mimic_sparql/mimicsql/evaluation/process_mimic_db/process_tables.py:129-132 | the columns are the input's without ROW_ID, VALUENUM, VALUE and VALUEUOM, then VALUE_UNIT |
| ColumnRules.DropWellFormed | mimic_sparql/mimicsql/evaluation/process_mimic_db/process_tables.py:108-109 | drop keeps every row's cells within the header |
| ColumnRules.DropNaWellFormed | mimic_sparql/mimicsql/evaluation/process_mimic_db/process_tables.py:110 | dropna keeps every row's cells within the header |
| ColumnRules.JoinColumnsWellFormed | mimic_sparql/mimicsql/evaluation/process_mimic_db/process_tables.py:111 | the joined column keeps every row's cells within the header |
| Checkpoints.TrainerConfigFor | text2program-for-ehr/trainer/run_trainer.py:23-44 | gpus is the device count with CUDA and 0 without; the accelerator is ddp exactly when gpus > 1; the other settings are the fixed values |
| Checkpoints.BestUnbeaten | text2program-for-ehr/trainer/run_trainer.py:60-62 | no score beats the one max/min picks |
| Checkpoints.IndexOf | text2program-for-ehr/trainer/run_trainer.py:60 | `list.index(v)` is the first position holding v |
| Checkpoints.BestIndexFirst | text2program-for-ehr/trainer/run_trainer.py:60-62 | the chosen index holds an unbeaten score that beats every score before it |
| Checkpoints.StrAboveStrictTotal | text2program-for-ehr/trainer/run_trainer.py:50-60 | string scores are compared by a strict total order |
| Checkpoints.RealBelowStrictTotal | text2program-for-ehr/trainer/run_trainer.py:55-62 | float scores are compared by a strict total order |
| Checkpoints.MinIndex | text2program-for-ehr/trainer/run_trainer.py:62 | `scores.index(min(scores))` is the first position of the smallest score |
| Checkpoints.AccScoreText | text2program-for-ehr/trainer/run_trainer.py:50 | the accuracy score is the text after the last `val_ex_acc=` with `.ckpt` removed, or the whole name with `.ckpt` removed when the marker is absent |
| Checkpoints.LossScore | text2program-for-ehr/trainer/run_trainer.py:55 | IndexError exactly when the name has no `-` |
| Checkpoints.FindBestCkpt | text2program-for-ehr/trainer/run_trainer.py:47-65 | a result is always the directory joined with a listed file; an unknown metric raises an unbound `scores` with max/min and ValueError otherwise |
| Checkpoints.FindBestAcc | text2program-for-ehr/trainer/run_trainer.py:49-53 | for val_ex_acc: ValueError on an empty listing; otherwise the first file with the largest score as a string |
| Checkpoints.FindBestLossErr | text2program-for-ehr/trainer/run_trainer.py:54-62 | for val_loss: a failure is the empty listing, or the first file whose score fails; any file whose score fails, in particular a name without `-`, makes the search fail |
| Checkpoints.FindBestLossMin | text2program-for-ehr/trainer/run_trainer.py:54-62 | for val_loss with every score readable: the first file with the smallest loss |
| Checkpoints.MinOfMapped | text2program-for-ehr/trainer/run_trainer.py:55-62 | the minimum of the mapped scores sits at the first index of the smallest score of any file |

## Left out

- File I/O is not modelled. Files are given as their parsed rows or records, and writes are returned as the lines they contain. This covers json.loads/json.dump, csv.reader, gzip, open, os.listdir and Path(__file__).
- os.listdir's order is taken as the given order of the file names.
- The printing is not modelled: the printed progress, tqdm bars, the accuracy message of convert_sql2sparql and logger.info. The division `correct/len(df)` only feeds that message.
- The translator and the engines are parameters of the model (the `Collaborators` value), because their code is not part of this model. This covers split_entity, SQL2SPARQL.convert, clean_text, isequal, query/execute_sql, rdflib's Graph.parse/query and `toPython()`. These parameters are total functions. An exception raised by convert, clean_text, execute_sql or kg.query cannot be represented, and the model has no error path for it.
- Each result cell's `str()` text is represented by a small cell datatype.
- Float parsing (`float()`) is a parameter returning an optional real. NaN and infinite losses are not modelled, and scores compare as exact reals.
- Checkpoints.TrainerConfigFor: torch.cuda is not modelled. Its availability and device count are inputs.
- pandas.read_csv and the dtype handling are not modelled. The NA detection is reduced to a cell being absent.
- These pandas steps are not modelled: to_csv, to_sql, sort_values, merge (including the D_LABITEMS merge of the LAB table) and the DIAGNOSES and PROCEDURES tables. They are library behaviour outside the listed core.
- ColumnRules.JoinColumns: the model does not say what pandas does with a frame that has no rows. It treats that frame like any other: it succeeds and adds the target column with no cells. pandas (2.x) handles `apply(axis=1)` on an empty frame by a path of its own, which may raise instead. Which one happens depends on the pandas version and is not modelled.
- Vocab.FieldTokens: token fields are taken to be a string, a list of strings, or null. Every other JSON value is reported as NotIterable. This differs from Counter.update in two cases, which the model does not capture. A JSON object is counted through Counter's mapping path (its values added as counts). A list holding non-string items is counted, and the run then fails with AttributeError on `k.split()` while the vocab file is being written.
- Calendar.ParseTimestamp accepts only the zero-padded 19-character form with ASCII digits and a single space. strptime also accepts one-digit fields, matches the space of the format against any run of whitespace and reads non-ASCII decimal digits; the model is weaker here.
- Text.ParseInt reads ASCII decimal digits with an optional leading `-`. Python's int() also accepts a leading `+`, non-ASCII decimal digits, surrounding whitespace and underscores between digits. Only texts produced by str() are read back here.
- Text.Lower lower-cases ASCII letters only. Python's lower() also maps other Unicode letters.
- Rows.ProgressLine takes the percentage cc as input. `int(round(100.0*a/b))` and its floating point are not modelled.
- Demographic.CsvLineRoundTrip holds only for fields without a double quote. The writer does not escape quotes, and Demographic.QuoteBreaksLine proves that any other line fails to read back.
