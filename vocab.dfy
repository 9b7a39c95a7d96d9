/**
 * build_vocab of convert_sql2sparql_dataset.py: a Counter fed with the question
 * tokens and then the SPARQL tokens of every training record, listed by
 * most_common() and written one "token count" line per entry, skipping blank tokens.
 */
module Vocab {
  import opened Results
  import opened Text
  import opened Corpus

  // ---------------------------------------------------------------- what the Counter is fed

  datatype VocabError =
    | MissingField(key: string)            // KeyError on dic[key]
    | NotIterable(key: string, index: nat) // TypeError from Counter.update on record index

  /** The elements Counter.update iterates over for one field of a record. */
  function FieldTokens(d: Record, key: string, index: nat): (r: Result<seq<string>, VocabError>)
    ensures r.Err? <==> key !in d || d[key].JOther?
  {
    if key !in d then Err(MissingField(key))
    else match d[key]
      case JStrList(items) => Ok(items)
      case JStr(s) => Ok(seq(|s|, i requires 0 <= i < |s| => [s[i]]))
      case JNull => Ok([])
      case JOther(_) => Err(NotIterable(key, index))
  }

  /** Every token the Counter sees, in order: per record, question_refine_tok then sql_tok. */
  function Stream(data: seq<Record>): Result<seq<string>, VocabError>
    decreases |data|
  {
    if data == [] then Ok([])
    else
      var n := |data| - 1;
      match Stream(data[..n])
      case Err(e) => Err(e)
      case Ok(s) =>
        match FieldTokens(data[n], "question_refine_tok", n)
        case Err(e) => Err(e)
        case Ok(q) =>
          match FieldTokens(data[n], "sql_tok", n)
          case Err(e) => Err(e)
          case Ok(t) => Ok(s + q + t)
  }

  // ---------------------------------------------------------------- the Counter

  /** How often w occurs in s. */
  function Count(s: seq<string>, w: string): nat
    decreases |s|
  {
    if s == [] then 0 else Count(s[..|s| - 1], w) + (if s[|s| - 1] == w then 1 else 0)
  }

  /** The distinct elements of s in the order of their first occurrence: a Counter's key order. */
  function FirstOrder(s: seq<string>): seq<string>
    decreases |s|
  {
    if s == [] then []
    else
      var o := FirstOrder(s[..|s| - 1]);
      if s[|s| - 1] in o then o else o + [s[|s| - 1]]
  }

  predicate Distinct(o: seq<string>) {
    forall i, j :: 0 <= i < j < |o| ==> o[i] != o[j]
  }

  /** The Counter's keys are exactly the tokens seen, each once. */
  lemma {:induction false} FirstOrderKeys(s: seq<string>)
    ensures forall w :: w in FirstOrder(s) <==> w in s
    ensures Distinct(FirstOrder(s))
    decreases |s|
  {
    if s != [] {
      var init := s[..|s| - 1];
      FirstOrderKeys(init);
      assert s == init + [s[|s| - 1]];
    }
  }

  /** Occurrence counts stay positive for the tokens seen and zero for the rest. */
  lemma {:induction false} CountPositive(s: seq<string>, w: string)
    ensures Count(s, w) > 0 <==> w in s
    decreases |s|
  {
    if s != [] {
      var init := s[..|s| - 1];
      CountPositive(init, w);
      assert s == init + [s[|s| - 1]];
    }
  }

  /** The state of the Counter after it was fed seen, held as a map and its key order. */
  ghost predicate CounterOf(counts: map<string, nat>, order: seq<string>, seen: seq<string>) {
    && order == FirstOrder(seen)
    && (forall w :: w in counts <==> w in seen)
    && (forall w :: w in counts ==> counts[w] == Count(seen, w))
  }

  /** Counting one more token: its count goes up by one, and a new key joins the end of the order. */
  lemma CounterAdd(counts: map<string, nat>, order: seq<string>, seen: seq<string>, w: string)
    requires CounterOf(counts, order, seen)
    ensures w in counts ==> CounterOf(counts[w := counts[w] + 1], order, seen + [w])
    ensures w !in counts ==> CounterOf(counts[w := 1], order + [w], seen + [w])
  {
    var after := seen + [w];
    SeenSnoc(seen, w);
    FirstOrderKeys(seen);
    CountPositive(seen, w);
    if w in counts {
      var c := counts[w := counts[w] + 1];
      assert forall x :: x in c <==> x in after;
      assert forall x :: x in c ==> c[x] == Count(after, x);
    } else {
      var c := counts[w := 1];
      assert forall x :: x in c <==> x in after;
      assert forall x :: x in c ==> c[x] == Count(after, x);
    }
  }

  /** Feeding one more token: its count goes up by one and it joins the key order if new. */
  lemma SeenSnoc(seen: seq<string>, w: string)
    ensures FirstOrder(seen + [w]) == if w in FirstOrder(seen) then FirstOrder(seen) else FirstOrder(seen) + [w]
    ensures forall x :: Count(seen + [w], x) == Count(seen, x) + (if x == w then 1 else 0)
    ensures forall x :: x in seen + [w] <==> x in seen || x == w
  {
    var after := seen + [w];
    assert after[..|after| - 1] == seen && after[|after| - 1] == w;
  }

  /** Counter.update(items): each item's count goes up by one, new keys join the end. */
  method Update(counts: map<string, nat>, order: seq<string>, ghost seen: seq<string>, items: seq<string>)
    returns (counts': map<string, nat>, order': seq<string>)
    requires CounterOf(counts, order, seen)
    ensures CounterOf(counts', order', seen + items)
  {
    counts', order' := counts, order;
    assert seen + items[..0] == seen;
    for j := 0 to |items|
      invariant CounterOf(counts', order', seen + items[..j])
    {
      assert seen + items[..j + 1] == (seen + items[..j]) + [items[j]];
      CounterAdd(counts', order', seen + items[..j], items[j]);
      var w := items[j];
      if w in counts' {
        counts' := counts'[w := counts'[w] + 1];
      } else {
        counts' := counts'[w := 1];
        order' := order' + [w];
      }
    }
    assert items[..|items|] == items;
  }

  // ---------------------------------------------------------------- most_common()

  /** One (key, count) item of the Counter. */
  datatype Entry = Entry(key: string, count: nat)

  /** The Counter's items in key order. */
  function Entries(s: seq<string>): seq<Entry> {
    var o := FirstOrder(s);
    seq(|o|, i requires 0 <= i < |o| => Entry(o[i], Count(s, o[i])))
  }

  /** Put x in front of the first entry whose count is not larger. */
  function Insert(x: Entry, ys: seq<Entry>): seq<Entry>
    decreases |ys|
  {
    if ys == [] then [x]
    else if ys[0].count <= x.count then [x] + ys
    else [ys[0]] + Insert(x, ys[1..])
  }

  /** sorted(items, key=count, reverse=True), which is stable: equal counts keep their order. */
  function SortDesc(xs: seq<Entry>): seq<Entry>
    decreases |xs|
  {
    if xs == [] then [] else Insert(xs[0], SortDesc(xs[1..]))
  }

  /** counter.most_common() */
  function MostCommon(s: seq<string>): seq<Entry> {
    SortDesc(Entries(s))
  }

  predicate SortedDesc(xs: seq<Entry>) {
    forall i, j :: 0 <= i < j < |xs| ==> xs[i].count >= xs[j].count
  }

  predicate DistinctKeys(xs: seq<Entry>) {
    forall i, j :: 0 <= i < j < |xs| ==> xs[i].key != xs[j].key
  }

  /** The entries of xs with count c, in order. */
  function WithCount(xs: seq<Entry>, c: nat): seq<Entry>
    decreases |xs|
  {
    if xs == [] then [] else (if xs[0].count == c then [xs[0]] else []) + WithCount(xs[1..], c)
  }

  lemma {:induction false} InsertPerm(x: Entry, ys: seq<Entry>)
    ensures multiset(Insert(x, ys)) == multiset(ys) + multiset{x}
    ensures forall e :: e in Insert(x, ys) <==> e == x || e in ys
    decreases |ys|
  {
    if ys != [] && ys[0].count > x.count {
      InsertPerm(x, ys[1..]);
      assert ys == [ys[0]] + ys[1..];
    }
    SameMembers(Insert(x, ys), ys + [x]);
  }

  /** Sequences with the same multiset of elements have the same members. */
  lemma SameMembers(a: seq<Entry>, b: seq<Entry>)
    requires multiset(a) == multiset(b)
    ensures forall e :: e in a <==> e in b
  {
    forall e
      ensures e in a <==> e in b
    {
      assert e in a <==> e in multiset(a);
      assert e in b <==> e in multiset(b);
    }
  }

  /** An entry whose count is at least every count of a sorted listing can go in front of it. */
  lemma SortedCons(y: Entry, rest: seq<Entry>)
    requires SortedDesc(rest) && forall e :: e in rest ==> y.count >= e.count
    ensures SortedDesc([y] + rest)
  {
    var r := [y] + rest;
    forall i, j | 0 <= i < j < |r|
      ensures r[i].count >= r[j].count
    {
      assert r[j] == rest[j - 1];
      if i > 0 {
        assert r[i] == rest[i - 1];
      }
    }
  }

  lemma {:induction false} InsertSorted(x: Entry, ys: seq<Entry>)
    requires SortedDesc(ys)
    ensures SortedDesc(Insert(x, ys))
    decreases |ys|
  {
    if ys == [] {
    } else if ys[0].count <= x.count {
      forall e | e in ys
        ensures x.count >= e.count
      {
        var k :| 0 <= k < |ys| && ys[k] == e;
      }
      SortedCons(x, ys);
    } else {
      var rest := Insert(x, ys[1..]);
      InsertSorted(x, ys[1..]);
      InsertPerm(x, ys[1..]);
      forall e | e in rest
        ensures ys[0].count >= e.count
      {
        if e != x {
          var k :| 0 <= k < |ys[1..]| && ys[1..][k] == e;
          assert ys[k + 1] == e;
        }
      }
      assert SortedDesc(ys[1..]);
      SortedCons(ys[0], rest);
    }
  }

  /** An entry whose key is in no entry of a listing with distinct keys can go in front of it. */
  lemma DistinctCons(y: Entry, rest: seq<Entry>)
    requires DistinctKeys(rest) && forall e :: e in rest ==> e.key != y.key
    ensures DistinctKeys([y] + rest)
  {
    var r := [y] + rest;
    forall i, j | 0 <= i < j < |r|
      ensures r[i].key != r[j].key
    {
      assert r[j] == rest[j - 1];
      if i > 0 {
        assert r[i] == rest[i - 1];
      }
    }
  }

  lemma {:induction false} InsertDistinct(x: Entry, ys: seq<Entry>)
    requires DistinctKeys(ys) && forall y :: y in ys ==> y.key != x.key
    ensures DistinctKeys(Insert(x, ys))
    decreases |ys|
  {
    if ys == [] {
    } else if ys[0].count <= x.count {
      DistinctCons(x, ys);
    } else {
      var rest := Insert(x, ys[1..]);
      assert forall y :: y in ys[1..] ==> y in ys;
      assert DistinctKeys(ys[1..]);
      InsertDistinct(x, ys[1..]);
      InsertPerm(x, ys[1..]);
      forall e | e in rest
        ensures e.key != ys[0].key
      {
        if e != x {
          var k :| 0 <= k < |ys[1..]| && ys[1..][k] == e;
          assert ys[k + 1] == e;
        }
      }
      DistinctCons(ys[0], rest);
    }
  }

  lemma {:induction false} InsertWithCount(x: Entry, ys: seq<Entry>, c: nat)
    ensures WithCount(Insert(x, ys), c) == (if x.count == c then [x] else []) + WithCount(ys, c)
    decreases |ys|
  {
    if ys != [] && ys[0].count > x.count {
      InsertWithCount(x, ys[1..], c);
      assert ([ys[0]] + Insert(x, ys[1..]))[1..] == Insert(x, ys[1..]);
    } else if ys != [] {
      assert ([x] + ys)[1..] == ys;
    }
  }

  /** most_common() lists every item of the Counter, and nothing else. */
  lemma {:induction false} SortDescPerm(xs: seq<Entry>)
    ensures multiset(SortDesc(xs)) == multiset(xs)
    ensures forall e :: e in SortDesc(xs) <==> e in xs
    decreases |xs|
  {
    if xs != [] {
      SortDescPerm(xs[1..]);
      InsertPerm(xs[0], SortDesc(xs[1..]));
      assert xs == [xs[0]] + xs[1..];
    }
    SameMembers(SortDesc(xs), xs);
  }

  /** most_common() never lists a larger count after a smaller one. */
  lemma {:induction false} SortDescSorted(xs: seq<Entry>)
    ensures SortedDesc(SortDesc(xs))
    decreases |xs|
  {
    if xs != [] {
      SortDescSorted(xs[1..]);
      InsertSorted(xs[0], SortDesc(xs[1..]));
    }
  }

  /** most_common() lists each key once when the Counter does. */
  lemma {:induction false} SortDescDistinct(xs: seq<Entry>)
    requires DistinctKeys(xs)
    ensures DistinctKeys(SortDesc(xs))
    decreases |xs|
  {
    if xs != [] {
      var rest := SortDesc(xs[1..]);
      SortDescDistinct(xs[1..]);
      SortDescPerm(xs[1..]);
      forall y | y in rest
        ensures y.key != xs[0].key
      {
        var k :| 0 <= k < |xs[1..]| && xs[1..][k] == y;
        assert xs[k + 1] == y;
      }
      InsertDistinct(xs[0], rest);
    }
  }

  /** most_common() is stable: the entries of any one count keep the Counter's order. */
  lemma {:induction false} SortDescStable(xs: seq<Entry>, c: nat)
    ensures WithCount(SortDesc(xs), c) == WithCount(xs, c)
    decreases |xs|
  {
    if xs != [] {
      SortDescStable(xs[1..], c);
      InsertWithCount(xs[0], SortDesc(xs[1..]), c);
    }
  }

  /** The Counter's items: one per distinct token, with its number of occurrences. */
  lemma EntriesFacts(s: seq<string>)
    ensures DistinctKeys(Entries(s))
    ensures forall e :: e in Entries(s) <==> e.key in s && e.count == Count(s, e.key)
  {
    FirstOrderKeys(s);
    var es := Entries(s);
    var o := FirstOrder(s);
    forall e: Entry | e.key in s && e.count == Count(s, e.key)
      ensures e in es
    {
      var i :| 0 <= i < |o| && o[i] == e.key;
      assert es[i] == e;
    }
  }

  // ---------------------------------------------------------------- the vocab file

  /** The loop's two skips: len(k.split()) == 0, and k == ' '. */
  predicate Skipped(k: string) {
    Words(k) == [] || k == " "
  }

  /** f'{k} {v}\n' */
  function Line(e: Entry): string {
    e.key + " " + IntToString(e.count) + "\n"
  }

  /** The entries written, in order. */
  function Kept(es: seq<Entry>): seq<Entry>
    decreases |es|
  {
    if es == [] then [] else (if Skipped(es[0].key) then [] else [es[0]]) + Kept(es[1..])
  }

  /** The lines written for a listing of entries. */
  function LinesOf(es: seq<Entry>): seq<string> {
    var kept := Kept(es);
    seq(|kept|, i requires 0 <= i < |kept| => Line(kept[i]))
  }

  /** The lines of the vocab file built from the token stream s. */
  function VocabLines(s: seq<string>): seq<string> {
    LinesOf(MostCommon(s))
  }

  lemma {:induction false} KeptSnoc(es: seq<Entry>, e: Entry)
    ensures Kept(es + [e]) == Kept(es) + (if Skipped(e.key) then [] else [e])
    decreases |es|
  {
    if es == [] {
      assert es + [e] == [e];
    } else {
      assert (es + [e])[1..] == es[1..] + [e];
      KeptSnoc(es[1..], e);
    }
  }

  /** build_vocab on the records of train.json: the vocab file's lines, or the error raised. */
  function VocabOf(data: seq<Record>): Result<seq<string>, VocabError> {
    match Stream(data)
    case Err(e) => Err(e)
    case Ok(s) => Ok(VocabLines(s))
  }

  /** An entry is written exactly when it is listed and its token is not blank. */
  lemma {:induction false} KeptMember(es: seq<Entry>)
    ensures forall e :: e in Kept(es) <==> e in es && !Blank(e.key)
    decreases |es|
  {
    if es != [] {
      KeptMember(es[1..]);
      WordsEmptyIffBlank(es[0].key);
      assert Blank(" ");
      assert es == [es[0]] + es[1..];
    }
  }

  /** Leaving entries out keeps the counts in descending order. */
  lemma {:induction false} KeptSorted(es: seq<Entry>)
    requires SortedDesc(es)
    ensures SortedDesc(Kept(es))
    decreases |es|
  {
    if es != [] {
      KeptSorted(es[1..]);
      KeptMember(es[1..]);
      if !Skipped(es[0].key) {
        forall e | e in Kept(es[1..])
          ensures es[0].count >= e.count
        {
          var k :| 0 <= k < |es[1..]| && es[1..][k] == e;
          assert es[k + 1] == e;
        }
      }
    }
  }

  /** Leaving entries out keeps the tokens distinct. */
  lemma {:induction false} KeptDistinct(es: seq<Entry>)
    requires DistinctKeys(es)
    ensures DistinctKeys(Kept(es))
    decreases |es|
  {
    if es != [] {
      KeptDistinct(es[1..]);
      KeptMember(es[1..]);
      if !Skipped(es[0].key) {
        forall e | e in Kept(es[1..])
          ensures e.key != es[0].key
        {
          var k :| 0 <= k < |es[1..]| && es[1..][k] == e;
          assert es[k + 1] == e;
        }
      }
    }
  }

  /**
   * The vocab file lists every non-blank token of the stream exactly once with its
   * number of occurrences, counts never increase down the file, and tokens of equal
   * count appear in the order they were first seen.
   */
  lemma VocabFacts(s: seq<string>)
    ensures forall e :: e in Kept(MostCommon(s)) <==> e.key in s && !Blank(e.key) && e.count == Count(s, e.key)
    ensures DistinctKeys(Kept(MostCommon(s)))
    ensures SortedDesc(Kept(MostCommon(s)))
    ensures forall c :: WithCount(MostCommon(s), c) == WithCount(Entries(s), c)
    ensures |VocabLines(s)| == |Kept(MostCommon(s))|
    ensures forall i :: 0 <= i < |VocabLines(s)| ==> VocabLines(s)[i] == Line(Kept(MostCommon(s))[i])
  {
    EntriesFacts(s);
    SortDescPerm(Entries(s));
    SortDescSorted(Entries(s));
    SortDescDistinct(Entries(s));
    forall c
      ensures WithCount(MostCommon(s), c) == WithCount(Entries(s), c)
    {
      SortDescStable(Entries(s), c);
    }
    KeptMember(MostCommon(s));
    KeptSorted(MostCommon(s));
    KeptDistinct(MostCommon(s));
  }

  /** split() of "a b\n" for two words without whitespace. */
  lemma WordsOfPair(a: string, b: string)
    requires a != [] && b != [] && NoSpace(a) && NoSpace(b)
    ensures Words(a + " " + b + "\n") == [a, b]
  {
    var tail := " " + b + "\n";
    assert a + " " + b + "\n" == a + tail;
    WordsFromPlain(a, tail, []);
    assert [] + a == a;
    assert tail[0] == ' ' && tail[1..] == b + "\n";
    assert WordsFrom(tail, a) == [a] + WordsFrom(b + "\n", []);
    WordsFromPlain(b, "\n", []);
    assert [] + b == b;
    assert WordsFrom("\n", b) == [b] + WordsFrom([], []);
  }

  /** Reading a line back with split() gives the token and its count, for a token without whitespace. */
  lemma LineReadBack(e: Entry)
    requires e.key != "" && NoSpace(e.key)
    ensures |Words(Line(e))| == 2 && Words(Line(e))[0] == e.key
    ensures ParseInt(Words(Line(e))[1]) == Some(e.count as int)
  {
    var d := IntToString(e.count);
    NatToStringDigits(e.count);
    ParseIntToString(e.count);
    assert NoSpace(d);
    WordsOfPair(e.key, d);
  }

  // ---------------------------------------------------------------- build_vocab

  /** Once a prefix of the records fails, the whole file fails with the same error. */
  lemma {:induction false} StreamPrefixErr(data: seq<Record>, n: nat)
    requires n <= |data| && Stream(data[..n]).Err?
    ensures Stream(data) == Stream(data[..n])
    decreases |data| - n
  {
    if n < |data| {
      assert data[..n + 1][..n] == data[..n];
      StreamPrefixErr(data, n + 1);
    } else {
      assert data[..n] == data;
    }
  }

  /** The counting loop of build_vocab: a Counter fed the question tokens, then the SQL tokens, record by record. */
  method CountTokens(data: seq<Record>) returns (r: Result<(map<string, nat>, seq<string>), VocabError>)
    ensures Stream(data).Err? ==> r == Err(Stream(data).error)
    ensures Stream(data).Ok? ==> r.Ok? && CounterOf(r.value.0, r.value.1, Stream(data).value)
  {
    var counts: map<string, nat> := map[];
    var order: seq<string> := [];
    ghost var seen: seq<string> := [];
    for i := 0 to |data|
      invariant Stream(data[..i]) == Ok(seen)
      invariant CounterOf(counts, order, seen)
    {
      assert data[..i + 1][..i] == data[..i] && data[..i + 1][i] == data[i];
      var q := FieldTokens(data[i], "question_refine_tok", i);
      if q.Err? {
        StreamPrefixErr(data, i + 1);
        return Err(q.error);
      }
      counts, order := Update(counts, order, seen, q.value);
      seen := seen + q.value;
      var t := FieldTokens(data[i], "sql_tok", i);
      if t.Err? {
        StreamPrefixErr(data, i + 1);
        return Err(t.error);
      }
      counts, order := Update(counts, order, seen, t.value);
      seen := seen + t.value;
    }
    assert data[..|data|] == data;
    return Ok((counts, order));
  }

  /** The writing loop of build_vocab: one line per entry, skipping blank tokens. */
  method WriteLines(common: seq<Entry>) returns (lines: seq<string>)
    ensures lines == LinesOf(common)
  {
    lines := [];
    for i := 0 to |common|
      invariant lines == LinesOf(common[..i])
    {
      assert common[..i + 1] == common[..i] + [common[i]];
      KeptSnoc(common[..i], common[i]);
      var k := common[i].key;
      if Words(k) == [] {
        continue;
      }
      if k == " " {
        continue;
      }
      lines := lines + [Line(common[i])];
    }
    assert common[..|common|] == common;
  }

  /** build_vocab: count, sort by count, write; the file I/O is left out. */
  method BuildVocab(data: seq<Record>) returns (r: Result<seq<string>, VocabError>)
    ensures r == VocabOf(data)
  {
    var counted := CountTokens(data);
    if counted.Err? {
      return Err(counted.error);
    }
    var (counts, order) := counted.value;
    ghost var seen := Stream(data).value;
    FirstOrderKeys(seen);
    var items := seq(|order|, i requires 0 <= i < |order| => Entry(order[i], counts[order[i]]));
    assert items == Entries(seen);
    var common := SortDesc(items);
    var lines := WriteLines(common);
    return Ok(lines);
  }
}
