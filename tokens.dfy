/**
 * The corpus tokeniser sparql_tokenize of convert_sql2sparql_dataset.py: after the
 * external split_entity, a space is put before every RDF typed-literal marker ^^
 * (the "value"^^datatype form of section 3.3 of RDF 1.1 Concepts), the string is
 * split on single spaces and joined again, and finally split on whitespace.
 */
module SparqlTokens {
  import opened Text

  /** ' ^^'.join(s.split('^^')): a space before every ^^ found scanning left to right. */
  function MarkTyped(s: string): string
    decreases |s|
  {
    if |s| >= 2 && s[0] == '^' && s[1] == '^' then " ^^" + MarkTyped(s[2..])
    else if s == [] then []
    else [s[0]] + MarkTyped(s[1..])
  }

  /** The steps of sparql_tokenize after split_entity, one Python expression per line. */
  function Tokenize(s: string): seq<string> {
    var typed := Join(" ^^", SplitOn(s, "^^"));
    var spaced := Join(" ", SplitOn(typed, " "));
    Words(spaced)
  }

  /** sparql_tokenize(sparql); split_entity is not part of this model and is a parameter. */
  function SparqlTokenize(splitEntity: string -> string, sparql: string): seq<string> {
    Tokenize(splitEntity(sparql))
  }

  /**
   * Reference tokeniser: one left-to-right scan that ends the current token at
   * whitespace and starts a new token at every ^^ it meets.
   */
  function Scan(s: string, cur: string): seq<string>
    decreases |s|
  {
    if s == [] then Flush(cur)
    else if |s| >= 2 && s[0] == '^' && s[1] == '^' then Flush(cur) + Scan(s[2..], "^^")
    else if IsSpace(s[0]) then Flush(cur) + Scan(s[1..], [])
    else Scan(s[1..], cur + [s[0]])
  }

  /** No two adjacent carets. */
  predicate NoCaretPair(w: string) {
    forall i :: 0 <= i < |w| - 1 ==> !(w[i] == '^' && w[i + 1] == '^')
  }

  /** What a token looks like: no ^^ inside, or ^^ followed by a text without ^^. */
  predicate TokenForm(w: string) {
    || NoCaretPair(w)
    || (|w| >= 2 && w[0] == '^' && w[1] == '^' && NoCaretPair(w[2..]))
  }

  // ---------------------------------------------------------------- the pipeline is the scan

  lemma {:induction false} MarkTypedSplitFrom(s: string, cur: string)
    ensures Join(" ^^", SplitFrom(s, "^^", cur)) == cur + MarkTyped(s)
    decreases |s|
  {
    if |s| < 2 {
      if s != [] {
        assert s[1..] == [];
        assert MarkTyped(s) == [s[0]] == s;
      }
    } else if s[0] == '^' && s[1] == '^' {
      assert s[..2] == "^^";
      var rest := SplitFrom(s[2..], "^^", "");
      assert SplitFrom(s, "^^", cur) == [cur] + rest;
      MarkTypedSplitFrom(s[2..], "");
      assert Join(" ^^", rest) == MarkTyped(s[2..]);
      JoinCons(" ^^", cur, rest);
    } else {
      assert s[..2] != "^^";
      assert SplitFrom(s, "^^", cur) == SplitFrom(s[1..], "^^", cur + [s[0]]);
      MarkTypedSplitFrom(s[1..], cur + [s[0]]);
      assert MarkTyped(s) == [s[0]] + MarkTyped(s[1..]);
      assert cur + [s[0]] + MarkTyped(s[1..]) == cur + ([s[0]] + MarkTyped(s[1..]));
    }
  }

  lemma {:induction false} WordsOfMarked(s: string, cur: string)
    ensures WordsFrom(MarkTyped(s), cur) == Scan(s, cur)
    decreases |s|
  {
    if s == [] {
    } else if |s| >= 2 && s[0] == '^' && s[1] == '^' {
      var m := MarkTyped(s[2..]);
      WordsOfMarked(s[2..], "^^");
      assert (" ^^" + m)[1..] == "^^" + m;
      assert ("^^" + m)[1..] == "^" + m;
      assert ("^" + m)[1..] == m;
      assert [] + ['^'] == "^";
      assert "^" + ['^'] == "^^";
      assert WordsFrom("^^" + m, []) == WordsFrom("^" + m, "^");
      assert WordsFrom("^" + m, "^") == WordsFrom(m, "^^");
    } else {
      var m := MarkTyped(s[1..]);
      WordsOfMarked(s[1..], if IsSpace(s[0]) then [] else cur + [s[0]]);
      assert ([s[0]] + m)[1..] == m;
    }
  }

  /** The split/join pipeline of sparql_tokenize computes the one-pass reference scan. */
  lemma TokenizeIsScan(s: string)
    ensures Tokenize(s) == Scan(s, [])
  {
    MarkTypedSplitFrom(s, "");
    assert "" + MarkTyped(s) == MarkTyped(s);
    JoinSplit(MarkTyped(s), " ");
    WordsOfMarked(s, []);
  }

  // ---------------------------------------------------------------- shape of the tokens

  lemma AppendKeepsForm(cur: string, c: char)
    requires TokenForm(cur)
    requires c == '^' && cur != [] && cur[|cur| - 1] == '^' ==> cur == "^^"
    ensures TokenForm(cur + [c])
  {
    var w := cur + [c];
    if c == '^' && cur != [] && cur[|cur| - 1] == '^' {
      assert w == "^^^";
      assert w[2..] == "^";
    } else if NoCaretPair(cur) {
      assert NoCaretPair(w);
    } else {
      assert w[2..] == cur[2..] + [c];
      assert NoCaretPair(w[2..]);
    }
  }

  /** What Scan keeps about its current token between two steps. */
  predicate ScanInv(s: string, cur: string) {
    && NoSpace(cur) && TokenForm(cur)
    && (cur != [] && cur[|cur| - 1] == '^' && s != [] && s[0] == '^' ==> cur == "^^")
  }

  lemma {:induction false} ScanForms(s: string, cur: string)
    requires ScanInv(s, cur)
    ensures forall w :: w in Scan(s, cur) ==> w != [] && NoSpace(w) && TokenForm(w)
    decreases |s|
  {
    if s == [] {
    } else if |s| >= 2 && s[0] == '^' && s[1] == '^' {
      assert "^^"[2..] == [];
      ScanForms(s[2..], "^^");
    } else if IsSpace(s[0]) {
      ScanForms(s[1..], []);
    } else {
      AppendKeepsForm(cur, s[0]);
      ScanForms(s[1..], cur + [s[0]]);
    }
  }

  /** Every token of sparql_tokenize is non-empty, holds no whitespace and has the token form. */
  lemma TokenizeShape(s: string)
    ensures forall w :: w in Tokenize(s) ==> w != [] && NoSpace(w) && TokenForm(w)
  {
    TokenizeIsScan(s);
    ScanForms(s, []);
  }

  // ---------------------------------------------------------------- nothing but whitespace is lost

  lemma ConcatFlushAppend(cur: string, rest: seq<string>)
    ensures Concat(Flush(cur) + rest) == cur + Concat(rest)
  {
    ConcatAppend(Flush(cur), rest);
    if cur != [] {
      assert Concat([cur]) == cur + Concat([]);
    }
  }

  lemma {:induction false} ScanConcat(s: string, cur: string)
    ensures Concat(Scan(s, cur)) == cur + RemoveSpace(s)
    decreases |s|, 1
  {
    if s == [] {
      ConcatFlushAppend(cur, []);
      assert Flush(cur) + [] == Flush(cur);
    } else if |s| >= 2 && s[0] == '^' && s[1] == '^' {
      ScanConcatMarker(s, cur);
    } else if IsSpace(s[0]) {
      ScanConcatSpace(s, cur);
    } else {
      ScanConcatChar(s, cur);
    }
  }

  lemma {:induction false} ScanConcatSpace(s: string, cur: string)
    requires s != [] && IsSpace(s[0])
    ensures Concat(Scan(s, cur)) == cur + RemoveSpace(s)
    decreases |s|, 0
  {
    assert RemoveSpace(s) == RemoveSpace(s[1..]);
    assert Scan(s, cur) == Flush(cur) + Scan(s[1..], []);
    ScanConcat(s[1..], []);
    ConcatFlushAppend(cur, Scan(s[1..], []));
  }

  lemma {:induction false} ScanConcatChar(s: string, cur: string)
    requires s != [] && !(|s| >= 2 && s[0] == '^' && s[1] == '^') && !IsSpace(s[0])
    ensures Concat(Scan(s, cur)) == cur + RemoveSpace(s)
    decreases |s|, 0
  {
    assert RemoveSpace(s) == [s[0]] + RemoveSpace(s[1..]);
    assert Scan(s, cur) == Scan(s[1..], cur + [s[0]]);
    ScanConcat(s[1..], cur + [s[0]]);
  }

  lemma {:induction false} ScanConcatMarker(s: string, cur: string)
    requires |s| >= 2 && s[0] == '^' && s[1] == '^'
    ensures Concat(Scan(s, cur)) == cur + RemoveSpace(s)
    decreases |s|, 0
  {
    var tail := RemoveSpace(s[2..]);
    assert Scan(s, cur) == Flush(cur) + Scan(s[2..], "^^");
    ScanConcat(s[2..], "^^");
    ConcatFlushAppend(cur, Scan(s[2..], "^^"));
    assert Concat(Scan(s, cur)) == cur + ("^^" + tail);
    assert s[1..][1..] == s[2..];
    assert RemoveSpace(s[1..]) == "^" + tail;
    assert RemoveSpace(s) == "^" + ("^" + tail);
    assert "^" + ("^" + tail) == "^^" + tail;
  }

  /** Concatenating the tokens gives split_entity(sparql) with its whitespace removed. */
  lemma SparqlTokenizeConcat(splitEntity: string -> string, sparql: string)
    ensures Concat(SparqlTokenize(splitEntity, sparql)) == RemoveSpace(splitEntity(sparql))
  {
    TokenizeIsScan(splitEntity(sparql));
    ScanConcat(splitEntity(sparql), []);
  }

  // ---------------------------------------------------------------- re-tokenising is a no-op

  lemma {:induction false} ScanPlain(v: string, rest: string, cur: string)
    requires NoSpace(v) && NoCaretPair(v)
    requires v != [] && rest != [] ==> !(v[|v| - 1] == '^' && rest[0] == '^')
    ensures Scan(v + rest, cur) == Scan(rest, cur + v)
    decreases |v|
  {
    if v == [] {
      assert v + rest == rest && cur + v == cur;
    } else {
      var s := v + rest;
      assert s[0] == v[0];
      assert |s| >= 2 ==> !(s[0] == '^' && s[1] == '^') by {
        if |v| >= 2 {
          assert s[1] == v[1];
        } else if |s| >= 2 {
          assert s[1] == rest[0];
        }
      }
      assert s[1..] == v[1..] + rest;
      ScanPlain(v[1..], rest, cur + [v[0]]);
      assert cur + [v[0]] + v[1..] == cur + v;
    }
  }

  lemma ScanToken(w: string, r: string)
    requires w != [] && NoSpace(w) && TokenForm(w)
    requires r == [] || IsSpace(r[0])
    ensures Scan(w + r, []) == [w] + Scan(r, [])
  {
    if NoCaretPair(w) {
      ScanPlain(w, r, []);
      assert [] + w == w;
    } else {
      var t := w[2..];
      assert w + r == "^^" + (t + r);
      assert (w + r)[2..] == t + r;
      assert Scan(w + r, []) == Scan(t + r, "^^");
      ScanPlain(t, r, "^^");
      assert "^^" + t == w;
    }
  }

  /** One token, a space, then a text that scans to ws: the token comes first, then ws. */
  lemma RescanStep(w: string, rest: string, ws: seq<string>)
    requires w != [] && NoSpace(w) && TokenForm(w)
    requires Scan(rest, []) == ws
    ensures Scan(w + " " + rest, []) == [w] + ws
  {
    var spaced := " " + rest;
    ScanToken(w, spaced);
    assert w + " " + rest == w + spaced;
    assert spaced[0] == ' ' && spaced[1..] == rest;
  }

  lemma {:induction false} RescanJoined(ws: seq<string>)
    requires forall w :: w in ws ==> w != [] && NoSpace(w) && TokenForm(w)
    ensures Scan(Join(" ", ws), []) == ws
  {
    if |ws| == 1 {
      assert ws[0] in ws;
      ScanToken(ws[0], []);
      assert ws[0] + [] == ws[0];
    } else if |ws| > 1 {
      assert ws[0] in ws;
      assert forall w :: w in ws[1..] ==> w in ws;
      RescanJoined(ws[1..]);
      RescanStep(ws[0], Join(" ", ws[1..]), ws[1..]);
      assert [ws[0]] + ws[1..] == ws;
    }
  }

  /** Re-tokenising the space-joined tokens gives the same tokens back. */
  lemma TokenizeIdempotent(s: string)
    ensures Tokenize(Join(" ", Tokenize(s))) == Tokenize(s)
  {
    TokenizeShape(s);
    RescanJoined(Tokenize(s));
    TokenizeIsScan(Join(" ", Tokenize(s)));
  }

  // ---------------------------------------------------------------- typed literals

  /** A value followed directly by ^^ and a datatype yields the value and the ^^-datatype token. */
  lemma TypedLiteral(v: string, t: string)
    requires v != [] && NoSpace(v) && NoCaretPair(v) && v[|v| - 1] != '^'
    requires NoSpace(t) && NoCaretPair(t)
    ensures Tokenize(v + "^^" + t) == [v, "^^" + t]
  {
    TokenizeIsScan(v + "^^" + t);
    assert v + "^^" + t == v + ("^^" + t);
    ScanPlain(v, "^^" + t, []);
    assert [] + v == v;
    assert ("^^" + t)[2..] == t;
    assert Scan("^^" + t, v) == [v] + Scan(t, "^^");
    ScanPlain(t, [], "^^");
    assert t + [] == t;
  }

  /** A text without carets has no ^^ in it. */
  lemma NoCaretNoPair(w: string)
    requires '^' !in w
    ensures NoCaretPair(w)
  {
    forall i | 0 <= i < |w| - 1
      ensures w[i] != '^'
    {
      assert w[i] in w;
    }
  }

  /** The value and the datatype of the example literal hold no whitespace and no ^^. */
  lemma ExampleParts(v: string, t: string)
    requires v == "\"10006\"" && t == "xsd:int"
    ensures v != [] && NoSpace(v) && NoCaretPair(v) && v[|v| - 1] != '^'
    ensures NoSpace(t) && NoCaretPair(t)
  {
    NoCaretNoPair(v);
    NoCaretNoPair(t);
  }

  /** The typed literal "10006"^^xsd:int becomes the value token and the ^^xsd:int token. */
  lemma TypedLiteralExample(s: string)
    requires s == "\"10006\"^^xsd:int"
    ensures Tokenize(s) == ["\"10006\"", "^^xsd:int"]
  {
    var v: string, t: string := "\"10006\"", "xsd:int";
    ExampleParts(v, t);
    assert s == v + "^^" + t;
    TypedLiteral(v, t);
    assert "^^" + t == "^^xsd:int";
  }
}
