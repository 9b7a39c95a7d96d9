/**
 * The Python string primitives the modelled code relies on: str.isspace, str.lower,
 * sep.join, str.split(sep), str.split(), str(int), int(str), c * n, and the
 * lexicographic order of str.
 */
module Text {
  import opened Results

  /** Python's str.isspace() on one character: the characters str.split() without an argument splits on. */
  predicate IsSpace(c: char) {
    || c == ' ' || '\t' <= c <= '\r' || '\U{1c}' <= c <= '\U{1f}'
    || c == '\U{85}' || c == '\U{a0}' || c == '\U{1680}' || '\U{2000}' <= c <= '\U{200a}'
    || c == '\U{2028}' || c == '\U{2029}' || c == '\U{202f}' || c == '\U{205f}' || c == '\U{3000}'
  }

  predicate NoSpace(s: string) {
    forall i :: 0 <= i < |s| ==> !IsSpace(s[i])
  }

  /** Empty or made of whitespace only. */
  predicate Blank(s: string) {
    forall i :: 0 <= i < |s| ==> IsSpace(s[i])
  }

  /** The string without its whitespace characters. */
  function RemoveSpace(s: string): string {
    if s == [] then [] else (if IsSpace(s[0]) then [] else [s[0]]) + RemoveSpace(s[1..])
  }

  function Concat(parts: seq<string>): string {
    if parts == [] then [] else parts[0] + Concat(parts[1..])
  }

  lemma {:induction false} ConcatAppend(a: seq<string>, b: seq<string>)
    ensures Concat(a + b) == Concat(a) + Concat(b)
  {
    if a != [] {
      ConcatAppend(a[1..], b);
      assert (a + b)[1..] == a[1..] + b;
    } else {
      assert a + b == b;
    }
  }

  // ---------------------------------------------------------------- lower()

  /** Lower-casing of one character; only the ASCII letters are folded. */
  function LowerChar(c: char): char {
    if 'A' <= c <= 'Z' then (c as int + 32) as char else c
  }

  function Lower(s: string): (r: string)
    ensures |r| == |s|
  {
    seq(|s|, i requires 0 <= i < |s| => LowerChar(s[i]))
  }

  // ---------------------------------------------------------------- sep.join / str.split(sep)

  /** sep.join(parts) */
  function Join(sep: string, parts: seq<string>): string {
    if |parts| == 0 then ""
    else if |parts| == 1 then parts[0]
    else parts[0] + sep + Join(sep, parts[1..])
  }

  /** Joining a part in front of at least one more puts the separator between them. */
  lemma JoinCons(sep: string, a: string, rest: seq<string>)
    requires rest != []
    ensures Join(sep, [a] + rest) == a + sep + Join(sep, rest)
  {
    assert ([a] + rest)[1..] == rest;
  }

  /**
   * str.split(sep) scanning left to right for non-overlapping occurrences of sep;
   * cur is the part collected since the last occurrence.
   */
  function SplitFrom(s: string, sep: string, cur: string): (parts: seq<string>)
    requires |sep| > 0
    ensures |parts| >= 1
    decreases |s|
  {
    if |s| < |sep| then [cur + s]
    else if s[..|sep|] == sep then [cur] + SplitFrom(s[|sep|..], sep, "")
    else SplitFrom(s[1..], sep, cur + [s[0]])
  }

  /** s.split(sep) */
  function SplitOn(s: string, sep: string): seq<string>
    requires |sep| > 0
  {
    SplitFrom(s, sep, "")
  }

  /** sep occurs in s starting at index i. */
  predicate OccursAt(s: string, sep: string, i: int) {
    0 <= i && i + |sep| <= |s| && s[i..i + |sep|] == sep
  }

  /** sep in s */
  predicate Occurs(s: string, sep: string) {
    exists i | 0 <= i <= |s| :: OccursAt(s, sep, i)
  }

  lemma {:induction false} JoinSplitFrom(s: string, sep: string, cur: string)
    requires |sep| > 0
    ensures Join(sep, SplitFrom(s, sep, cur)) == cur + s
    decreases |s|
  {
    if |s| < |sep| {
    } else if s[..|sep|] == sep {
      var rest := SplitFrom(s[|sep|..], sep, "");
      JoinSplitFrom(s[|sep|..], sep, "");
      assert ([cur] + rest)[1..] == rest;
      assert Join(sep, [cur] + rest) == cur + sep + s[|sep|..];
      assert sep + s[|sep|..] == s;
    } else {
      JoinSplitFrom(s[1..], sep, cur + [s[0]]);
      assert cur + [s[0]] + s[1..] == cur + s;
    }
  }

  /** Joining the parts of a split with the same separator gives back the string. */
  lemma JoinSplit(s: string, sep: string)
    requires |sep| > 0
    ensures Join(sep, SplitOn(s, sep)) == s
  {
    JoinSplitFrom(s, sep, "");
  }

  lemma {:induction false} SplitFromAbsent(s: string, sep: string, cur: string)
    requires |sep| > 0 && !Occurs(s, sep)
    ensures SplitFrom(s, sep, cur) == [cur + s]
    decreases |s|
  {
    if |s| >= |sep| {
      assert !OccursAt(s, sep, 0);
      assert s[..|sep|] != sep;
      forall i | 0 <= i <= |s[1..]|
        ensures !OccursAt(s[1..], sep, i)
      {
        assert !OccursAt(s, sep, i + 1);
        if i + |sep| <= |s[1..]| {
          assert s[i + 1..i + 1 + |sep|] == s[1..][i..i + |sep|];
        }
      }
      SplitFromAbsent(s[1..], sep, cur + [s[0]]);
      assert cur + [s[0]] + s[1..] == cur + s;
    }
  }

  /** A string that does not contain the separator splits into itself alone. */
  lemma SplitAbsent(s: string, sep: string)
    requires |sep| > 0 && !Occurs(s, sep)
    ensures SplitOn(s, sep) == [s]
  {
    SplitFromAbsent(s, sep, "");
    assert "" + s == s;
  }

  /** A string that contains the separator splits into at least two parts. */
  lemma {:induction false} SplitFromOccurs(s: string, sep: string, cur: string)
    requires |sep| > 0 && Occurs(s, sep)
    ensures |SplitFrom(s, sep, cur)| >= 2
    decreases |s|
  {
    var i :| 0 <= i <= |s| && OccursAt(s, sep, i);
    if s[..|sep|] != sep {
      assert i > 0 && i - 1 + |sep| <= |s[1..]|;
      assert s[1..][i - 1..i - 1 + |sep|] == s[i..i + |sep|];
      assert OccursAt(s[1..], sep, i - 1);
      SplitFromOccurs(s[1..], sep, cur + [s[0]]);
    }
  }

  /** s.split(sep) has a second part exactly when sep occurs in s. */
  lemma SplitTwoParts(s: string, sep: string)
    requires |sep| > 0
    ensures |SplitOn(s, sep)| >= 2 <==> Occurs(s, sep)
  {
    if Occurs(s, sep) {
      SplitFromOccurs(s, sep, "");
    } else {
      SplitAbsent(s, sep);
    }
  }

  function Last<T>(xs: seq<T>): T
    requires |xs| > 0
  {
    xs[|xs| - 1]
  }

  lemma {:induction false} JoinLast(sep: string, parts: seq<string>)
    requires |parts| >= 2
    ensures Join(sep, parts) == Join(sep, parts[..|parts| - 1]) + sep + Last(parts)
    decreases |parts|
  {
    if |parts| > 2 {
      JoinLast(sep, parts[1..]);
      assert parts[1..][..|parts| - 2] == parts[..|parts| - 1][1..];
    }
  }

  lemma {:induction false} SplitFromLastClean(s: string, sep: string, cur: string)
    requires |sep| > 0 && forall i :: 0 <= i < |cur| ==> !OccursAt(cur + s, sep, i)
    ensures !Occurs(Last(SplitFrom(s, sep, cur)), sep)
    decreases |s|
  {
    if |s| < |sep| {
      forall i | 0 <= i <= |cur + s|
        ensures !OccursAt(cur + s, sep, i)
      {
      }
    } else if s[..|sep|] == sep {
      var rest := SplitFrom(s[|sep|..], sep, "");
      assert Last([cur] + rest) == Last(rest);
      SplitFromLastClean(s[|sep|..], sep, "");
    } else {
      var cur' := cur + [s[0]];
      assert cur' + s[1..] == cur + s;
      forall i | 0 <= i < |cur'|
        ensures !OccursAt(cur' + s[1..], sep, i)
      {
        if i == |cur| {
          assert (cur + s)[i..i + |sep|] == s[..|sep|];
        }
      }
      SplitFromLastClean(s[1..], sep, cur');
    }
  }

  /**
   * s.split(sep)[-1] is the text after the last occurrence of sep: s is the other parts
   * joined, sep, then the last part, which holds no sep.
   */
  lemma SplitLast(s: string, sep: string)
    requires |sep| > 0 && Occurs(s, sep)
    ensures var parts := SplitOn(s, sep);
      |parts| >= 2 && s == Join(sep, parts[..|parts| - 1]) + sep + Last(parts) && !Occurs(Last(parts), sep)
  {
    SplitTwoParts(s, sep);
    JoinSplit(s, sep);
    JoinLast(sep, SplitOn(s, sep));
    SplitFromLastClean(s, sep, "");
  }

  /** s.replace(pat, ''): the occurrences of pat, found left to right without overlap, removed. */
  function RemoveAll(s: string, pat: string): string
    requires |pat| > 0
    decreases |s|
  {
    if |s| < |pat| then s
    else if s[..|pat|] == pat then RemoveAll(s[|pat|..], pat)
    else [s[0]] + RemoveAll(s[1..], pat)
  }

  lemma {:induction false} RemoveAllSplitFrom(s: string, pat: string, cur: string)
    requires |pat| > 0
    ensures Concat(SplitFrom(s, pat, cur)) == cur + RemoveAll(s, pat)
    decreases |s|
  {
    if |s| < |pat| {
      assert Concat([cur + s]) == cur + s + Concat([]);
    } else if s[..|pat|] == pat {
      var rest := SplitFrom(s[|pat|..], pat, "");
      RemoveAllSplitFrom(s[|pat|..], pat, "");
      assert ([cur] + rest)[1..] == rest;
      assert "" + RemoveAll(s[|pat|..], pat) == RemoveAll(s[|pat|..], pat);
    } else {
      RemoveAllSplitFrom(s[1..], pat, cur + [s[0]]);
      assert cur + [s[0]] + RemoveAll(s[1..], pat) == cur + ([s[0]] + RemoveAll(s[1..], pat));
    }
  }

  /** s.replace(pat, '') == ''.join(s.split(pat)); in particular a string without pat is unchanged. */
  lemma RemoveAllSplit(s: string, pat: string)
    requires |pat| > 0
    ensures RemoveAll(s, pat) == Concat(SplitOn(s, pat))
    ensures !Occurs(s, pat) ==> RemoveAll(s, pat) == s
  {
    RemoveAllSplitFrom(s, pat, "");
    assert "" + RemoveAll(s, pat) == RemoveAll(s, pat);
    if !Occurs(s, pat) {
      SplitAbsent(s, pat);
      assert Concat([s]) == s + Concat([]);
    }
  }

  // ---------------------------------------------------------------- str.split()

  function Flush(cur: string): seq<string> {
    if cur == [] then [] else [cur]
  }

  /** str.split() with no argument; cur is the word being collected. */
  function WordsFrom(s: string, cur: string): seq<string>
    decreases |s|
  {
    if s == [] then Flush(cur)
    else if IsSpace(s[0]) then Flush(cur) + WordsFrom(s[1..], [])
    else WordsFrom(s[1..], cur + [s[0]])
  }

  /** s.split() */
  function Words(s: string): seq<string> {
    WordsFrom(s, [])
  }

  lemma {:induction false} WordsFromShape(s: string, cur: string)
    requires NoSpace(cur)
    ensures forall w :: w in WordsFrom(s, cur) ==> w != [] && NoSpace(w)
    decreases |s|
  {
    if s == [] {
    } else if IsSpace(s[0]) {
      WordsFromShape(s[1..], []);
    } else {
      WordsFromShape(s[1..], cur + [s[0]]);
    }
  }

  /** str.split() never yields an empty word or a word holding whitespace. */
  lemma WordsShape(s: string)
    ensures forall w :: w in Words(s) ==> w != [] && NoSpace(w)
  {
    WordsFromShape(s, []);
  }

  lemma {:induction false} WordsFromEmpty(s: string, cur: string)
    ensures WordsFrom(s, cur) == [] <==> cur == [] && Blank(s)
    decreases |s|
  {
    if s == [] {
    } else if IsSpace(s[0]) {
      WordsFromEmpty(s[1..], []);
      assert Blank(s) <==> Blank(s[1..]);
    } else {
      WordsFromEmpty(s[1..], cur + [s[0]]);
    }
  }

  /** len(s.split()) == 0 exactly when s is empty or whitespace only. */
  lemma WordsEmptyIffBlank(s: string)
    ensures Words(s) == [] <==> Blank(s)
  {
    WordsFromEmpty(s, []);
  }

  lemma {:induction false} WordsFromNoSpace(s: string, cur: string)
    requires NoSpace(s)
    ensures WordsFrom(s, cur) == Flush(cur + s)
    decreases |s|
  {
    if s == [] {
      assert cur + s == cur;
    } else {
      WordsFromNoSpace(s[1..], cur + [s[0]]);
      assert cur + [s[0]] + s[1..] == cur + s;
    }
  }

  /** A run of non-whitespace characters only extends the word being collected. */
  lemma {:induction false} WordsFromPlain(a: string, rest: string, cur: string)
    requires NoSpace(a)
    ensures WordsFrom(a + rest, cur) == WordsFrom(rest, cur + a)
    decreases |a|
  {
    if a == [] {
      assert a + rest == rest && cur + a == cur;
    } else {
      assert (a + rest)[0] == a[0] && (a + rest)[1..] == a[1..] + rest;
      WordsFromPlain(a[1..], rest, cur + [a[0]]);
      assert cur + [a[0]] + a[1..] == cur + a;
    }
  }

  // ---------------------------------------------------------------- str(int) and int(str)

  predicate IsDigit(c: char) {
    '0' <= c <= '9'
  }

  predicate AllDigits(s: string) {
    forall i :: 0 <= i < |s| ==> IsDigit(s[i])
  }

  function DigitChar(d: int): char
    requires 0 <= d < 10
  {
    ('0' as int + d) as char
  }

  function NatToString(n: nat): string
    decreases n
  {
    if n < 10 then [DigitChar(n)] else NatToString(n / 10) + [DigitChar(n % 10)]
  }

  /** str(n) for a Python int. */
  function IntToString(n: int): string {
    if n < 0 then "-" + NatToString(-n) else NatToString(n)
  }

  function DigitsValue(s: string): nat
    requires AllDigits(s)
    decreases |s|
  {
    if s == [] then 0 else DigitsValue(s[..|s| - 1]) * 10 + (s[|s| - 1] as int - '0' as int)
  }

  /** int(s) on an optionally signed string of decimal digits; None stands for ValueError. */
  function ParseInt(s: string): Option<int> {
    if |s| > 0 && s[0] == '-' then
      (if |s| > 1 && AllDigits(s[1..]) then Some(0 - DigitsValue(s[1..]) as int) else None)
    else if |s| > 0 && AllDigits(s) then Some(DigitsValue(s))
    else None
  }

  lemma {:induction false} NatToStringDigits(n: nat)
    ensures |NatToString(n)| > 0 && AllDigits(NatToString(n))
    ensures DigitsValue(NatToString(n)) == n
    decreases n
  {
    if n >= 10 {
      NatToStringDigits(n / 10);
      var s := NatToString(n);
      assert s[..|s| - 1] == NatToString(n / 10);
    }
  }

  /** int(str(n)) == n: reading back a rendered integer gives the integer. */
  lemma ParseIntToString(n: int)
    ensures ParseInt(IntToString(n)) == Some(n)
  {
    if n < 0 {
      NatToStringDigits(-n);
      assert IntToString(n)[1..] == NatToString(-n);
    } else {
      NatToStringDigits(n);
    }
  }

  // ---------------------------------------------------------------- c * n

  /** Python's c * n: n copies of c, and the empty string when n <= 0. */
  function Repeat(c: char, n: int): (r: string)
    ensures |r| == (if n > 0 then n else 0)
    ensures forall i :: 0 <= i < |r| ==> r[i] == c
    decreases n
  {
    if n <= 0 then [] else [c] + Repeat(c, n - 1)
  }

  // ---------------------------------------------------------------- os.path.join

  /** os.path.join(a, b) for two POSIX path components. */
  function PathJoin(a: string, b: string): string {
    if |b| > 0 && b[0] == '/' then b
    else if a == "" || a[|a| - 1] == '/' then a + b
    else a + "/" + b
  }

  // ---------------------------------------------------------------- str <

  /** Python's a < b on str: lexicographic by code point, a proper prefix first. */
  predicate LexLess(a: string, b: string)
    decreases |a|
  {
    if a == [] then b != []
    else if b == [] then false
    else if a[0] != b[0] then a[0] < b[0]
    else LexLess(a[1..], b[1..])
  }

  lemma {:induction false} LexLessIrreflexive(a: string)
    ensures !LexLess(a, a)
    decreases |a|
  {
    if a != [] {
      LexLessIrreflexive(a[1..]);
    }
  }

  lemma {:induction false} LexLessTransitive(a: string, b: string, c: string)
    requires LexLess(a, b) && LexLess(b, c)
    ensures LexLess(a, c)
    decreases |a|
  {
    if a != [] && b != [] && c != [] && a[0] == b[0] && b[0] == c[0] {
      LexLessTransitive(a[1..], b[1..], c[1..]);
    }
  }

  lemma {:induction false} LexLessTotal(a: string, b: string)
    ensures a == b || LexLess(a, b) || LexLess(b, a)
    decreases |a|
  {
    if a != [] && b != [] && a[0] == b[0] {
      LexLessTotal(a[1..], b[1..]);
      if a[1..] == b[1..] {
        assert a == [a[0]] + a[1..] && b == [b[0]] + b[1..];
      }
    }
  }
}
