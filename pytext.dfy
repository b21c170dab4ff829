/**
 * The Python string operations the recommender relies on, with the
 * semantics of CPython's `str` methods: the whitespace set of
 * `str.isspace`, `str.split()` with no argument, `str.split(sep)`,
 * `sep.join(parts)`, `str.strip(chars)` and the decimal form that
 * `int(str)` accepts.
 */
module PyText {
  import opened Wrappers

  /** The characters `str.isspace()` accepts; `split()` and `strip()` break and trim on exactly these. */
  predicate IsSpace(c: char) {
    || c == ' ' || c == '\t' || c == '\n' || c == '\r' || c == '\U{B}' || c == '\U{C}'
    || ('\U{1C}' <= c <= '\U{1F}')
    || c == '\U{85}' || c == '\U{A0}' || c == '\U{1680}'
    || ('\U{2000}' <= c <= '\U{200A}')
    || c == '\U{2028}' || c == '\U{2029}' || c == '\U{202F}' || c == '\U{205F}' || c == '\U{3000}'
  }

  /** `s.strip() == ""`: the string holds whitespace only (the empty string included). */
  predicate IsBlank(s: string) {
    forall i :: 0 <= i < |s| ==> IsSpace(s[i])
  }

  /** A word as `str.split()` yields it: non-empty and free of whitespace. */
  predicate IsWord(w: string) {
    |w| > 0 && forall i :: 0 <= i < |w| ==> !IsSpace(w[i])
  }

  /** `s.lstrip(chars)`, with the stripped set given as a predicate. */
  function LStrip(s: string, strip: char -> bool): (r: string)
    ensures |r| <= |s| && r == s[|s| - |r|..]
    ensures forall i :: 0 <= i < |s| - |r| ==> strip(s[i])
    ensures r == [] || !strip(r[0])
  {
    if s != [] && strip(s[0]) then
      var r := LStrip(s[1..], strip);
      assert s[1..][|s| - 1 - |r|..] == s[|s| - |r|..];
      assert forall i :: 1 <= i < |s| - |r| ==> s[i] == s[1..][i - 1];
      r
    else s
  }

  /** `s.rstrip(chars)`, with the stripped set given as a predicate. */
  function RStrip(s: string, strip: char -> bool): (r: string)
    ensures |r| <= |s| && r == s[..|r|]
    ensures forall i :: |r| <= i < |s| ==> strip(s[i])
    ensures r == [] || !strip(r[|r| - 1])
  {
    if s != [] && strip(s[|s| - 1]) then
      var r := RStrip(s[..|s| - 1], strip);
      assert s[..|s| - 1][..|r|] == s[..|r|];
      r
    else s
  }

  /** `s.strip(c)` for a single character `c`: every leading and trailing `c` removed. */
  function StripChar(s: string, c: char): string {
    RStrip(LStrip(s, EqualTo(c)), EqualTo(c))
  }

  /** The character set `{c}` as a predicate. */
  function EqualTo(c: char): char -> bool {
    x => x == c
  }

  /** The longest prefix of `s` without whitespace. */
  function WordPrefix(s: string): (w: string)
    ensures w <= s
    ensures forall i :: 0 <= i < |w| ==> !IsSpace(w[i])
    ensures |w| < |s| ==> IsSpace(s[|w|])
  {
    if s != [] && !IsSpace(s[0]) then [s[0]] + WordPrefix(s[1..]) else []
  }

  /** `s.split()`: the maximal runs of non-whitespace characters of `s`, in order. */
  function Words(s: string): (ws: seq<string>)
    ensures forall i :: 0 <= i < |ws| ==> IsWord(ws[i])
    decreases |s|
  {
    var t := LStrip(s, IsSpace);
    if t == [] then []
    else
      var w := WordPrefix(t);
      [w] + Words(t[|w|..])
  }

  /** `sep.join(parts)`. */
  function JoinWith(sep: string, parts: seq<string>): string {
    if parts == [] then ""
    else if |parts| == 1 then parts[0]
    else parts[0] + sep + JoinWith(sep, parts[1..])
  }

  /** `s.split(sep)` for a one-character separator: empty parts are kept. */
  function Split(s: string, sep: char): (parts: seq<string>)
    ensures |parts| >= 1
    ensures forall i :: 0 <= i < |parts| ==> sep !in parts[i]
  {
    if s == [] then [""]
    else
      var rest := Split(s[1..], sep);
      if s[0] == sep then [""] + rest
      else [[s[0]] + rest[0]] + rest[1..]
  }

  /** `sep.join(s.split(sep)) == s`: splitting loses nothing. */
  lemma {:induction false} JoinSplit(s: string, sep: char)
    ensures JoinWith([sep], Split(s, sep)) == s
  {
    if s != [] {
      var rest := Split(s[1..], sep);
      JoinSplit(s[1..], sep);
      var parts := Split(s, sep);
      if s[0] == sep {
        assert parts == [""] + rest;
        assert parts[1..] == rest;
        assert [sep] + s[1..] == s;
      } else {
        assert parts == [[s[0]] + rest[0]] + rest[1..];
        assert JoinWith([sep], parts) == [s[0]] + JoinWith([sep], rest) by {
          if |rest| > 1 {
            assert parts[1..] == rest[1..];
          }
        }
        assert [s[0]] + s[1..] == s;
      }
    }
  }

  predicate IsDigit(c: char) {
    '0' <= c <= '9'
  }

  /**
   * The unsigned body `int(str)` accepts in base 10: ASCII digits, with
   * single underscores allowed between two digits.
   */
  predicate IsNumeral(s: string) {
    && |s| > 0
    && IsDigit(s[0])
    && IsDigit(s[|s| - 1])
    && forall i :: 0 <= i < |s| ==> IsDigit(s[i]) || (s[i] == '_' && i + 1 < |s| && IsDigit(s[i + 1]))
  }

  /** The decimal value of the digits of `s`, underscores skipped. */
  function NumeralValue(s: string): nat {
    if s == [] then 0
    else
      var last := s[|s| - 1];
      if IsDigit(last) then 10 * NumeralValue(s[..|s| - 1]) + (last as int - '0' as int)
      else NumeralValue(s[..|s| - 1])
  }

  /** `int(tok)` for a token without surrounding whitespace: `None` where Python raises `ValueError`. */
  function ParseInt(tok: string): Option<int> {
    if |tok| > 0 && (tok[0] == '+' || tok[0] == '-') then
      if IsNumeral(tok[1..]) then
        var v: int := NumeralValue(tok[1..]);
        Some(if tok[0] == '-' then -v else v)
      else None
    else if IsNumeral(tok) then Some(NumeralValue(tok))
    else None
  }

  /** `str(n)` for a natural number: its decimal digits, most significant first. */
  function ShowNat(n: nat): (s: string)
    ensures |s| > 0 && forall i :: 0 <= i < |s| ==> IsDigit(s[i])
  {
    var d := ['0' + (n % 10) as char];
    if n < 10 then d else ShowNat(n / 10) + d
  }

  /** `str(n)` for an integer. */
  function ShowInt(n: int): string {
    if n < 0 then "-" + ShowNat(-n) else ShowNat(n)
  }

  lemma {:induction false} NumeralValueOfShowNat(n: nat)
    ensures NumeralValue(ShowNat(n)) == n
  {
    var s := ShowNat(n);
    if n >= 10 {
      NumeralValueOfShowNat(n / 10);
      assert s[..|s| - 1] == ShowNat(n / 10);
    }
  }

  /** `int(str(n)) == n`: every integer's decimal form parses back to it. */
  lemma ParseIntShowInt(n: int)
    ensures ParseInt(ShowInt(n)) == Some(n)
  {
    var m: nat := if n < 0 then -n else n;
    NumeralValueOfShowNat(m);
    if n < 0 {
      assert ShowInt(n)[1..] == ShowNat(m);
    }
  }

  /** `lstrip` removes exactly a leading run of stripped characters that is followed by a kept one. */
  lemma LStripRun(q: string, s: string, strip: char -> bool)
    requires forall i :: 0 <= i < |q| ==> strip(q[i])
    requires s != [] && !strip(s[0])
    ensures LStrip(q + s, strip) == s
  {
    var l := LStrip(q + s, strip);
    assert (q + s)[|q|] == s[0];
    assert |q + s| - |l| == |q|;
    assert (q + s)[|q|..] == s;
  }

  /** `rstrip` cannot cut into a prefix that ends in a kept character. */
  lemma RStripKeepsPrefix(w: string, rest: string, strip: char -> bool)
    requires w != [] && !strip(w[|w| - 1])
    ensures w <= RStrip(w + rest, strip) <= w + rest
  {
    var r := RStrip(w + rest, strip);
    assert (w + rest)[|w| - 1] == w[|w| - 1];
    assert r[..|w|] == (w + rest)[..|w|] == w;
  }

  /** `rstrip` of `w + rest`, where `w` ends in a kept character: `w` followed by a prefix of `rest`. */
  lemma RStripAfterWord(w: string, rest: string, strip: char -> bool)
    requires w != [] && !strip(w[|w| - 1])
    ensures var r := RStrip(w + rest, strip);
            |w| <= |r| <= |w| + |rest| && r == w + rest[..|r| - |w|]
  {
    RStripKeepsPrefix(w, rest, strip);
    PrefixBetween(w, rest, RStrip(w + rest, strip));
  }

  /** `s.strip(c)` on a run of `c` followed by text that starts with another character. */
  lemma StripCharLeadingRun(c: char, q: string, body: string)
    requires forall i :: 0 <= i < |q| ==> q[i] == c
    requires body != [] && body[0] != c
    ensures StripChar(q + body, c) == RStrip(body, EqualTo(c))
  {
    LStripRun(q, body, EqualTo(c));
  }

  /**
   * `s.strip(c)` on `q + (w + rest)`, where `q` is a run of `c` and `w`
   * neither starts nor ends with `c`: `w` followed by a prefix of `rest`.
   */
  lemma StripCharAroundWord(c: char, q: string, w: string, rest: string)
    requires forall i :: 0 <= i < |q| ==> q[i] == c
    requires w != [] && w[0] != c && w[|w| - 1] != c
    ensures var r := StripChar(q + (w + rest), c);
            |w| <= |r| <= |w| + |rest| && r == w + rest[..|r| - |w|]
  {
    assert (w + rest)[0] == w[0];
    StripCharLeadingRun(c, q, w + rest);
    RStripAfterWord(w, rest, EqualTo(c));
  }

  /** A string between `w` and `w + rest` in the prefix order is `w` followed by a prefix of `rest`. */
  lemma PrefixBetween(w: string, rest: string, r: string)
    requires w <= r <= w + rest
    ensures |w| <= |r| <= |w| + |rest| && r == w + rest[..|r| - |w|]
  {
    var t := rest[..|r| - |w|];
    forall i | 0 <= i < |r| ensures r[i] == (w + t)[i] {
      if i >= |w| {
        assert r[i] == (w + rest)[i];
      }
    }
  }

  /** A string that starts with a non-space character is its own `lstrip()`. */
  lemma LStripNoSpace(s: string)
    requires s == [] || !IsSpace(s[0])
    ensures LStrip(s, IsSpace) == s
  {
  }

  /** The word ending at a space (or at the end) is the prefix `WordPrefix` finds. */
  lemma {:induction false} WordPrefixOfWord(w: string, rest: string)
    requires forall i :: 0 <= i < |w| ==> !IsSpace(w[i])
    requires rest == [] || IsSpace(rest[0])
    ensures WordPrefix(w + rest) == w
  {
    if w != [] {
      assert (w + rest)[1..] == w[1..] + rest;
      WordPrefixOfWord(w[1..], rest);
    }
  }

  /** A leading whitespace character does not change `split()`. */
  lemma WordsAfterSpace(c: char, s: string)
    requires IsSpace(c)
    ensures Words([c] + s) == Words(s)
  {
    assert ([c] + s)[1..] == s;
  }

  /** A word followed by whitespace (or nothing) is the first word of the split. */
  lemma WordsCons(w: string, rest: string)
    requires IsWord(w)
    requires rest == [] || IsSpace(rest[0])
    ensures Words(w + rest) == [w] + Words(rest)
  {
    var s := w + rest;
    LStripNoSpace(s);
    WordPrefixOfWord(w, rest);
    assert s[|w|..] == rest;
  }

  /** `w.split() == [w]` for a word `w`. */
  lemma WordsOfOneWord(w: string)
    requires IsWord(w)
    ensures Words(w) == [w]
  {
    assert w + [] == w;
    WordsCons(w, []);
  }

  /** A word, a space, then any text: the split is the word followed by the split of the text. */
  lemma WordsOfSpaced(w: string, t: string)
    requires IsWord(w)
    ensures Words(w + " " + t) == [w] + Words(t)
  {
    var rest := " " + t;
    assert w + " " + t == w + rest;
    assert IsSpace(rest[0]);
    WordsCons(w, rest);
    WordsAfterSpace(' ', t);
  }

  /** `" ".join(ws).split() == ws` for any list of words. */
  lemma {:induction false} WordsOfJoin(ws: seq<string>)
    requires forall i :: 0 <= i < |ws| ==> IsWord(ws[i])
    ensures Words(JoinWith(" ", ws)) == ws
  {
    if |ws| == 1 {
      WordsOfOneWord(ws[0]);
    } else if |ws| > 1 {
      WordsOfJoin(ws[1..]);
      WordsOfSpaced(ws[0], JoinWith(" ", ws[1..]));
      assert ws == [ws[0]] + ws[1..];
    }
  }

  /** The character at position `i` of a concatenation. */
  lemma ConcatAt(s: string, t: string, i: int)
    ensures 0 <= i < |s| ==> (s + t)[i] == s[i]
    ensures 0 <= |s| <= i < |s| + |t| ==> (s + t)[i] == t[i - |s|]
  {
  }

  /** The part before the first separator is determined by the string. */
  lemma SeparatedPrefixUnique(sep: char, a: string, x: string, b: string, y: string)
    requires a + x == b + y
    requires sep !in a && sep !in b
    requires x == [] || x[0] == sep
    requires y == [] || y[0] == sep
    ensures a == b && x == y
  {
    if |a| < |b| {
      ConcatAt(a, x, |a|);
      ConcatAt(b, y, |a|);
      assert false;
    } else if |b| < |a| {
      ConcatAt(a, x, |b|);
      ConcatAt(b, y, |b|);
      assert false;
    } else {
      assert a == (a + x)[..|a|] == (b + y)[..|b|] == b;
    }
  }

  /** Joining separator-free parts with that separator loses nothing: the parts are recoverable. */
  lemma {:induction false} JoinWithInjective(sep: char, ps: seq<string>, qs: seq<string>)
    requires |ps| >= 1 && |qs| >= 1
    requires forall i :: 0 <= i < |ps| ==> sep !in ps[i]
    requires forall i :: 0 <= i < |qs| ==> sep !in qs[i]
    requires JoinWith([sep], ps) == JoinWith([sep], qs)
    ensures ps == qs
  {
    var x := if |ps| == 1 then "" else [sep] + JoinWith([sep], ps[1..]);
    var y := if |qs| == 1 then "" else [sep] + JoinWith([sep], qs[1..]);
    assert JoinWith([sep], ps) == ps[0] + x;
    assert JoinWith([sep], qs) == qs[0] + y;
    SeparatedPrefixUnique(sep, ps[0], x, qs[0], y);
    if |ps| > 1 && |qs| > 1 {
      assert x[1..] == JoinWith([sep], ps[1..]);
      assert y[1..] == JoinWith([sep], qs[1..]);
      JoinWithInjective(sep, ps[1..], qs[1..]);
      assert ps == [ps[0]] + ps[1..];
      assert qs == [qs[0]] + qs[1..];
    }
  }

  /** `sep.join(parts).split(sep) == parts` when no part contains `sep`. */
  lemma SplitJoinWith(sep: char, parts: seq<string>)
    requires |parts| >= 1
    requires forall i :: 0 <= i < |parts| ==> sep !in parts[i]
    ensures Split(JoinWith([sep], parts), sep) == parts
  {
    var s := JoinWith([sep], parts);
    JoinSplit(s, sep);
    JoinWithInjective(sep, Split(s, sep), parts);
  }

  /** A join of separator-free parts contains the separator exactly when there are two parts or more. */
  lemma {:induction false} SeparatorInJoin(sep: char, parts: seq<string>)
    requires |parts| >= 1
    requires forall i :: 0 <= i < |parts| ==> sep !in parts[i]
    ensures sep in JoinWith([sep], parts) <==> |parts| >= 2
  {
    if |parts| >= 2 {
      assert JoinWith([sep], parts)[|parts[0]|] == sep;
    }
  }

  /** A join contains a character only if a part or the separator does. */
  lemma {:induction false} CharInJoin(c: char, sep: string, parts: seq<string>)
    requires c !in sep
    requires forall i :: 0 <= i < |parts| ==> c !in parts[i]
    ensures c !in JoinWith(sep, parts)
  {
    if |parts| > 1 {
      CharInJoin(c, sep, parts[1..]);
    }
  }
}
