/**
 * The Python string built-ins and regular expressions that the evidence
 * pipeline relies on, written out over `string` (a `seq<char>`):
 * `str.split()`, `str.split('_')`, `re.sub('\.$', '', s)`,
 * `re.sub(' .*', '', s)`, `'<li/>'.join(...)`, `html.escape`, `str(int)`
 * and `int(str)`.
 */
module Text {
  import opened Wrappers

  // ---------------------------------------------------------------------
  // Searching

  /** Index of the first `c` in `s`, or `|s|` when there is none. */
  function IndexOf(s: string, c: char): (i: nat)
    ensures i <= |s|
    ensures c !in s[..i]
    ensures i < |s| ==> s[i] == c
  {
    if s == [] || s[0] == c then 0 else 1 + IndexOf(s[1..], c)
  }

  // ---------------------------------------------------------------------
  // str.split() with no argument

  /** The characters Python's `str.split()` treats as separators. */
  predicate IsSpace(c: char) {
    || ('\t' <= c <= '\r')
    || ('\U{1C}' <= c <= '\U{1F}')
    || c == ' '
    || c == '\U{85}'
    || c == '\U{A0}'
    || c == '\U{1680}'
    || ('\U{2000}' <= c <= '\U{200A}')
    || c == '\U{2028}'
    || c == '\U{2029}'
    || c == '\U{202F}'
    || c == '\U{205F}'
    || c == '\U{3000}'
  }

  predicate NoSpace(s: string) {
    forall i :: 0 <= i < |s| ==> !IsSpace(s[i])
  }

  /** Length of the run of non-separator characters at the start of `s`. */
  function WordLength(s: string): (n: nat)
    ensures n <= |s|
    ensures NoSpace(s[..n])
    ensures n < |s| ==> IsSpace(s[n])
  {
    if s == [] || IsSpace(s[0]) then 0 else 1 + WordLength(s[1..])
  }

  /** Python's `s.split()`: the maximal runs of non-separator characters, in order. */
  function Words(s: string): (ws: seq<string>)
    ensures forall i :: 0 <= i < |ws| ==> ws[i] != [] && NoSpace(ws[i])
    decreases |s|
  {
    if s == [] then []
    else if IsSpace(s[0]) then Words(s[1..])
    else
      var n := WordLength(s);
      [s[..n]] + Words(s[n..])
  }

  /** Words separated by single spaces split back into exactly those words. */
  lemma {:induction false} WordsOfSpaced(ws: seq<string>)
    requires forall i :: 0 <= i < |ws| ==> ws[i] != [] && NoSpace(ws[i])
    ensures Words(Join(" ", ws)) == ws
  {
    if |ws| == 0 {
    } else if |ws| == 1 {
      WordOfSingle(ws[0]);
    } else {
      var init := ws[..|ws| - 1];
      var last := ws[|ws| - 1];
      WordsOfSpaced(init);
      WordsAppend(Join(" ", init), last);
      assert Join(" ", ws) == Join(" ", init) + " " + last;
      assert Words(Join(" ", init)) + [last] == ws;
    }
  }

  lemma {:induction false} WordOfSingle(w: string)
    requires w != [] && NoSpace(w)
    ensures Words(w) == [w]
  {
    WordLengthAll(w);
    assert w[..|w|] == w;
    assert w[|w|..] == [];
    assert Words(w) == [w[..|w|]] + Words(w[|w|..]);
  }

  lemma {:induction false} WordLengthAll(w: string)
    requires NoSpace(w)
    ensures WordLength(w) == |w|
  {
    if w != [] {
      assert NoSpace(w[1..]) by {
        forall i | 0 <= i < |w[1..]| ensures !IsSpace(w[1..][i]) {
          assert w[1..][i] == w[i + 1];
        }
      }
      WordLengthAll(w[1..]);
    }
  }

  /** Splitting `s + " " + w` yields the words of `s` followed by `w`. */
  lemma {:induction false} WordsAppend(s: string, w: string)
    requires w != [] && NoSpace(w)
    ensures Words(s + " " + w) == Words(s) + [w]
    decreases |s|
  {
    var t := s + " " + w;
    if s == [] {
      assert t[1..] == w;
      WordOfSingle(w);
    } else if IsSpace(s[0]) {
      assert t[1..] == s[1..] + " " + w;
      WordsAppend(s[1..], w);
    } else {
      var n := WordLength(s);
      WordLengthPrefix(s, " " + w);
      assert s + " " + w == s + (" " + w);
      assert t[..n] == s[..n];
      if n == |s| {
        assert t[n..] == " " + w;
        assert s[n..] == [];
        assert (" " + w)[1..] == w;
        WordOfSingle(w);
      } else {
        assert t[n..] == s[n..] + " " + w;
        WordsAppend(s[n..], w);
      }
    }
  }

  /** A word that ends inside `s` is not lengthened by what follows `s`. */
  lemma {:induction false} WordLengthPrefix(s: string, rest: string)
    requires rest != [] && IsSpace(rest[0])
    ensures WordLength(s + rest) == WordLength(s)
    decreases |s|
  {
    if s != [] && !IsSpace(s[0]) {
      assert (s + rest)[1..] == s[1..] + rest;
      WordLengthPrefix(s[1..], rest);
    }
  }

  // ---------------------------------------------------------------------
  // re.sub('\.$', '', s)

  /**
   * Python's `re.sub('\.$', '', s)`. `$` matches at the end and just before
   * a final newline, so the period dropped is the last character or the one
   * before a final '\n'; at most one period goes.
   */
  function StripPeriod(s: string): string {
    if |s| >= 1 && s[|s| - 1] == '.' then s[..|s| - 1]
    else if |s| >= 2 && s[|s| - 2] == '.' && s[|s| - 1] == '\n' then s[..|s| - 2] + "\n"
    else s
  }

  /**
   * Stripping removes a final period, and otherwise at most one period and
   * nothing else.
   */
  lemma StripPeriodRemovesOnePeriod(s: string)
    ensures |s| > 0 && s[|s| - 1] == '.' ==> StripPeriod(s) + "." == s
    ensures StripPeriod(s) == s || exists k :: 0 <= k < |s| && s[k] == '.' && StripPeriod(s) == s[..k] + s[k + 1..]
  {
    if |s| >= 1 && s[|s| - 1] == '.' {
      assert StripPeriod(s) == s[..|s| - 1] + s[|s|..];
    } else if |s| >= 2 && s[|s| - 2] == '.' && s[|s| - 1] == '\n' {
      assert s[..|s| - 2] + "\n" == s[..|s| - 2] + s[|s| - 1..];
    }
  }

  // ---------------------------------------------------------------------
  // re.sub(' .*', '', s)

  /**
   * Python's `re.sub(' .*', '', s)`: each space is removed together with
   * the rest of its line, because `.` does not match '\n'.
   */
  function GroupKey(s: string): (r: string)
    ensures ' ' !in r
    ensures |r| <= |s|
    decreases |s|
  {
    if s == [] then []
    else if s[0] == ' ' then GroupKey(s[1 + IndexOf(s[1..], '\n')..])
    else [s[0]] + GroupKey(s[1..])
  }

  /** On one line, the group key is the text before the first space. */
  lemma {:induction false} GroupKeyIsFirstWord(s: string)
    requires '\n' !in s
    ensures GroupKey(s) == s[..IndexOf(s, ' ')]
    decreases |s|
  {
    if s != [] && s[0] == ' ' {
      assert IndexOf(s[1..], '\n') == |s[1..]|;
      assert s[1 + |s[1..]|..] == [];
    } else if s != [] {
      assert '\n' !in s[1..] by {
        forall i | 0 <= i < |s[1..]| ensures s[1..][i] != '\n' {
          assert s[1..][i] == s[i + 1];
        }
      }
      GroupKeyIsFirstWord(s[1..]);
    }
  }

  // ---------------------------------------------------------------------
  // sep.join(parts)

  /** Python's `sep.join(parts)`. */
  function Join(sep: string, parts: seq<string>): string {
    if parts == [] then []
    else if |parts| == 1 then parts[0]
    else Join(sep, parts[..|parts| - 1]) + sep + parts[|parts| - 1]
  }

  // ---------------------------------------------------------------------
  // html.escape(s) with quote=True

  function EscapeChar(c: char): string {
    if c == '&' then "&amp;"
    else if c == '<' then "&lt;"
    else if c == '>' then "&gt;"
    else if c == '"' then "&quot;"
    else if c == '\'' then "&#x27;"
    else [c]
  }

  predicate Special(c: char) {
    c == '&' || c == '<' || c == '>' || c == '"' || c == '\''
  }

  /** Python's `html.escape(s)`: no markup character survives. */
  function HtmlEscape(s: string): (r: string)
    ensures forall i :: 0 <= i < |r| ==> r[i] != '<' && r[i] != '>' && r[i] != '"' && r[i] != '\''
  {
    if s == [] then [] else EscapeChar(s[0]) + HtmlEscape(s[1..])
  }

  /** Text without markup characters is left as it is by escaping. */
  lemma {:induction false} HtmlEscapePlain(s: string)
    requires forall i :: 0 <= i < |s| ==> !Special(s[i])
    ensures HtmlEscape(s) == s
  {
    if s != [] {
      HtmlEscapePlain(s[1..]);
    }
  }

  // ---------------------------------------------------------------------
  // str(n) and int(s)

  predicate IsDigit(c: char) {
    '0' <= c <= '9'
  }

  predicate AllDigits(s: string) {
    forall i :: 0 <= i < |s| ==> IsDigit(s[i])
  }

  function DigitChar(d: nat): (c: char)
    requires d < 10
    ensures IsDigit(c)
  {
    (48 + d) as char
  }

  function DigitValue(c: char): (d: nat)
    requires IsDigit(c)
    ensures d < 10
  {
    c as int - 48
  }

  /** Python's `str(n)` for `n >= 0`: decimal digits, no leading zero. */
  function NatToString(n: nat): (r: string)
    ensures r != [] && AllDigits(r)
    ensures |r| > 1 ==> r[0] != '0'
  {
    if n < 10 then [DigitChar(n)] else NatToString(n / 10) + [DigitChar(n % 10)]
  }

  /** Python's `str(n)`. */
  function IntToString(n: int): (r: string)
    ensures '_' !in r
  {
    if n < 0 then "-" + NatToString(-n) else NatToString(n)
  }

  /** Value of a string of decimal digits (leading zeros allowed, as in `int('007')`). */
  function DigitsValue(s: string): nat
    requires AllDigits(s)
  {
    if s == [] then 0 else DigitsValue(s[..|s| - 1]) * 10 + DigitValue(s[|s| - 1])
  }

  /**
   * Python's `int(s)` on an optional sign followed by ASCII digits; `None`
   * where Python would raise `ValueError`.
   */
  function ParseInt(s: string): Option<int> {
    if |s| >= 1 && (s[0] == '-' || s[0] == '+') then
      if |s| >= 2 && AllDigits(s[1..]) then
        var v: int := DigitsValue(s[1..]);
        Some(if s[0] == '-' then -v else v)
      else None
    else if s != [] && AllDigits(s) then Some(DigitsValue(s))
    else None
  }

  lemma {:induction false} NatToStringValue(n: nat)
    ensures DigitsValue(NatToString(n)) == n
  {
    var r := NatToString(n);
    if n >= 10 {
      NatToStringValue(n / 10);
      assert r[..|r| - 1] == NatToString(n / 10);
    }
  }

  /** `int(str(n)) == n` for every integer. */
  lemma IntRoundTrip(n: int)
    ensures ParseInt(IntToString(n)) == Some(n)
  {
    var s := IntToString(n);
    if n < 0 {
      var d := NatToString(-n);
      assert s[0] == '-' && s[1..] == d;
      NatToStringValue(-n);
    } else {
      assert IsDigit(s[0]);
      NatToStringValue(n);
    }
  }

  // ---------------------------------------------------------------------
  // s.split(sep) for a one-character separator

  /** Python's `s.split(sep)`: the pieces between separators, empty ones included. */
  function SplitOn(s: string, sep: char): (parts: seq<string>)
    ensures |parts| >= 1
    decreases |s|
  {
    var i := IndexOf(s, sep);
    if i == |s| then [s] else [s[..i]] + SplitOn(s[i + 1..], sep)
  }

  /** Joining two separator-free pieces with the separator splits back into them. */
  lemma SplitOnPair(a: string, b: string, sep: char)
    requires sep !in a && sep !in b
    ensures SplitOn(a + [sep] + b, sep) == [a, b]
  {
    var s := a + [sep] + b;
    IndexOfJoin(a, b, sep);
    IndexOfNone(b, sep);
    assert s[..|a|] == a;
    assert s[|a| + 1..] == b;
  }

  lemma IndexOfJoin(a: string, b: string, sep: char)
    requires sep !in a
    ensures IndexOf(a + [sep] + b, sep) == |a|
  {
    IndexOfAbsent(a, sep, [sep] + b);
    assert a + [sep] + b == a + ([sep] + b);
  }

  lemma IndexOfNone(s: string, c: char)
    requires c !in s
    ensures IndexOf(s, c) == |s|
  {
  }

  lemma {:induction false} IndexOfAbsent(a: string, c: char, rest: string)
    requires c !in a
    ensures IndexOf(a + rest, c) == |a| + IndexOf(rest, c)
  {
    if a != [] {
      assert (a + rest)[1..] == a[1..] + rest;
      IndexOfAbsent(a[1..], c, rest);
    } else {
      assert a + rest == rest;
    }
  }
}
