/** The Python string primitives the bot's handlers rely on: `str.split()`
    with no separator, `int(token)` on one token, and `str(n)` as an f-string
    renders an integer. */
module Text {
  import opened Wrappers

  /** The characters for which Python's `str.isspace()` holds. */
  predicate IsSpace(c: char) {
    ('\t' <= c <= '\r') || ('\U{1C}' <= c <= ' ') || c == '\U{85}' || c == '\U{A0}'
    || c == '\U{1680}' || ('\U{2000}' <= c <= '\U{200A}') || c == '\U{2028}'
    || c == '\U{2029}' || c == '\U{202F}' || c == '\U{205F}' || c == '\U{3000}'
  }

  predicate NoSpace(s: string) {
    forall i :: 0 <= i < |s| ==> !IsSpace(s[i])
  }

  /** A token `str.split()` can produce: non-empty and free of whitespace. */
  predicate IsWord(s: string) {
    s != [] && NoSpace(s)
  }

  /** `s.split()`: the maximal runs of non-whitespace characters, in order. */
  function Split(s: string): (words: seq<string>)
    ensures forall k :: 0 <= k < |words| ==> IsWord(words[k])
  {
    SplitFrom(s, [])
  }

  /** `split()` of `s` when the word `cur` has been read just before it. */
  function SplitFrom(s: string, cur: string): (words: seq<string>)
    requires NoSpace(cur)
    ensures forall k :: 0 <= k < |words| ==> IsWord(words[k])
    decreases |s|
  {
    if s == [] then
      (if cur == [] then [] else [cur])
    else if IsSpace(s[0]) then
      (if cur == [] then [] else [cur]) + SplitFrom(s[1..], [])
    else
      SplitFrom(s[1..], cur + [s[0]])
  }

  /** The characters of `s` that are not whitespace, in order. */
  function Visible(s: string): string {
    if s == [] then [] else (if IsSpace(s[0]) then [] else [s[0]]) + Visible(s[1..])
  }

  function Concat(words: seq<string>): string {
    if words == [] then [] else words[0] + Concat(words[1..])
  }

  /** Words joined by single spaces: the shape of a typed command. */
  function Unwords(words: seq<string>): string {
    if words == [] then []
    else if |words| == 1 then words[0]
    else words[0] + " " + Unwords(words[1..])
  }

  /** `split()` loses nothing but whitespace. */
  lemma {:induction false} SplitKeepsVisible(s: string)
    ensures Concat(Split(s)) == Visible(s)
  {
    SplitFromKeepsVisible(s, []);
  }

  lemma {:induction false} SplitFromKeepsVisible(s: string, cur: string)
    requires NoSpace(cur)
    ensures Concat(SplitFrom(s, cur)) == cur + Visible(s)
    decreases |s|
  {
    if s == [] {
    } else if IsSpace(s[0]) {
      SplitFromKeepsVisible(s[1..], []);
      ConcatAppend(if cur == [] then [] else [cur], SplitFrom(s[1..], []));
    } else {
      SplitFromKeepsVisible(s[1..], cur + [s[0]]);
      assert cur + [s[0]] + Visible(s[1..]) == cur + Visible(s);
    }
  }

  lemma {:induction false} ConcatAppend(a: seq<string>, b: seq<string>)
    ensures Concat(a + b) == Concat(a) + Concat(b)
  {
    if a != [] {
      assert (a + b)[0] == a[0] && (a + b)[1..] == a[1..] + b;
      ConcatAppend(a[1..], b);
      assert Concat(a + b) == a[0] + (Concat(a[1..]) + Concat(b));
    } else {
      assert a + b == b;
    }
  }

  /** Reading a whole word continues the current one. */
  lemma {:induction false} SplitFromWord(w: string, rest: string, cur: string)
    requires NoSpace(w) && NoSpace(cur)
    ensures SplitFrom(w + rest, cur) == SplitFrom(rest, cur + w)
    decreases |w|
  {
    if w == [] {
      assert w + rest == rest && cur + w == cur;
    } else {
      assert (w + rest)[0] == w[0] && (w + rest)[1..] == w[1..] + rest;
      SplitFromWord(w[1..], rest, cur + [w[0]]);
      assert cur + [w[0]] + w[1..] == cur + w;
    }
  }

  /** Splitting a space-joined list of words gives the words back. */
  lemma {:induction false} SplitUnwords(words: seq<string>)
    requires forall k :: 0 <= k < |words| ==> IsWord(words[k])
    ensures Split(Unwords(words)) == words
  {
    if words == [] {
    } else if |words| == 1 {
      SplitFromWord(words[0], [], []);
      assert words[0] + [] == words[0] && [] + words[0] == words[0];
    } else {
      var rest := " " + Unwords(words[1..]);
      assert Unwords(words) == words[0] + rest;
      SplitFromWord(words[0], rest, []);
      assert [] + words[0] == words[0];
      assert rest[0] == ' ' && rest[1..] == Unwords(words[1..]);
      SplitUnwords(words[1..]);
      assert [words[0]] + words[1..] == words;
    }
  }

  /** A single word splits to itself. */
  lemma SplitWord(w: string)
    requires IsWord(w)
    ensures Split(w) == [w]
  {
    SplitFromWord(w, [], []);
    assert w + [] == w && [] + w == w;
  }

  /** Any whitespace character separates tokens: what precedes it and what
      follows it are split independently. */
  lemma SplitAtSpace(s: string, c: char, t: string)
    requires IsSpace(c)
    ensures Split(s + [c] + t) == Split(s) + Split(t)
  {
    SplitFromAtSpace(s, c, t, []);
  }

  lemma {:induction false} SplitFromAtSpace(s: string, c: char, t: string, cur: string)
    requires IsSpace(c) && NoSpace(cur)
    ensures SplitFrom(s + [c] + t, cur) == SplitFrom(s, cur) + Split(t)
    decreases |s|
  {
    var u := s + [c] + t;
    var pending: seq<string> := if cur == [] then [] else [cur];
    if s == [] {
      assert u == [c] + t && u[0] == c && u[1..] == t;
      assert SplitFrom(u, cur) == pending + SplitFrom(t, []);
    } else {
      assert u[0] == s[0] && u[1..] == s[1..] + [c] + t;
      if IsSpace(s[0]) {
        SplitFromAtSpace(s[1..], c, t, []);
        assert SplitFrom(u, cur) == pending + (SplitFrom(s[1..], []) + Split(t));
        assert SplitFrom(s, cur) == pending + SplitFrom(s[1..], []);
      } else {
        SplitFromAtSpace(s[1..], c, t, cur + [s[0]]);
      }
    }
  }

  predicate IsDigit(c: char) {
    '0' <= c <= '9'
  }

  /** A non-empty run of ASCII decimal digits. */
  predicate IsNumeral(s: string) {
    s != [] && forall i :: 0 <= i < |s| ==> IsDigit(s[i])
  }

  function DigitChar(d: nat): (c: char)
    requires d < 10
    ensures IsDigit(c)
  {
    ('0' as int + d) as char
  }

  /** The number a numeral denotes, most significant digit first. */
  function NumeralValue(s: string): nat
    requires forall i :: 0 <= i < |s| ==> IsDigit(s[i])
  {
    if s == [] then 0
    else NumeralValue(s[..|s| - 1]) * 10 + DigitValue(s[|s| - 1])
  }

  function DigitValue(c: char): (d: nat)
    requires IsDigit(c)
    ensures d < 10
  {
    c as int - '0' as int
  }

  /** `str(n)` for a natural number: its decimal numeral without leading zeros. */
  function NatToString(n: nat): (s: string)
    ensures IsNumeral(s)
    ensures s[0] == '0' ==> n == 0
  {
    if n < 10 then [DigitChar(n)] else NatToString(n / 10) + [DigitChar(n % 10)]
  }

  /** `str(n)` for any integer: a minus sign before the magnitude when negative. */
  function IntToString(n: int): (s: string)
    ensures IsWord(s)
  {
    if n < 0 then "-" + NatToString(-n) else NatToString(n)
  }

  /** `int(t)` on a token: an optional sign, then ASCII digits; `None` where
      Python raises `ValueError`. */
  function ParseInt(t: string): (r: Option<int>)
    ensures r.Some? ==> IsWord(t)
    ensures r.Some? <==> IsNumeral(t) || (|t| > 1 && (t[0] == '-' || t[0] == '+') && IsNumeral(t[1..]))
  {
    if |t| > 1 && (t[0] == '-' || t[0] == '+') && IsNumeral(t[1..]) then
      var magnitude: int := NumeralValue(t[1..]);
      Some(if t[0] == '-' then -magnitude else magnitude)
    else if IsNumeral(t) then
      Some(NumeralValue(t))
    else
      None
  }

  lemma {:induction false} NumeralRoundTrip(n: nat)
    ensures NumeralValue(NatToString(n)) == n
  {
    var s := NatToString(n);
    if n >= 10 {
      NumeralRoundTrip(n / 10);
      assert s[..|s| - 1] == NatToString(n / 10);
    }
  }

  /** A leading zero does not change a numeral's value. */
  lemma {:induction false} NumeralLeadingZero(d: string)
    requires forall i :: 0 <= i < |d| ==> IsDigit(d[i])
    ensures NumeralValue("0" + d) == NumeralValue(d)
  {
    var z := "0" + d;
    if d != [] {
      assert z[..|z| - 1] == "0" + d[..|d| - 1];
      assert z[|z| - 1] == d[|d| - 1];
      NumeralLeadingZero(d[..|d| - 1]);
    }
  }

  /** A numeral that does not start with `0` denotes a positive number. */
  lemma {:induction false} NumeralPositive(d: string)
    requires IsNumeral(d) && d[0] != '0'
    ensures NumeralValue(d) > 0
  {
    if |d| > 1 {
      NumeralPositive(d[..|d| - 1]);
    }
  }

  /** `int()` ignores leading zeros: `int("07") == int("7")`. */
  lemma ParseIntLeadingZero(d: string)
    requires IsNumeral(d)
    ensures ParseInt("0" + d) == ParseInt(d)
  {
    NumeralLeadingZero(d);
  }

  /** `int()` reads a `+` sign as no sign: `int("+3") == int("3")`. */
  lemma ParseIntPlus(d: string)
    requires IsNumeral(d)
    ensures ParseInt("+" + d) == ParseInt(d)
  {
    assert ("+" + d)[1..] == d;
  }

  /** `int()` reads a `-` sign as negation: `int("-3") == -int("3")`. */
  lemma ParseIntMinus(d: string)
    requires IsNumeral(d)
    ensures ParseInt("-" + d) == Some(-ParseInt(d).value)
  {
    assert ("-" + d)[1..] == d;
  }

  /** A numeral without leading zeros is exactly how its value prints. */
  lemma {:induction false} NatToStringOfNumeral(d: string)
    requires IsNumeral(d) && (d[0] != '0' || d == "0")
    ensures NatToString(NumeralValue(d)) == d
  {
    var last := d[|d| - 1];
    if |d| == 1 {
      assert d == [last];
    } else {
      var p := d[..|d| - 1];
      assert p[0] == d[0];
      NumeralPositive(p);
      NatToStringOfNumeral(p);
      var n := NumeralValue(d);
      assert n / 10 == NumeralValue(p) && n % 10 == DigitValue(last);
      assert DigitChar(DigitValue(last)) == last;
      assert d == p + [last];
    }
  }

  /** What an f-string prints, `int()` reads back. */
  lemma {:induction false} ParseIntToString(n: int)
    ensures ParseInt(IntToString(n)) == Some(n)
  {
    var s := IntToString(n);
    if n < 0 {
      NumeralRoundTrip(-n);
      assert s[1..] == NatToString(-n);
    } else {
      NumeralRoundTrip(n);
    }
  }
}
