/** The Python string primitives the spell checker is built on: `str.isspace`,
    `str.strip()`, `str.split()`, `str.split(sep)`, `sep.join(parts)` and the decimal
    rendering of an `int` in an f-string. */
module Text {

  /** Python's whitespace set (`str.isspace`), which `str.strip()` and `str.split()` use. */
  predicate IsWhitespace(c: char) {
    var n := c as int;
    (0x09 <= n <= 0x0D) || (0x1C <= n <= 0x20) || n == 0x85 || n == 0xA0 || n == 0x1680
    || (0x2000 <= n <= 0x200A) || n == 0x2028 || n == 0x2029 || n == 0x202F || n == 0x205F
    || n == 0x3000
  }

  /** A token of `str.split()`: non-empty and free of whitespace. */
  predicate IsWord(w: string) {
    |w| > 0 && forall k :: 0 <= k < |w| ==> !IsWhitespace(w[k])
  }

  /** `sep.join(parts)` for a one-character separator. */
  function JoinWith(parts: seq<string>, sep: char): string
  {
    if |parts| == 0 then ""
    else if |parts| == 1 then parts[0]
    else parts[0] + [sep] + JoinWith(parts[1..], sep)
  }

  /** Index of the first occurrence of `c` in `s`, or `|s|` when there is none. */
  function IndexOf(s: string, c: char): (i: nat)
    ensures i <= |s|
    ensures forall k :: 0 <= k < i ==> s[k] != c
    ensures i < |s| ==> s[i] == c
    decreases |s|
  {
    if |s| == 0 then 0
    else if s[0] == c then 0
    else 1 + IndexOf(s[1..], c)
  }

  /** `s.split(sep)`: the pieces between occurrences of `sep`; `"".split(sep)` is `[""]`. */
  function SplitOn(s: string, sep: char): (parts: seq<string>)
    ensures |parts| >= 1
    ensures forall i :: 0 <= i < |parts| ==> sep !in parts[i]
    ensures JoinWith(parts, sep) == s
    decreases |s|
  {
    var i := IndexOf(s, sep);
    if i == |s| then [s]
    else
      var rest := SplitOn(s[i + 1..], sep);
      assert ([s[..i]] + rest)[1..] == rest;
      [s[..i]] + rest
  }

  /** Splitting a join on the same separator gives the parts back, provided no part
      contains the separator. */
  lemma {:induction false} SplitOnJoin(parts: seq<string>, sep: char)
    requires |parts| >= 1
    requires forall i :: 0 <= i < |parts| ==> sep !in parts[i]
    ensures SplitOn(JoinWith(parts, sep), sep) == parts
    decreases |parts|
  {
    if |parts| == 1 {
      assert IndexOf(parts[0], sep) == |parts[0]|;
    } else {
      var s := JoinWith(parts, sep);
      var rest := JoinWith(parts[1..], sep);
      assert s == parts[0] + [sep] + rest;
      assert s[|parts[0]|] == sep;
      assert IndexOf(s, sep) == |parts[0]|;
      assert s[..|parts[0]|] == parts[0];
      assert s[|parts[0]| + 1..] == rest;
      SplitOnJoin(parts[1..], sep);
    }
  }

  /** A string without the separator is a single piece. */
  lemma SplitOnAbsent(s: string, sep: char)
    requires sep !in s
    ensures SplitOn(s, sep) == [s]
  {
    SplitOnJoin([s], sep);
  }

  /** A join contains the separator character only where the parts do. */
  lemma {:induction false} JoinWithout(parts: seq<string>, sep: char, c: char)
    requires c != sep
    requires forall i :: 0 <= i < |parts| ==> c !in parts[i]
    ensures c !in JoinWith(parts, sep)
    decreases |parts|
  {
    if |parts| > 1 {
      JoinWithout(parts[1..], sep, c);
    }
  }

  /** `s` with its leading whitespace removed. */
  function TrimStart(s: string): (r: string)
    ensures |r| <= |s|
    ensures r == [] || !IsWhitespace(r[0])
    ensures forall k :: 0 <= k < |s| - |r| ==> IsWhitespace(s[k])
    decreases |s|
  {
    if |s| > 0 && IsWhitespace(s[0]) then TrimStart(s[1..]) else s
  }

  /** `s` with its trailing whitespace removed. */
  function TrimEnd(s: string): (r: string)
    ensures |r| <= |s|
    ensures r == [] || !IsWhitespace(r[|r| - 1])
    ensures forall k :: |r| <= k < |s| ==> IsWhitespace(s[k])
    decreases |s|
  {
    if |s| > 0 && IsWhitespace(s[|s| - 1]) then TrimEnd(s[..|s| - 1]) else s
  }

  /** What `TrimStart` leaves is a suffix of its argument. */
  lemma {:induction false} TrimStartIsSuffix(s: string)
    ensures TrimStart(s) == s[|s| - |TrimStart(s)|..]
    decreases |s|
  {
    if |s| > 0 && IsWhitespace(s[0]) {
      TrimStartIsSuffix(s[1..]);
    }
  }

  /** What `TrimEnd` leaves is a prefix of its argument. */
  lemma {:induction false} TrimEndIsPrefix(s: string)
    ensures TrimEnd(s) == s[..|TrimEnd(s)|]
    decreases |s|
  {
    if |s| > 0 && IsWhitespace(s[|s| - 1]) {
      TrimEndIsPrefix(s[..|s| - 1]);
    }
  }

  /** `s.strip()`. */
  function Strip(s: string): (r: string)
    ensures |r| <= |s|
    ensures r == [] || (!IsWhitespace(r[0]) && !IsWhitespace(r[|r| - 1]))
  {
    var u := TrimStart(s);
    TrimEndIsPrefix(u);
    TrimEnd(u)
  }

  /** Length of the run of non-whitespace characters that `s` starts with. */
  function WordEnd(s: string): (n: nat)
    ensures n <= |s|
    ensures forall k :: 0 <= k < n ==> !IsWhitespace(s[k])
    ensures n < |s| ==> IsWhitespace(s[n])
    decreases |s|
  {
    if |s| == 0 || IsWhitespace(s[0]) then 0 else 1 + WordEnd(s[1..])
  }

  /** The three properties of `WordEnd` determine it. */
  lemma WordEndIs(s: string, n: nat)
    requires n <= |s|
    requires forall k :: 0 <= k < n ==> !IsWhitespace(s[k])
    requires n < |s| ==> IsWhitespace(s[n])
    ensures WordEnd(s) == n
  {
  }

  /** `s.split()`: the maximal runs of non-whitespace characters, in order. */
  function Words(s: string): (ws: seq<string>)
    ensures forall i :: 0 <= i < |ws| ==> IsWord(ws[i])
    decreases |s|
  {
    if |s| == 0 then []
    else if IsWhitespace(s[0]) then Words(s[1..])
    else
      var n := WordEnd(s);
      [s[..n]] + Words(s[n..])
  }

  /** Whitespace alone holds no word. */
  lemma {:induction false} WordsOfBlank(w: string)
    requires forall k :: 0 <= k < |w| ==> IsWhitespace(w[k])
    ensures Words(w) == []
    decreases |w|
  {
    if |w| > 0 {
      WordsOfBlank(w[1..]);
    }
  }

  /** Leading whitespace does not change the words. */
  lemma {:induction false} WordsOfTrimStart(s: string)
    ensures Words(TrimStart(s)) == Words(s)
    decreases |s|
  {
    if |s| > 0 && IsWhitespace(s[0]) {
      WordsOfTrimStart(s[1..]);
    }
  }

  /** Trailing whitespace does not change the words. */
  lemma {:induction false} WordsOfTrailingBlank(x: string, w: string)
    requires forall k :: 0 <= k < |w| ==> IsWhitespace(w[k])
    ensures Words(x + w) == Words(x)
    decreases |x|
  {
    if |x| == 0 {
      assert x + w == w;
      WordsOfBlank(w);
    } else if IsWhitespace(x[0]) {
      assert (x + w)[1..] == x[1..] + w;
      WordsOfTrailingBlank(x[1..], w);
    } else {
      var n := WordEnd(x);
      WordEndIs(x + w, n);
      assert (x + w)[..n] == x[..n];
      assert (x + w)[n..] == x[n..] + w;
      WordsOfTrailingBlank(x[n..], w);
    }
  }

  /** `line.strip().split()` is `line.split()`: the strip in the source is redundant. */
  lemma WordsOfStrip(s: string)
    ensures Words(Strip(s)) == Words(s)
  {
    var u := TrimStart(s);
    var v := TrimEnd(u);
    TrimEndIsPrefix(u);
    assert u == v + u[|v|..];
    WordsOfTrailingBlank(v, u[|v|..]);
    WordsOfTrimStart(s);
  }

  /** Joining words with single spaces and splitting on whitespace gives the words back. */
  lemma {:induction false} WordsOfJoin(ws: seq<string>)
    requires forall i :: 0 <= i < |ws| ==> IsWord(ws[i])
    ensures Words(JoinWith(ws, ' ')) == ws
    decreases |ws|
  {
    if |ws| == 1 {
      var w := ws[0];
      assert WordEnd(w) == |w|;
      assert w[..|w|] == w;
      assert Words(w[|w|..]) == [];
    } else if |ws| > 1 {
      var w := ws[0];
      var rest := JoinWith(ws[1..], ' ');
      var s := w + [' '] + rest;
      assert JoinWith(ws, ' ') == s;
      assert s[|w|] == ' ';
      WordEndIs(s, |w|);
      assert s[..|w|] == w;
      assert s[|w|..][1..] == rest;
      WordsOfJoin(ws[1..]);
    }
  }

  /** A word alone splits into itself. */
  lemma WordsOfWord(w: string)
    requires IsWord(w)
    ensures Words(w) == [w]
  {
    WordsOfJoin([w]);
  }

  /** A first word of `x` ends where it ends in `x`, even with a whitespace character
      and more text after `x`. */
  lemma WordEndBeforeWhitespace(x: string, c: char, y: string)
    requires IsWhitespace(c)
    ensures WordEnd(x + [c] + y) == WordEnd(x)
    ensures (x + [c] + y)[..WordEnd(x)] == x[..WordEnd(x)]
    ensures (x + [c] + y)[WordEnd(x)..] == x[WordEnd(x)..] + [c] + y
  {
    var s, n := x + [c] + y, WordEnd(x);
    assert s[n] == if n < |x| then x[n] else c;
    WordEndIs(s, n);
  }

  /** A whitespace character separates the words before it from the words after it, so a
      run of whitespace of any length between two words counts as one separator. */
  lemma {:induction false} WordsAtWhitespace(x: string, c: char, y: string)
    requires IsWhitespace(c)
    ensures Words(x + [c] + y) == Words(x) + Words(y)
    decreases |x|
  {
    var s := x + [c] + y;
    if |x| == 0 {
      assert s[1..] == y;
    } else if IsWhitespace(x[0]) {
      assert s[1..] == x[1..] + [c] + y;
      WordsAtWhitespace(x[1..], c, y);
    } else {
      var n := WordEnd(x);
      WordEndBeforeWhitespace(x, c, y);
      WordsAtWhitespace(x[n..], c, y);
      assert Words(s) == [x[..n]] + Words(x[n..] + [c] + y);
    }
  }

  /** Leading whitespace of any length does not change the words. */
  lemma {:induction false} WordsOfLeadingBlank(w: string, y: string)
    requires forall k :: 0 <= k < |w| ==> IsWhitespace(w[k])
    ensures Words(w + y) == Words(y)
    decreases |w|
  {
    if |w| > 0 {
      assert (w + y)[0] == w[0] && (w + y)[1..] == w[1..] + y;
      WordsOfLeadingBlank(w[1..], y);
    } else {
      assert w + y == y;
    }
  }

  /** A non-empty run of whitespace between two pieces of text separates their words,
      whatever its length: `"a  b".split()` is `["a", "b"]`. */
  lemma WordsAtBlank(x: string, b: string, y: string)
    requires |b| > 0 && forall k :: 0 <= k < |b| ==> IsWhitespace(b[k])
    ensures Words(x + b + y) == Words(x) + Words(y)
  {
    assert x + b + y == x + [b[0]] + (b[1..] + y);
    WordsAtWhitespace(x, b[0], b[1..] + y);
    WordsOfLeadingBlank(b[1..], y);
  }

  /** One word, stripped and split, is itself. */
  lemma StripWordsOfWord(w: string)
    requires IsWord(w)
    ensures Words(Strip(w)) == [w]
  {
    WordsOfStrip(w);
    WordsOfJoin([w]);
  }

  /** The decimal digit for `d`. */
  function DigitChar(d: nat): (c: char)
    requires d < 10
    ensures '0' <= c <= '9' && c as int - '0' as int == d
  {
    "0123456789"[d]
  }

  /** The value of a string of decimal digits, most significant first. */
  function DecimalValue(s: string): nat
    requires forall k :: 0 <= k < |s| ==> '0' <= s[k] <= '9'
  {
    if |s| == 0 then 0
    else 10 * DecimalValue(s[..|s| - 1]) + (s[|s| - 1] as int - '0' as int)
  }

  /** Python's `str(n)` for a non-negative `n`, as an f-string renders it. */
  function NatToString(n: nat): (r: string)
    ensures |r| >= 1
    ensures forall k :: 0 <= k < |r| ==> '0' <= r[k] <= '9'
    ensures (r[0] == '0') == (n == 0)
    decreases n
  {
    if n < 10 then [DigitChar(n)] else NatToString(n / 10) + [DigitChar(n % 10)]
  }

  /** The decimal rendering reads back as the number it renders. */
  lemma {:induction false} DecimalValueOfNatToString(n: nat)
    ensures DecimalValue(NatToString(n)) == n
    decreases n
  {
    if n >= 10 {
      var r := NatToString(n);
      assert r[..|r| - 1] == NatToString(n / 10);
      DecimalValueOfNatToString(n / 10);
    }
  }
}
