/** String helpers with the semantics of the ECMAScript built-ins the
    application calls: `trim`, `includes`, `join`, `split` and the decimal
    rendering of a non-negative integer in a template literal. */
module Text {
  import opened Wrappers

  // ---------------------------------------------------------------------
  // Whitespace and String.prototype.trim
  // ---------------------------------------------------------------------

  /** The WhiteSpace and LineTerminator code points of ECMAScript, which
      `trim` removes from both ends. */
  predicate IsWhitespace(c: char) {
    || c == '\t' || c == '\n' || c == '\U{000B}' || c == '\U{000C}' || c == '\r'
    || c == ' ' || c == '\U{00A0}' || c == '\U{1680}'
    || ('\U{2000}' <= c <= '\U{200A}')
    || c == '\U{2028}' || c == '\U{2029}' || c == '\U{202F}' || c == '\U{205F}'
    || c == '\U{3000}' || c == '\U{FEFF}'
  }

  /** A string made only of whitespace (the empty string included). */
  predicate IsBlank(s: string) {
    forall i :: 0 <= i < |s| ==> IsWhitespace(s[i])
  }

  /** The length of the whitespace run at the start of `s`. */
  function LeadingWhitespace(s: string): (n: nat)
    ensures n <= |s|
    ensures forall i :: 0 <= i < n ==> IsWhitespace(s[i])
    ensures n < |s| ==> !IsWhitespace(s[n])
  {
    if |s| > 0 && IsWhitespace(s[0]) then 1 + LeadingWhitespace(s[1..]) else 0
  }

  /** The length of the whitespace run at the end of `s`. */
  function TrailingWhitespace(s: string): (n: nat)
    ensures n <= |s|
    ensures forall i :: |s| - n <= i < |s| ==> IsWhitespace(s[i])
    ensures n < |s| ==> !IsWhitespace(s[|s| - n - 1])
  {
    if |s| > 0 && IsWhitespace(s[|s| - 1]) then 1 + TrailingWhitespace(s[..|s| - 1]) else 0
  }

  /** Drops leading whitespace. */
  function TrimStart(s: string): (r: string)
    ensures |r| <= |s| && r == s[|s| - |r|..]
    ensures IsBlank(s[..|s| - |r|])
    ensures |r| > 0 ==> !IsWhitespace(r[0])
  {
    var n := LeadingWhitespace(s);
    assert forall i :: 0 <= i < n ==> s[..n][i] == s[i];
    s[n..]
  }

  /** Drops trailing whitespace. */
  function TrimEnd(s: string): (r: string)
    ensures |r| <= |s| && r == s[..|r|]
    ensures IsBlank(s[|r|..])
    ensures |r| > 0 ==> !IsWhitespace(r[|r| - 1])
  {
    s[..|s| - TrailingWhitespace(s)]
  }

  /** String.prototype.trim. */
  function Trim(s: string): string {
    TrimEnd(TrimStart(s))
  }

  /** A string trims to the empty string exactly when it is blank, so
      `!s.trim()` is the test "s is blank". */
  lemma TrimEmptyIffBlank(s: string)
    ensures Trim(s) == "" <==> IsBlank(s)
  {
    var a := TrimStart(s);
    if Trim(s) == "" {
      assert IsBlank(a[0..]);
      assert s == s[..|s| - |a|] + a;
    } else {
      var r := Trim(s);
      assert !IsWhitespace(r[0]) by {
        if |a| > 0 { assert r[0] == a[0]; }
      }
      assert r[0] == s[|s| - |a|];
    }
  }

  /** The whitespace run at the start is the first non-whitespace position. */
  lemma LeadingUnique(x: string, n: nat)
    requires n <= |x|
    requires forall i :: 0 <= i < n ==> IsWhitespace(x[i])
    requires n < |x| ==> !IsWhitespace(x[n])
    ensures LeadingWhitespace(x) == n
  {
  }

  /** The whitespace run at the end is the last non-whitespace position. */
  lemma TrailingUnique(x: string, n: nat)
    requires n <= |x|
    requires forall i :: |x| - n <= i < |x| ==> IsWhitespace(x[i])
    requires n < |x| ==> !IsWhitespace(x[|x| - n - 1])
    ensures TrailingWhitespace(x) == n
  {
  }

  /** Whitespace in front is dropped by `TrimStart`. */
  lemma TrimStartPadded(a: string, s: string)
    requires IsBlank(a)
    ensures TrimStart(a + s) == TrimStart(s)
  {
    var x := a + s;
    var n := LeadingWhitespace(s);
    forall i | 0 <= i < |a| + n ensures IsWhitespace(x[i]) {
      if i < |a| { assert x[i] == a[i]; } else { assert x[i] == s[i - |a|]; }
    }
    if |a| + n < |x| { assert x[|a| + n] == s[n]; }
    LeadingUnique(x, |a| + n);
    assert x[|a| + n..] == s[n..];
  }

  /** Text after a string that is not blank does not reach its leading
      whitespace. */
  lemma TrimStartAppend(s: string, b: string)
    requires !IsBlank(s)
    ensures TrimStart(s + b) == TrimStart(s) + b
  {
    var x := s + b;
    var n := LeadingWhitespace(s);
    assert n < |s|;
    forall i | 0 <= i < n ensures IsWhitespace(x[i]) { assert x[i] == s[i]; }
    assert x[n] == s[n];
    LeadingUnique(x, n);
    assert x[n..] == s[n..] + b;
  }

  /** Whitespace behind is dropped by `TrimEnd`. */
  lemma TrimEndPadded(s: string, b: string)
    requires IsBlank(b)
    ensures TrimEnd(s + b) == TrimEnd(s)
  {
    var x := s + b;
    var m := TrailingWhitespace(s);
    forall i | |x| - (|b| + m) <= i < |x| ensures IsWhitespace(x[i]) {
      if i < |s| { assert x[i] == s[i]; } else { assert x[i] == b[i - |s|]; }
    }
    if |b| + m < |x| { assert x[|x| - (|b| + m) - 1] == s[|s| - m - 1]; }
    TrailingUnique(x, |b| + m);
    assert x[..|x| - (|b| + m)] == s[..|s| - m];
  }

  /** `trim` ignores whitespace padding on either side. */
  lemma TrimPadded(a: string, s: string, b: string)
    requires IsBlank(a) && IsBlank(b)
    ensures Trim(a + s + b) == Trim(s)
  {
    var x := a + s + b;
    if IsBlank(s) {
      forall i | 0 <= i < |x| ensures IsWhitespace(x[i]) {
        if i < |a| { assert x[i] == a[i]; }
        else if i < |a| + |s| { assert x[i] == s[i - |a|]; }
        else { assert x[i] == b[i - |a| - |s|]; }
      }
      TrimEmptyIffBlank(x);
      TrimEmptyIffBlank(s);
    } else {
      assert x == a + (s + b);
      TrimStartPadded(a, s + b);
      TrimStartAppend(s, b);
      TrimEndPadded(TrimStart(s), b);
    }
  }

  // ---------------------------------------------------------------------
  // String.prototype.includes
  // ---------------------------------------------------------------------

  /** `s.includes(sub)`: `sub` occurs in `s` as a contiguous slice. */
  predicate Contains(s: string, sub: string) {
    exists i | 0 <= i <= |s| - |sub| :: sub <= s[i..]
  }

  // ---------------------------------------------------------------------
  // Array.prototype.join and String.prototype.split on one character
  // ---------------------------------------------------------------------

  /** How many times `c` occurs in `s`. */
  function Occurrences(s: string, c: char): (n: nat)
    ensures n == 0 <==> c !in s
    ensures n <= |s|
  {
    if |s| == 0 then 0
    else (if s[0] == c then 1 else 0) + Occurrences(s[1..], c)
  }

  lemma {:induction false} OccurrencesAppend(a: string, b: string, c: char)
    ensures Occurrences(a + b, c) == Occurrences(a, c) + Occurrences(b, c)
  {
    if |a| > 0 {
      assert (a + b)[1..] == a[1..] + b;
      OccurrencesAppend(a[1..], b, c);
    } else {
      assert a + b == b;
    }
  }

  /** `xs.join(sep)`: the parts with `sep` between consecutive ones. */
  function Join(xs: seq<string>, sep: char): string {
    if |xs| == 0 then ""
    else if |xs| == 1 then xs[0]
    else xs[0] + [sep] + Join(xs[1..], sep)
  }

  /** `s.split(sep)`: the maximal `sep`-free pieces between separators;
      always at least one piece, and one more piece than separators. */
  function Split(s: string, sep: char): (r: seq<string>)
    ensures |r| == Occurrences(s, sep) + 1
    ensures forall i :: 0 <= i < |r| ==> sep !in r[i]
  {
    if |s| == 0 then [""]
    else
      var rest := Split(s[1..], sep);
      if s[0] == sep then [""] + rest
      else [[s[0]] + rest[0]] + rest[1..]
  }

  /** The separators in a join are the |xs| - 1 inserted ones plus those
      already inside the parts. */
  lemma {:induction false} OccurrencesJoin(xs: seq<string>, sep: char)
    requires |xs| >= 1
    ensures Occurrences(Join(xs, sep), sep) == |xs| - 1 + SumOccurrences(xs, sep)
  {
    if |xs| > 1 {
      OccurrencesJoin(xs[1..], sep);
      OccurrencesAppend(xs[0] + [sep], Join(xs[1..], sep), sep);
      OccurrencesAppend(xs[0], [sep], sep);
      assert Occurrences([sep], sep) == 1;
    }
  }

  /** Total occurrences of `c` over all parts. */
  function SumOccurrences(xs: seq<string>, c: char): nat {
    if |xs| == 0 then 0 else Occurrences(xs[0], c) + SumOccurrences(xs[1..], c)
  }

  lemma {:induction false} SumOccurrencesZero(xs: seq<string>, c: char)
    ensures SumOccurrences(xs, c) == 0 <==> forall i :: 0 <= i < |xs| ==> c !in xs[i]
  {
    if |xs| > 0 {
      SumOccurrencesZero(xs[1..], c);
      assert forall i :: 1 <= i < |xs| ==> xs[i] == xs[1..][i - 1];
    }
  }

  /** Splitting a string whose first `|a|` characters hold no separator
      extends the first piece by `a`. */
  lemma {:induction false} SplitPrefix(a: string, rest: string, sep: char)
    requires sep !in a
    ensures Split(a + rest, sep) == [a + Split(rest, sep)[0]] + Split(rest, sep)[1..]
  {
    var r := Split(rest, sep);
    if |a| > 0 {
      SplitPrefix(a[1..], rest, sep);
      SplitPrefixStep(a, rest, sep, r);
    } else {
      assert a + rest == rest;
      assert a + r[0] == r[0];
      assert r == [r[0]] + r[1..];
    }
  }

  /** The inductive step of SplitPrefix: one more leading character. */
  lemma SplitPrefixStep(a: string, rest: string, sep: char, r: seq<string>)
    requires |a| > 0 && a[0] != sep && |r| > 0
    requires Split(a[1..] + rest, sep) == [a[1..] + r[0]] + r[1..]
    ensures Split(a + rest, sep) == [a + r[0]] + r[1..]
  {
    var t := a[1..] + rest;
    assert a + rest == [a[0]] + t;
    SplitCons(a[0], t, sep);
    assert [a[0]] + (a[1..] + r[0]) == a + r[0] by {
      assert a == [a[0]] + a[1..];
    }
  }

  /** A non-separator in front joins the first piece. */
  lemma SplitCons(c: char, s: string, sep: char)
    requires c != sep
    ensures Split([c] + s, sep) == [[c] + Split(s, sep)[0]] + Split(s, sep)[1..]
  {
    assert ([c] + s)[1..] == s;
  }

  /** Splitting undoes joining when no part contains the separator. */
  lemma {:induction false} SplitJoin(xs: seq<string>, sep: char)
    requires |xs| >= 1
    requires forall i :: 0 <= i < |xs| ==> sep !in xs[i]
    ensures Split(Join(xs, sep), sep) == xs
  {
    if |xs| == 1 {
      SplitPrefix(xs[0], "", sep);
      assert xs[0] + "" == xs[0];
      assert Split("", sep) == [""];
      assert xs[0] + Split("", sep)[0] == xs[0];
    } else {
      var tail := Join(xs[1..], sep);
      SplitJoin(xs[1..], sep);
      assert Join(xs, sep) == xs[0] + ([sep] + tail);
      SplitPrefix(xs[0], [sep] + tail, sep);
      assert ([sep] + tail)[1..] == tail;
      assert Split([sep] + tail, sep) == [""] + Split(tail, sep);
      assert xs[0] + "" == xs[0];
      assert xs == [xs[0]] + xs[1..];
    }
  }

  /** A joined line splits back into exactly as many fields as were joined
      if and only if no field contains the separator; every separator
      inside a field adds one spurious field. */
  lemma FieldCount(xs: seq<string>, sep: char)
    requires |xs| >= 1
    ensures |Split(Join(xs, sep), sep)| == |xs| + SumOccurrences(xs, sep)
    ensures |Split(Join(xs, sep), sep)| == |xs| <==> forall i :: 0 <= i < |xs| ==> sep !in xs[i]
  {
    OccurrencesJoin(xs, sep);
    SumOccurrencesZero(xs, sep);
  }

  /** `s.lastIndexOf(c)`: the last position holding `c`, or -1. */
  function LastIndexOf(s: string, c: char): (i: int)
    ensures -1 <= i < |s|
    ensures i >= 0 ==> s[i] == c
    ensures forall j :: i < j < |s| ==> s[j] != c
    ensures i < 0 <==> c !in s
  {
    if |s| == 0 then -1
    else if s[|s| - 1] == c then |s| - 1
    else
      var i := LastIndexOf(s[..|s| - 1], c);
      assert s == s[..|s| - 1] + [s[|s| - 1]];
      i
  }

  /** In `a + [c] + b` with no `c` in `b`, the last `c` is the inserted one. */
  lemma {:induction false} LastIndexOfSeparator(a: string, c: char, b: string)
    requires c !in b
    ensures LastIndexOf(a + [c] + b, c) == |a|
  {
    var s := a + [c] + b;
    if |b| > 0 {
      assert s[..|s| - 1] == a + [c] + b[..|b| - 1];
      assert s[|s| - 1] == b[|b| - 1];
      LastIndexOfSeparator(a, c, b[..|b| - 1]);
    }
  }

  // ---------------------------------------------------------------------
  // Decimal rendering of a non-negative integer
  // ---------------------------------------------------------------------

  predicate IsDigit(c: char) {
    '0' <= c <= '9'
  }

  function DigitChar(d: nat): (c: char)
    requires d < 10
    ensures IsDigit(c) && c as int - '0' as int == d
  {
    ('0' as int + d) as char
  }

  /** `${n}` for a non-negative integer below 10^21: its shortest decimal
      numeral. */
  function Decimal(n: nat): (r: string)
    ensures |r| >= 1
    ensures forall i :: 0 <= i < |r| ==> IsDigit(r[i])
    ensures |r| > 1 ==> r[0] != '0'
  {
    if n < 10 then [DigitChar(n)] else Decimal(n / 10) + [DigitChar(n % 10)]
  }

  /** Reads a numeral of decimal digits; `None` for the empty string or a
      non-digit. */
  function ParseDecimal(s: string): (r: Option<nat>)
    ensures r.Some? <==> |s| >= 1 && forall i :: 0 <= i < |s| ==> IsDigit(s[i])
  {
    if |s| == 0 then None
    else if !IsDigit(s[|s| - 1]) then None
    else if |s| == 1 then Some(s[0] as int - '0' as int)
    else match ParseDecimal(s[..|s| - 1])
      case None => None
      case Some(v) => Some(v * 10 + (s[|s| - 1] as int - '0' as int))
  }

  /** Reading a rendered numeral gives back the number. */
  lemma {:induction false} ParseDecimalOfDecimal(n: nat)
    ensures ParseDecimal(Decimal(n)) == Some(n)
  {
    if n >= 10 {
      ParseDecimalOfDecimal(n / 10);
      var s := Decimal(n);
      assert s[..|s| - 1] == Decimal(n / 10);
    }
  }

  /** Distinct numbers render to distinct numerals. */
  lemma DecimalInjective(a: nat, b: nat)
    ensures Decimal(a) == Decimal(b) <==> a == b
  {
    if Decimal(a) == Decimal(b) {
      ParseDecimalOfDecimal(a);
      ParseDecimalOfDecimal(b);
    }
  }
}
