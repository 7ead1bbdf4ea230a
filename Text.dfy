/** The JavaScript string operations the application relies on, over `seq<char>`:
    `trim`, `toLowerCase`/`toUpperCase` (ASCII case folding), `includes`, `split`/`join`
    on one character, `localeCompare` (plain lexicographic order), `Number#toString`,
    `parseInt(s, 10)` and `parseFloat`. */
module Text {
  import opened Wrappers

  // ---------------------------------------------------------------------------
  // Whitespace and trim

  /** The code points ECMAScript counts as WhiteSpace or LineTerminator. */
  predicate IsJsSpace(c: char) {
    c == ' ' || c == '\t' || c == '\n' || c == '\r' || c == '\U{B}' || c == '\U{C}'
    || c == '\U{A0}' || c == '\U{1680}' || ('\U{2000}' <= c <= '\U{200A}')
    || c == '\U{2028}' || c == '\U{2029}' || c == '\U{202F}' || c == '\U{205F}'
    || c == '\U{3000}' || c == '\U{FEFF}'
  }

  /** Removes leading whitespace: the result is the longest suffix not starting with a space. */
  function TrimStart(s: string): (r: string)
    ensures |r| <= |s| && r == s[|s| - |r|..]
    ensures forall k :: 0 <= k < |s| - |r| ==> IsJsSpace(s[k])
    ensures r != [] ==> !IsJsSpace(r[0])
  {
    if |s| > 0 && IsJsSpace(s[0]) then
      var r := TrimStart(s[1..]);
      assert s[1..][|s| - 1 - |r|..] == s[|s| - |r|..];
      assert forall k :: 1 <= k < |s| ==> s[k] == s[1..][k - 1];
      r
    else s
  }

  /** Removes trailing whitespace: the result is the longest prefix not ending with a space. */
  function TrimEnd(s: string): (r: string)
    ensures |r| <= |s| && r == s[..|r|]
    ensures forall k :: |r| <= k < |s| ==> IsJsSpace(s[k])
    ensures r != [] ==> !IsJsSpace(r[|r| - 1])
  {
    if |s| > 0 && IsJsSpace(s[|s| - 1]) then TrimEnd(s[..|s| - 1]) else s
  }

  /** `s.trim()`. */
  function Trim(s: string): (r: string)
    ensures r != [] ==> !IsJsSpace(r[0]) && !IsJsSpace(r[|r| - 1])
    ensures r == [] <==> forall k :: 0 <= k < |s| ==> IsJsSpace(s[k])
    ensures exists i :: OccursAt(s, r, i) && SpacesOutside(s, i, i + |r|)
  {
    var t := TrimStart(s);
    var r := TrimEnd(t);
    TrimBounds(s, t, r);
    r
  }

  /** Where the trimmed string sits in `s`: everything before and after it is whitespace. */
  lemma TrimBounds(s: string, t: string, r: string)
    requires |t| <= |s| && t == s[|s| - |t|..] && forall k :: 0 <= k < |s| - |t| ==> IsJsSpace(s[k])
    requires t != [] ==> !IsJsSpace(t[0])
    requires |r| <= |t| && r == t[..|r|] && forall k :: |r| <= k < |t| ==> IsJsSpace(t[k])
    ensures r == [] <==> forall k :: 0 <= k < |s| ==> IsJsSpace(s[k])
    ensures exists i :: OccursAt(s, r, i) && SpacesOutside(s, i, i + |r|)
  {
    var i := |s| - |t|;
    assert r == t[..|r|] && t == s[i..];
    assert OccursAt(s, r, i) by {
      assert s[i..i + |r|] == t[..|r|];
    }
    forall k | i + |r| <= k < |s| ensures IsJsSpace(s[k]) {
      assert s[k] == t[k - i];
    }
    if r == [] {
      assert SpacesOutside(s, 0, 0);
      assert OccursAt(s, r, 0);
    } else {
      assert r[0] == t[0] == s[i];
      assert SpacesOutside(s, i, i + |r|);
    }
  }


  /** Everything of `s` before `lo` and from `hi` on is whitespace. */
  ghost predicate SpacesOutside(s: string, lo: int, hi: int) {
    (forall k :: 0 <= k < lo && k < |s| ==> IsJsSpace(s[k]))
    && (forall k :: 0 <= hi <= k < |s| ==> IsJsSpace(s[k]))
  }

  /** A string without whitespace at either end is its own trim. */
  lemma TrimUnchanged(s: string)
    requires s != [] ==> !IsJsSpace(s[0]) && !IsJsSpace(s[|s| - 1])
    ensures Trim(s) == s
  {
  }

  /** JavaScript's `!s.trim()`: the string is empty or only whitespace. */
  predicate IsBlank(s: string) {
    Trim(s) == ""
  }

  // ---------------------------------------------------------------------------
  // Case folding (ASCII)

  function LowerChar(c: char): char {
    if 'A' <= c <= 'Z' then (c as int + 32) as char else c
  }

  function UpperChar(c: char): char {
    if 'a' <= c <= 'z' then (c as int - 32) as char else c
  }

  /** `s.toLowerCase()`, folding the ASCII letters only. */
  function Lower(s: string): (r: string)
    ensures |r| == |s|
  {
    seq(|s|, i requires 0 <= i < |s| => LowerChar(s[i]))
  }

  /** `s.toUpperCase()`, folding the ASCII letters only. */
  function Upper(s: string): (r: string)
    ensures |r| == |s|
  {
    seq(|s|, i requires 0 <= i < |s| => UpperChar(s[i]))
  }

  lemma LowerIdempotent(s: string)
    ensures Lower(Lower(s)) == Lower(s)
  {
  }

  lemma LowerConcat(a: string, b: string)
    ensures Lower(a + b) == Lower(a) + Lower(b)
  {
  }

  // ---------------------------------------------------------------------------
  // Substring search

  /** `text.includes(pat)`. */
  predicate Contains(text: string, pat: string)
    decreases |text|
  {
    pat <= text || (|text| > 0 && Contains(text[1..], pat))
  }

  /** `pat` occurs in `text` starting at position `k`. */
  ghost predicate OccursAt(text: string, pat: string, k: int) {
    0 <= k && k + |pat| <= |text| && text[k..k + |pat|] == pat
  }

  /** `Contains` is exactly "occurs at some position". */
  lemma {:induction false} ContainsIffOccurs(text: string, pat: string)
    ensures Contains(text, pat) <==> exists k :: OccursAt(text, pat, k)
    decreases |text|
  {
    if pat <= text {
      assert OccursAt(text, pat, 0);
    } else if |text| > 0 {
      assert !OccursAt(text, pat, 0);
      ContainsIffOccurs(text[1..], pat);
      if Contains(text[1..], pat) {
        var k :| OccursAt(text[1..], pat, k);
        OccursShift(text, pat, k);
      }
      if exists k :: OccursAt(text, pat, k) {
        var k :| OccursAt(text, pat, k);
        OccursShift(text, pat, k - 1);
      }
    } else {
      assert forall k :: OccursAt(text, pat, k) ==> pat <= text;
    }
  }

  /** An occurrence in the tail is an occurrence one position further on in the text. */
  lemma OccursShift(text: string, pat: string, k: int)
    requires |text| > 0 && 0 <= k
    ensures OccursAt(text[1..], pat, k) <==> OccursAt(text, pat, k + 1)
  {
    if k + |pat| <= |text| - 1 {
      assert text[1..][k..k + |pat|] == text[k + 1..k + 1 + |pat|];
    }
  }

  /** Every string contains itself inside any concatenation around it. */
  lemma {:induction false} ContainsInfix(a: string, pat: string, b: string)
    ensures Contains(a + pat + b, pat)
  {
    ContainsIffOccurs(a + pat + b, pat);
    assert (a + pat + b)[|a|..|a| + |pat|] == pat;
    assert OccursAt(a + pat + b, pat, |a|);
  }

  // ---------------------------------------------------------------------------
  // split and join on one character

  /** `s.split(sep)` for a one-character separator. */
  function Split(s: string, sep: char): (parts: seq<string>)
    ensures |parts| >= 1
  {
    if |s| == 0 then [""]
    else if s[0] == sep then [""] + Split(s[1..], sep)
    else
      var rest := Split(s[1..], sep);
      [[s[0]] + rest[0]] + rest[1..]
  }

  /** No piece of a split holds the separator. */
  lemma {:induction false} SplitPiecesHaveNoSeparator(s: string, sep: char)
    ensures forall i :: 0 <= i < |Split(s, sep)| ==> sep !in Split(s, sep)[i]
  {
    if |s| > 0 {
      SplitPiecesHaveNoSeparator(s[1..], sep);
      var rest := Split(s[1..], sep);
      if s[0] != sep {
        assert sep !in [s[0]] + rest[0];
      }
    }
  }

  /** Splitting a string that starts with a non-separator extends the first piece. */
  lemma SplitOther(c: char, s: string, sep: char)
    requires c != sep
    ensures Split([c] + s, sep) == [[c] + Split(s, sep)[0]] + Split(s, sep)[1..]
  {
    assert ([c] + s)[1..] == s;
  }

  /** Splitting a string that starts with the separator starts with an empty piece. */
  lemma SplitSep(s: string, sep: char)
    ensures Split([sep] + s, sep) == [""] + Split(s, sep)
  {
    assert ([sep] + s)[1..] == s;
  }

  /** A separator in the middle splits into the pieces of either side. */
  lemma {:induction false} SplitAppend(x: string, y: string, sep: char)
    ensures Split(x + [sep] + y, sep) == Split(x, sep) + Split(y, sep)
  {
    if |x| == 0 {
      assert x + [sep] + y == [sep] + y;
      SplitSep(y, sep);
    } else {
      var x' := x[1..];
      assert x + [sep] + y == [x[0]] + (x' + [sep] + y);
      assert x == [x[0]] + x';
      SplitAppend(x', y, sep);
      if x[0] == sep {
        SplitSep(x' + [sep] + y, sep);
        SplitSep(x', sep);
      } else {
        SplitOther(x[0], x' + [sep] + y, sep);
        SplitOther(x[0], x', sep);
        ExtendFirst([x[0]], Split(x', sep), Split(y, sep));
      }
    }
  }

  lemma ExtendFirst(c: string, a: seq<string>, b: seq<string>)
    requires |a| > 0
    ensures [c + (a + b)[0]] + (a + b)[1..] == ([c + a[0]] + a[1..]) + b
  {
    assert (a + b)[1..] == a[1..] + b;
  }

  /** Two separators in a row leave an empty piece between them. */
  lemma SplitDoubleSeparator(a: string, b: string, sep: char)
    requires sep !in a && sep !in b
    ensures Split(a + [sep, sep] + b, sep) == [a, "", b]
  {
    var y := [sep] + b;
    assert a + [sep, sep] + b == a + [sep] + y;
    SplitAppend(a, y, sep);
    SplitSep(b, sep);
    SplitWithoutSeparator(a, sep);
    SplitWithoutSeparator(b, sep);
    assert Split(y, sep) == [""] + [b];
  }

  /** A string without the separator splits into itself. */
  lemma SplitWithoutSeparator(s: string, sep: char)
    requires sep !in s
    ensures Split(s, sep) == [s]
  {
    SplitFirst(s, sep);
  }

  /** `parts.join(sep)`. */
  function Join(parts: seq<string>, sep: string): string {
    if |parts| == 0 then ""
    else if |parts| == 1 then parts[0]
    else parts[0] + sep + Join(parts[1..], sep)
  }

  /** Splitting a join of separator-free pieces gives the pieces back. */
  lemma {:induction false} SplitJoin(ws: seq<string>, sep: char)
    requires |ws| >= 1
    requires forall i :: 0 <= i < |ws| ==> sep !in ws[i]
    ensures Split(Join(ws, [sep]), sep) == ws
  {
    if |ws| == 1 {
      SplitWithoutSeparator(ws[0], sep);
    } else {
      SplitJoin(ws[1..], sep);
      SplitAppend(ws[0], Join(ws[1..], [sep]), sep);
      SplitWithoutSeparator(ws[0], sep);
      assert [ws[0]] + ws[1..] == ws;
    }
  }

  /** Splitting yields one more piece than there are separators. */
  lemma {:induction false} SplitCount(s: string, sep: char)
    ensures |Split(s, sep)| == multiset(s)[sep] + 1
  {
    if |s| > 0 {
      SplitCount(s[1..], sep);
      assert s == [s[0]] + s[1..];
      assert multiset(s) == multiset{s[0]} + multiset(s[1..]);
    }
  }

  /** Joining the pieces with the separator gives back the string. */
  lemma {:induction false} JoinSplit(s: string, sep: char)
    ensures Join(Split(s, sep), [sep]) == s
  {
    if |s| > 0 {
      JoinSplit(s[1..], sep);
      var rest := Split(s[1..], sep);
      if s[0] == sep {
        assert Split(s, sep) == [""] + rest;
        assert s == [sep] + s[1..];
      } else {
        var parts := Split(s, sep);
        assert parts == [[s[0]] + rest[0]] + rest[1..];
        if |rest| == 1 {
          assert s == [s[0]] + s[1..];
        } else {
          assert parts[1..] == rest[1..];
          assert Join(rest, [sep]) == rest[0] + [sep] + Join(rest[1..], [sep]);
          assert s == [s[0]] + s[1..];
        }
      }
    }
  }

  /** The first piece of a split is the text before the first separator. */
  lemma {:induction false} SplitFirst(s: string, sep: char)
    ensures Split(s, sep)[0] <= s
    ensures sep in s ==> |Split(s, sep)[0]| < |s| && s[|Split(s, sep)[0]|] == sep
    ensures sep !in s ==> Split(s, sep) == [s]
  {
    if |s| > 0 && s[0] != sep {
      SplitFirst(s[1..], sep);
      assert s == [s[0]] + s[1..];
    }
  }

  // ---------------------------------------------------------------------------
  // Lexicographic order (the model of `localeCompare` and of the default `sort()`)

  /** `a` sorts before or equal to `b`, character by character. */
  predicate LexLe(a: string, b: string) {
    if |a| == 0 then true
    else if |b| == 0 then false
    else if a[0] != b[0] then a[0] < b[0]
    else LexLe(a[1..], b[1..])
  }

  lemma {:induction false} LexLeTotal(a: string, b: string)
    ensures LexLe(a, b) || LexLe(b, a)
  {
    if |a| > 0 && |b| > 0 && a[0] == b[0] {
      LexLeTotal(a[1..], b[1..]);
    }
  }

  lemma {:induction false} LexLeAntisymmetric(a: string, b: string)
    requires LexLe(a, b) && LexLe(b, a)
    ensures a == b
  {
    if |a| > 0 && |b| > 0 {
      LexLeAntisymmetric(a[1..], b[1..]);
      assert a == [a[0]] + a[1..] && b == [b[0]] + b[1..];
    }
  }

  lemma {:induction false} LexLeTransitive(a: string, b: string, c: string)
    requires LexLe(a, b) && LexLe(b, c)
    ensures LexLe(a, c)
  {
    if |a| > 0 && |b| > 0 && |c| > 0 && a[0] == b[0] && b[0] == c[0] {
      LexLeTransitive(a[1..], b[1..], c[1..]);
    }
  }

  /** `a.localeCompare(b)` modelled on the lexicographic order: negative, zero or positive. */
  function LocaleCompare(a: string, b: string): (c: int)
    ensures c == 0 <==> a == b
    ensures c < 0 <==> LexLe(a, b) && a != b
    ensures c <= 0 <==> LexLe(a, b)
  {
    if a == b then LexLeReflexive(a); 0
    else if LexLe(a, b) then -1
    else 1
  }

  lemma LexLeReflexive(a: string)
    ensures LexLe(a, a)
  {
    LexLeTotal(a, a);
  }

  // ---------------------------------------------------------------------------
  // JavaScript's `x || fallback` on a nullable string

  /** `x || fallback`: the fallback for `null`/`undefined` and for the empty string. */
  function OrElse(x: Option<string>, fallback: string): (r: string)
    ensures r == fallback || (x.Some? && r == x.value != "")
    ensures x.Some? && x.value != "" ==> r == x.value
  {
    if x.Some? && x.value != "" then x.value else fallback
  }

  // ---------------------------------------------------------------------------
  // Decimal digits: Number#toString and parseInt

  predicate IsDigit(c: char) {
    '0' <= c <= '9'
  }

  function DigitValue(c: char): nat
    requires IsDigit(c)
  {
    c as int - '0' as int
  }

  function DigitChar(d: nat): (c: char)
    requires d < 10
    ensures IsDigit(c) && DigitValue(c) == d
  {
    ('0' as int + d) as char
  }

  /** The value of a run of decimal digits, most significant first. */
  function DigitsValue(ds: string): nat
    requires forall i :: 0 <= i < |ds| ==> IsDigit(ds[i])
  {
    if |ds| == 0 then 0 else DigitsValue(ds[..|ds| - 1]) * 10 + DigitValue(ds[|ds| - 1])
  }

  /** The number of leading decimal digits of `s`. */
  function LeadingDigits(s: string): (n: nat)
    ensures n <= |s|
    ensures forall i :: 0 <= i < n ==> IsDigit(s[i])
    ensures n < |s| ==> !IsDigit(s[n])
  {
    if |s| > 0 && IsDigit(s[0]) then 1 + LeadingDigits(s[1..]) else 0
  }

  /** `n.toString()` for a natural number. */
  function NatToString(n: nat): (s: string)
    ensures |s| >= 1
    ensures forall i :: 0 <= i < |s| ==> IsDigit(s[i])
    ensures DigitsValue(s) == n
    decreases n
  {
    if n < 10 then [DigitChar(n)]
    else
      var s := NatToString(n / 10) + [DigitChar(n % 10)];
      assert s[..|s| - 1] == NatToString(n / 10);
      s
  }

  /** `i.toString()` for an integer. */
  function IntToString(i: int): string {
    if i < 0 then "-" + NatToString(-i) else NatToString(i)
  }

  /** What `parseInt` reads after the whitespace: the text behind an optional sign. */
  function Unsigned(t: string): string {
    if |t| > 0 && (t[0] == '+' || t[0] == '-') then t[1..] else t
  }

  /** The value of the leading digits of `u` (0 when there are none). */
  function LeadingValue(u: string): nat {
    var n := LeadingDigits(u);
    assert forall i :: 0 <= i < n ==> IsDigit(u[..n][i]);
    DigitsValue(u[..n])
  }

  /** `parseInt(s, 10)`: skip leading whitespace, an optional sign, then the longest run of
      digits; `None` stands for NaN (no digit at all). */
  function ParseInt(s: string): (r: Option<int>)
    ensures (forall k :: 0 <= k < |s| ==> !IsDigit(s[k])) ==> r.None?
    ensures r.Some? && r.value < 0 ==> exists k :: 0 <= k < |s| && s[k] == '-'
  {
    var t := TrimStart(s);
    var u := Unsigned(t);
    var v: int := LeadingValue(u);
    assert |u| <= |t| && u == t[|t| - |u|..];
    if LeadingDigits(u) == 0 then None
    else
      assert u[0] == s[|s| - |u|];
      if t[0] == '-' then
        assert t[0] == s[|s| - |t|];
        Some(-v)
      else Some(v)
  }

  /** `parseInt` reads back what `toString` writes. */
  lemma ParseIntToString(i: int)
    ensures ParseInt(IntToString(i)) == Some(i)
  {
    var s := IntToString(i);
    var ds := NatToString(if i < 0 then -i else i);
    assert !IsJsSpace(s[0]);
    assert TrimStart(s) == s;
    assert Unsigned(s) == ds;
    AllDigitsLeading(ds);
    assert ds[..|ds|] == ds;
  }

  lemma {:induction false} AllDigitsLeading(ds: string)
    requires forall i :: 0 <= i < |ds| ==> IsDigit(ds[i])
    ensures LeadingDigits(ds) == |ds|
  {
    if |ds| > 0 {
      AllDigitsLeading(ds[1..]);
    }
  }

  /** `parseFloat(s)` for a string made only of digits, '.' and '-' (no exponent, no
      whitespace, no '+'): an optional '-', digits, optionally a '.' and more digits, at least
      one digit in all; the longest such prefix is read. The value is exact (no rounding to a
      double). `None` stands for NaN. */
  function ParseDecimalPrefix(s: string): (r: Option<real>)
    ensures r.Some? ==> exists k :: 0 <= k < |s| && IsDigit(s[k])
  {
    if |s| > 0 && s[0] == '-' then
      match UnsignedDecimal(s[1..])
      case None => None
      case Some(v) =>
        var k :| 0 <= k < |s[1..]| && IsDigit(s[1..][k]);
        assert IsDigit(s[k + 1]);
        Some(-v)
    else UnsignedDecimal(s)
  }

  /** Digits, optionally a '.' and more digits, at least one digit in all. */
  function UnsignedDecimal(u: string): (r: Option<real>)
    ensures r.Some? ==> exists k :: 0 <= k < |u| && IsDigit(u[k])
  {
    var n := LeadingDigits(u);
    NumberAt(u, n, PointDigits(u, n))
  }

  /** The number of digits after a '.' at position `n`; none when there is no '.' there. */
  function PointDigits(u: string, n: nat): (f: nat)
    requires n <= |u|
    ensures f > 0 ==> n < |u| && u[n] == '.' && n + 1 + f <= |u|
    ensures forall i :: n + 1 <= i < n + 1 + f ==> IsDigit(u[i])
  {
    if n < |u| && u[n] == '.' then
      var f := LeadingDigits(u[n + 1..]);
      assert forall i :: n + 1 <= i < n + 1 + f ==> u[i] == u[n + 1..][i - n - 1];
      f
    else 0
  }

  /** The number made of `n` digits, a '.', and `f` digits; none without a digit. */
  function NumberAt(u: string, n: nat, f: nat): (r: Option<real>)
    requires n <= |u| && forall i :: 0 <= i < n ==> IsDigit(u[i])
    requires f > 0 ==> n + 1 + f <= |u| && forall i :: n + 1 <= i < n + 1 + f ==> IsDigit(u[i])
    ensures r.Some? ==> exists k :: 0 <= k < |u| && IsDigit(u[k])
  {
    if n + f == 0 then None
    else
      assert IsDigit(u[if n > 0 then 0 else n + 1]);
      Some(DecimalValue(u, n, f))
  }

  /** The value of `n` digits, a '.', and `f` digits at the start of `u`. */
  function DecimalValue(u: string, n: nat, f: nat): real
    requires n <= |u| && forall i :: 0 <= i < n ==> IsDigit(u[i])
    requires f > 0 ==> n + 1 + f <= |u| && forall i :: n + 1 <= i < n + 1 + f ==> IsDigit(u[i])
  {
    assert forall i :: 0 <= i < n ==> IsDigit(u[..n][i]);
    DigitsValue(u[..n]) as real + FractionValue(u, n, f)
  }

  /** A run of digits followed by something that is not a digit: the run is what
      `LeadingDigits` counts. */
  lemma {:induction false} LeadingDigitsOfRun(ds: string, tail: string)
    requires forall i :: 0 <= i < |ds| ==> IsDigit(ds[i])
    requires tail == [] || !IsDigit(tail[0])
    ensures LeadingDigits(ds + tail) == |ds|
  {
    if |ds| > 0 {
      assert (ds + tail)[1..] == ds[1..] + tail;
      LeadingDigitsOfRun(ds[1..], tail);
    } else {
      assert ds + tail == tail;
    }
  }

  /** `parseFloat` of "ds.fs" followed by anything that does not continue the number (a
      second '.', a '-', the end): the value of the integer digits plus the fraction read
      digit by digit, which `DigitsFractionValue` shows is the fraction digits over the
      matching power of ten. */
  lemma DecimalOfParts(ds: string, fs: string, rest: string)
    requires forall i :: 0 <= i < |ds| ==> IsDigit(ds[i])
    requires forall i :: 0 <= i < |fs| ==> IsDigit(fs[i])
    requires |ds| + |fs| > 0
    requires rest == [] || !IsDigit(rest[0])
    ensures UnsignedDecimal(ds + "." + fs + rest) == Some(DigitsValue(ds) as real + DigitsFraction(fs))
    ensures ParseDecimalPrefix(ds + "." + fs + rest) == Some(DigitsValue(ds) as real + DigitsFraction(fs))
  {
    var u := ds + "." + fs + rest;
    DecimalLayout(ds, fs, rest, u);
    UnsignedDecimalOfLayout(u, ds, fs);
    assert u[0] != '-' by {
      if |ds| > 0 { assert u[0] == ds[0]; }
    }
    UnsignedPrefix(u);
  }

  /** `u` starts with the digits `ds`, a '.', and the digits `fs`, and no further digit
      follows either run. */
  ghost predicate PointLayout(u: string, ds: string, fs: string) {
    && (forall i :: 0 <= i < |ds| ==> IsDigit(ds[i]))
    && (forall i :: 0 <= i < |fs| ==> IsDigit(fs[i]))
    && |ds| + 1 + |fs| <= |u| && u[..|ds|] == ds && u[|ds|] == '.'
    && u[|ds| + 1..|ds| + 1 + |fs|] == fs
    && LeadingDigits(u) == |ds| && LeadingDigits(u[|ds| + 1..]) == |fs|
  }

  /** Where the parts of "ds.fs" followed by `rest` sit. */
  lemma DecimalLayout(ds: string, fs: string, rest: string, u: string)
    requires forall i :: 0 <= i < |ds| ==> IsDigit(ds[i])
    requires forall i :: 0 <= i < |fs| ==> IsDigit(fs[i])
    requires rest == [] || !IsDigit(rest[0])
    requires u == ds + "." + fs + rest
    ensures PointLayout(u, ds, fs)
  {
    var more := fs + rest;
    PointSplit(ds, fs, rest);
    RunThenPoint(ds, "." + more, u);
    LeadingDigitsOfRun(fs, rest);
    assert u[|ds| + 1..][..|fs|] == more[..|fs|] == fs;
  }

  lemma PointSplit(ds: string, fs: string, rest: string)
    ensures ds + "." + fs + rest == ds + ("." + (fs + rest))
  {
    var a := ds + "." + fs + rest;
    var b := ds + ("." + (fs + rest));
    assert |a| == |b|;
    forall i | 0 <= i < |a| ensures a[i] == b[i] {
      if i < |ds| {
      } else if i == |ds| {
      } else if i <= |ds| + |fs| {
      } else {
      }
    }
  }

  lemma RunThenPoint(ds: string, after: string, u: string)
    requires forall i :: 0 <= i < |ds| ==> IsDigit(ds[i])
    requires after != [] && after[0] == '.' && u == ds + after
    ensures |ds| < |u| && u[..|ds|] == ds && u[|ds|] == '.' && u[|ds| + 1..] == after[1..]
    ensures LeadingDigits(u) == |ds|
  {
    LeadingDigitsOfRun(ds, after);
  }

  /** `UnsignedDecimal` of "ds.fs" at the start of `u`. */
  lemma UnsignedDecimalOfLayout(u: string, ds: string, fs: string)
    requires PointLayout(u, ds, fs) && |ds| + |fs| > 0
    ensures UnsignedDecimal(u) == Some(DigitsValue(ds) as real + DigitsFraction(fs))
  {
    var n := |ds|;
    FractionOf(u, n, fs);
    assert PointDigits(u, n) == |fs|;
    assert DecimalValue(u, n, |fs|) == DigitsValue(ds) as real + DigitsFraction(fs);
  }

  /** Without a leading '-', `parseFloat` reads the unsigned number. */
  lemma UnsignedPrefix(u: string)
    requires |u| > 0 && u[0] != '-'
    ensures ParseDecimalPrefix(u) == UnsignedDecimal(u)
  {
  }

  lemma FractionOf(u: string, n: nat, fs: string)
    requires forall i :: 0 <= i < |fs| ==> IsDigit(fs[i])
    requires n + 1 + |fs| <= |u| && u[n + 1..n + 1 + |fs|] == fs
    ensures forall i :: n + 1 <= i < n + 1 + |fs| ==> IsDigit(u[i])
    ensures FractionValue(u, n, |fs|) == DigitsFraction(fs)
  {
    if |fs| > 0 {
      assert forall i :: n + 1 <= i < n + 1 + |fs| ==> u[i] == fs[i - n - 1];
    }
  }

  /** The value of the `f` digits after the '.' at position `n`. */
  function FractionValue(u: string, n: nat, f: nat): real
    requires f > 0 ==> n + 1 + f <= |u| && forall i :: n + 1 <= i < n + 1 + f ==> IsDigit(u[i])
  {
    if f == 0 then 0.0
    else
      var ds := u[n + 1..n + 1 + f];
      assert forall i :: 0 <= i < |ds| ==> IsDigit(ds[i]) by {
        assert forall i :: 0 <= i < |ds| ==> ds[i] == u[n + 1 + i];
      }
      DigitsFraction(ds)
  }

  /** The value of "0." followed by the digits `fs`, read one digit at a time. */
  function DigitsFraction(fs: string): (r: real)
    requires forall i :: 0 <= i < |fs| ==> IsDigit(fs[i])
    ensures 0.0 <= r < 1.0
  {
    if |fs| == 0 then 0.0
    else
      assert forall i :: 0 <= i < |fs| - 1 ==> fs[1..][i] == fs[i + 1];
      (DigitValue(fs[0]) as real + DigitsFraction(fs[1..])) / 10.0
  }

  /** Reading the most significant digit off the front. */
  lemma {:induction false} DigitsValueFront(fs: string)
    requires |fs| > 0 && forall i :: 0 <= i < |fs| ==> IsDigit(fs[i])
    ensures forall i :: 0 <= i < |fs| - 1 ==> IsDigit(fs[1..][i])
    ensures DigitsValue(fs) == DigitValue(fs[0]) * Pow10(|fs| - 1) + DigitsValue(fs[1..])
  {
    assert forall i :: 0 <= i < |fs| - 1 ==> fs[1..][i] == fs[i + 1];
    if |fs| > 1 {
      var k := |fs|;
      var front := fs[..k - 1];
      assert forall i :: 0 <= i < k - 1 ==> front[i] == fs[i];
      DigitsValueFront(front);
      assert front[1..] == fs[1..][..k - 2];
      assert fs[1..][k - 2] == fs[k - 1];
      ShiftDigit(DigitValue(fs[0]), Pow10(k - 2), DigitsValue(front[1..]), DigitValue(fs[k - 1]));
    } else {
      assert fs[..0] == [] && fs[1..] == [];
    }
  }

  lemma ShiftDigit(a: int, p: int, b: int, c: int)
    ensures (a * p + b) * 10 + c == a * (10 * p) + (b * 10 + c)
  {
  }

  /** The fraction read digit by digit is the digits' value over the matching power of ten. */
  lemma {:induction false} DigitsFractionValue(fs: string)
    requires forall i :: 0 <= i < |fs| ==> IsDigit(fs[i])
    ensures DigitsFraction(fs) == DigitsValue(fs) as real / Pow10(|fs|) as real
  {
    if |fs| > 0 {
      DigitsValueFront(fs);
      DigitsFractionValue(fs[1..]);
      FractionStep(DigitValue(fs[0]), Pow10(|fs| - 1), DigitsValue(fs[1..]));
    }
  }

  lemma FractionStep(d: nat, p: nat, x: nat)
    requires p >= 1
    ensures (d as real + x as real / p as real) / 10.0 == (d * p + x) as real / (10 * p) as real
  {
    var q := p as real;
    assert (d as real + x as real / q) * q == d as real * q + x as real;
  }


  function Pow10(n: nat): (p: nat)
    ensures p >= 1
  {
    if n == 0 then 1 else 10 * Pow10(n - 1)
  }
}
