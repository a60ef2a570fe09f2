/**
 * The string operations the report engine relies on, with the meaning of the
 * Python `str` methods it calls: `strip()`, `in`, `startswith`, `split`,
 * `replace(c, '')`, `isdigit()`, `int()` on digit text and `float()` on
 * decimal text.
 */
module Text {
  import opened Wrappers

  type String = seq<char>

  // ---------------------------------------------------------------------------
  // Whitespace and str.strip()
  // ---------------------------------------------------------------------------

  /** The code points for which Python's `str.isspace()` holds; `strip()` removes these. */
  predicate IsSpace(c: char) {
    || c == ' '
    || ('\t' <= c <= '\r')
    || ('\U{1C}' <= c <= '\U{1F}')
    || c == '\U{85}'
    || c == '\U{A0}'
    || c == '\U{1680}'
    || ('\U{2000}' <= c <= '\U{200A}')
    || c == '\U{2028}'
    || c == '\U{2029}'
    || c == '\U{202F}'
    || c == '\U{205F}'
    || c == '\U{3000}'
  }

  /** `s` with its leading whitespace removed. */
  function TrimStart(s: String): (r: String)
    ensures |r| <= |s| && r == s[|s| - |r|..]
    ensures forall k :: 0 <= k < |s| - |r| ==> IsSpace(s[k])
    ensures r != [] ==> !IsSpace(r[0])
  {
    if s != [] && IsSpace(s[0]) then TrimStart(s[1..]) else s
  }

  /** `s` with its trailing whitespace removed. */
  function TrimEnd(s: String): (r: String)
    ensures |r| <= |s| && r == s[..|r|]
    ensures forall k :: |r| <= k < |s| ==> IsSpace(s[k])
    ensures r != [] ==> !IsSpace(r[|r| - 1])
  {
    if s != [] && IsSpace(s[|s| - 1]) then TrimEnd(s[..|s| - 1]) else s
  }

  /** `r` is the part of `s` from index `i` on, with only whitespace before and after it. */
  predicate IsStrippedAt(s: String, r: String, i: nat) {
    && i + |r| <= |s|
    && r == s[i..i + |r|]
    && (forall k :: 0 <= k < i ==> IsSpace(s[k]))
    && (forall k :: i + |r| <= k < |s| ==> IsSpace(s[k]))
  }

  /** Python's `s.strip()`: the longest infix of `s` that starts and ends with a non-space. */
  function Strip(s: String): (r: String)
    ensures |r| <= |s|
    ensures r != [] ==> !IsSpace(r[0]) && !IsSpace(r[|r| - 1])
    ensures r == [] <==> forall k :: 0 <= k < |s| ==> IsSpace(s[k])
    ensures (forall k :: 0 <= k < |s| ==> !IsSpace(s[k])) ==> r == s
    ensures exists i: nat :: IsStrippedAt(s, r, i)
  {
    var t := TrimStart(s);
    var r := TrimEnd(t);
    assert r != [] ==> r[0] == t[0];
    TrimBothEnds(s);
    r
  }

  /** Trimming the start, then the end, leaves the infix after the leading spaces. */
  lemma TrimBothEnds(s: String)
    ensures IsStrippedAt(s, TrimEnd(TrimStart(s)), |s| - |TrimStart(s)|)
  {
    var t := TrimStart(s);
    var r := TrimEnd(t);
    var i := |s| - |t|;
    assert r == s[i..i + |r|];
    assert forall k :: 0 <= k < i ==> IsSpace(s[k]);
    forall k | i + |r| <= k < |s|
      ensures IsSpace(s[k])
    {
      assert s[k] == t[k - i];
    }
    assert i + |r| <= |s|;
    assert IsStrippedAt(s, r, i);
  }

  /** A text ending in a non-space loses only leading whitespace, none of it past a non-space at `p`. */
  lemma StripFrom(w: String, p: nat) returns (i: nat)
    requires p < |w| && !IsSpace(w[p]) && !IsSpace(w[|w| - 1])
    ensures i <= p && Strip(w) == w[i..]
  {
    var r := Strip(w);
    i :| IsStrippedAt(w, r, i);
    assert i + |r| == |w|;
  }

  /** A text with no whitespace at either end is left as it is. */
  lemma StripKeepsTrimmed(s: String)
    requires s != [] && !IsSpace(s[0]) && !IsSpace(s[|s| - 1])
    ensures Strip(s) == s
  {
    assert TrimStart(s) == s;
    assert TrimEnd(s) == s;
  }

  /** Stripping twice is stripping once: `float()` re-stripping an already stripped string changes nothing. */
  lemma StripIdempotent(s: String)
    ensures Strip(Strip(s)) == Strip(s)
  {
    var r := Strip(s);
    if r != [] {
      assert !IsSpace(r[0]);
      assert TrimStart(r) == r;
      assert TrimEnd(r) == r;
    }
  }

  // ---------------------------------------------------------------------------
  // Substrings and prefixes
  // ---------------------------------------------------------------------------

  /** `sub` occurs in `s` starting at index `i`. */
  predicate OccursAt(s: String, sub: String, i: nat) {
    i + |sub| <= |s| && s[i..i + |sub|] == sub
  }

  /** Python's `sub in s` for strings. */
  predicate Contains(s: String, sub: String)
    decreases |s|
  {
    OccursAt(s, sub, 0) || (s != [] && Contains(s[1..], sub))
  }

  /** `Contains` finds an occurrence exactly when there is one. */
  lemma {:induction false} ContainsIff(s: String, sub: String)
    ensures Contains(s, sub) <==> exists i: nat :: OccursAt(s, sub, i)
    decreases |s|
  {
    if s != [] {
      ContainsIff(s[1..], sub);
      if Contains(s[1..], sub) {
        var i: nat :| OccursAt(s[1..], sub, i);
        assert s[i + 1..i + 1 + |sub|] == s[1..][i..i + |sub|];
        assert OccursAt(s, sub, i + 1);
      }
      if i: nat :| OccursAt(s, sub, i) {
        if i > 0 {
          assert s[1..][i - 1..i - 1 + |sub|] == s[i..i + |sub|];
          assert OccursAt(s[1..], sub, i - 1);
        }
      }
    } else {
      if i: nat :| OccursAt(s, sub, i) {
        assert i == 0;
      }
    }
  }

  /** A string that contains `sub` contains every character of `sub`. */
  lemma ContainsHasChars(s: String, sub: String, k: nat)
    requires Contains(s, sub) && k < |sub|
    ensures sub[k] in s
  {
    ContainsIff(s, sub);
    var i: nat :| OccursAt(s, sub, i);
    assert s[i + k] == sub[k];
  }

  /** Python's `s.startswith(prefix)`. */
  predicate StartsWith(s: String, prefix: String) {
    |prefix| <= |s| && s[..|prefix|] == prefix
  }

  // ---------------------------------------------------------------------------
  // str.replace(c, '')
  // ---------------------------------------------------------------------------

  /** Python's `s.replace(c, '')`: every occurrence of `c` dropped, all else kept. */
  function RemoveChar(s: String, c: char): (r: String)
    ensures |r| <= |s| && c !in r
    ensures c !in s ==> r == s
  {
    if s == [] then []
    else
      var rest := RemoveChar(s[1..], c);
      assert s == [s[0]] + s[1..];
      (if s[0] == c then [] else [s[0]]) + rest
  }

  /** Exactly the characters other than `c` survive the removal. */
  lemma {:induction false} RemoveCharMembers(s: String, c: char, x: char)
    ensures x in RemoveChar(s, c) <==> x in s && x != c
    decreases |s|
  {
    if s != [] {
      RemoveCharMembers(s[1..], c, x);
      assert s == [s[0]] + s[1..];
    }
  }

  /** Removing a character from a concatenation removes it from each part. */
  lemma {:induction false} RemoveCharAppend(a: String, b: String, c: char)
    ensures RemoveChar(a + b, c) == RemoveChar(a, c) + RemoveChar(b, c)
    decreases |a|
  {
    if a == [] {
      assert a + b == b;
    } else {
      var ab := a + b;
      assert ab[0] == a[0] && ab[1..] == a[1..] + b;
      var head: String := if a[0] == c then [] else [a[0]];
      calc {
        RemoveChar(ab, c);
        head + RemoveChar(a[1..] + b, c);
        { RemoveCharAppend(a[1..], b, c); }
        head + (RemoveChar(a[1..], c) + RemoveChar(b, c));
        RemoveChar(a, c) + RemoveChar(b, c);
      }
    }
  }

  // ---------------------------------------------------------------------------
  // str.split(sep) for a one-character separator, and its inverse
  // ---------------------------------------------------------------------------

  /** The parts glued back together with `sep` between them (`sep.join(parts)`). */
  function Join(parts: seq<String>, sep: char): String
    requires |parts| >= 1
  {
    if |parts| == 1 then parts[0] else parts[0] + [sep] + Join(parts[1..], sep)
  }

  /** Joining two or three pieces. */
  lemma JoinSmall(a: String, b: String, c: String, sep: char)
    ensures Join([a, b], sep) == a + [sep] + b
    ensures Join([a, b, c], sep) == a + [sep] + b + [sep] + c
  {
    assert [a, b][1..] == [b];
    assert [b, c][1..] == [c];
    assert [a, b, c][1..] == [b, c];
    assert Join([b, c], sep) == b + [sep] + c;
    assert a + [sep] + (b + [sep] + c) == a + [sep] + b + [sep] + c;
  }

  /** Python's `s.split(sep)`: the maximal `sep`-free pieces, in order. */
  function Split(s: String, sep: char): (parts: seq<String>)
    ensures |parts| >= 1
    ensures forall i :: 0 <= i < |parts| ==> sep !in parts[i]
    ensures Join(parts, sep) == s
    decreases |s|
  {
    if s == [] then [[]]
    else
      var rest := Split(s[1..], sep);
      if s[0] == sep then
        assert ([[]] + rest)[1..] == rest;
        [[]] + rest
      else
        var parts := [[s[0]] + rest[0]] + rest[1..];
        assert parts[1..] == rest[1..];
        assert |rest| > 1 ==> Join(rest, sep) == rest[0] + [sep] + Join(rest[1..], sep);
        assert Join(parts, sep) == [s[0]] + Join(rest, sep);
        parts
  }

  /** Splitting a string that starts with a `sep`-free piece `a` followed by `sep`. */
  lemma {:induction false} SplitAfterPiece(a: String, sep: char, t: String)
    requires sep !in a
    ensures Split(a + [sep] + t, sep) == [a] + Split(t, sep)
    decreases |a|
  {
    if a == [] {
      assert a + [sep] + t == [sep] + t;
      assert ([sep] + t)[1..] == t;
    } else {
      var s := a + [sep] + t;
      assert s[1..] == a[1..] + [sep] + t;
      assert s[0] == a[0] && a[0] != sep;
      var rest := Split(s[1..], sep);
      SplitAfterPiece(a[1..], sep, t);
      assert rest[0] == a[1..] && rest[1..] == Split(t, sep);
      assert Split(s, sep) == [[s[0]] + rest[0]] + rest[1..];
      assert [a[0]] + a[1..] == a;
    }
  }

  /** A string without `sep` is a single piece. */
  lemma {:induction false} SplitWithoutSeparator(a: String, sep: char)
    requires sep !in a
    ensures Split(a, sep) == [a]
    decreases |a|
  {
    if a != [] {
      SplitWithoutSeparator(a[1..], sep);
      assert [a[0]] + a[1..] == a;
    }
  }

  /** Whatever precedes the last `sep`, the last piece is what follows it. */
  lemma {:induction false} SplitLastPiece(a: String, sep: char, b: String)
    requires sep !in b
    ensures var parts := Split(a + [sep] + b, sep);
            |parts| >= 2 && parts[|parts| - 1] == b
    decreases |a|
  {
    var s := a + [sep] + b;
    if a == [] {
      assert s == [sep] + b && s[1..] == b;
      SplitWithoutSeparator(b, sep);
    } else {
      assert s[1..] == a[1..] + [sep] + b;
      SplitLastPiece(a[1..], sep, b);
    }
  }

  /** `Split` inverts `Join` on `sep`-free pieces: the two are mutually inverse. */
  lemma {:induction false} SplitJoin(parts: seq<String>, sep: char)
    requires |parts| >= 1
    requires forall i :: 0 <= i < |parts| ==> sep !in parts[i]
    ensures Split(Join(parts, sep), sep) == parts
    decreases |parts|
  {
    if |parts| == 1 {
      SplitWithoutSeparator(parts[0], sep);
    } else {
      SplitJoin(parts[1..], sep);
      SplitAfterPiece(parts[0], sep, Join(parts[1..], sep));
      assert [parts[0]] + parts[1..] == parts;
    }
  }

  // ---------------------------------------------------------------------------
  // Digits: str.isdigit(), int() and str(n)
  // ---------------------------------------------------------------------------

  predicate IsDigit(c: char) {
    '0' <= c <= '9'
  }

  predicate AllDigits(s: String) {
    forall k :: 0 <= k < |s| ==> IsDigit(s[k])
  }

  /** Python's `s.isdigit()` on ASCII text: non-empty and digits only. */
  predicate IsDigitString(s: String) {
    s != [] && AllDigits(s)
  }

  function DigitValue(c: char): nat
    requires IsDigit(c)
  {
    c as int - '0' as int
  }

  function DigitChar(n: nat): (c: char)
    requires n < 10
    ensures IsDigit(c) && DigitValue(c) == n
  {
    ('0' as int + n) as char
  }

  /** Python's `int(s)` on a string of decimal digits. */
  function DigitsValue(s: String): nat
    requires AllDigits(s)
  {
    if s == [] then 0 else 10 * DigitsValue(s[..|s| - 1]) + DigitValue(s[|s| - 1])
  }

  lemma DigitCharOfValue(c: char)
    requires IsDigit(c)
    ensures DigitChar(DigitValue(c)) == c
  {
  }

  /** Digit text that does not start with `0` stands for a positive number. */
  lemma {:induction false} LeadingDigitPositive(t: String)
    requires t != [] && AllDigits(t) && t[0] != '0'
    ensures DigitsValue(t) >= 1
    decreases |t|
  {
    if |t| > 1 {
      LeadingDigitPositive(t[..|t| - 1]);
    }
  }

  /** Four digits stand for their weighted sum, so a leading `0` means a value below 1000. */
  lemma FourDigitsValue(t: String)
    requires |t| == 4 && AllDigits(t)
    ensures DigitsValue(t) == 1000 * DigitValue(t[0]) + 100 * DigitValue(t[1]) + 10 * DigitValue(t[2]) + DigitValue(t[3])
  {
    assert t[..1][..0] == [];
    assert DigitsValue(t[..1]) == DigitValue(t[0]);
    assert t[..2][..1] == t[..1];
    assert DigitsValue(t[..2]) == 10 * DigitValue(t[0]) + DigitValue(t[1]);
    assert t[..3][..2] == t[..2];
    assert DigitsValue(t[..3]) == 100 * DigitValue(t[0]) + 10 * DigitValue(t[1]) + DigitValue(t[2]);
    assert t[..4] == t;
  }

  /** Python's `str(n)` for a natural number: its canonical decimal digits. */
  function NatToString(n: nat): (r: String)
    ensures IsDigitString(r)
    ensures (r[0] == '0') <==> (n == 0)
  {
    if n < 10 then [DigitChar(n)] else NatToString(n / 10) + [DigitChar(n % 10)]
  }

  /** `int(str(n)) == n`. */
  lemma {:induction false} NatToStringRoundTrip(n: nat)
    ensures DigitsValue(NatToString(n)) == n
  {
    if n >= 10 {
      NatToStringRoundTrip(n / 10);
      var r := NatToString(n);
      assert r[..|r| - 1] == NatToString(n / 10);
    }
  }

  /** `str(int(t)) == t` for digit text without a leading zero: such text is the only spelling `str` gives. */
  lemma {:induction false} NatToStringOfDigits(t: String)
    requires t != [] && AllDigits(t) && (t[0] != '0' || |t| == 1)
    ensures NatToString(DigitsValue(t)) == t
    decreases |t|
  {
    var last := t[|t| - 1];
    DigitCharOfValue(last);
    if |t| == 1 {
      assert t[..0] == [];
      assert t == [last];
    } else {
      var init := t[..|t| - 1];
      LeadingDigitPositive(init);
      NatToStringOfDigits(init);
      var v := DigitsValue(t);
      assert v / 10 == DigitsValue(init) && v % 10 == DigitValue(last);
      assert t == init + [last];
    }
  }

  /** Four-digit numbers print as exactly four digits. */
  lemma NatToStringFourDigits(n: nat)
    requires 1000 <= n <= 9999
    ensures |NatToString(n)| == 4
  {
    assert |NatToString(n / 1000)| == 1;
    assert |NatToString(n / 100)| == 2;
    assert |NatToString(n / 10)| == 3;
  }

  // ---------------------------------------------------------------------------
  // float() on decimal text, and int(float(...))
  // ---------------------------------------------------------------------------

  /**
   * A decimal literal as `float()` reads it: a sign, the digits before the
   * point (as a number) and the digits after it (kept as text).
   */
  datatype Decimal = Decimal(negative: bool, whole: nat, fraction: String)

  const Zero := Decimal(false, 0, [])

  /** Python's `int(x)` of a float: truncation toward zero. */
  function Truncate(d: Decimal): int {
    if d.negative then -(d.whole as int) else d.whole
  }

  /** The text `[sign] digits [. digits]` with at least one digit, read as a decimal. */
  function ParseDecimal(s: String): Option<Decimal> {
    if s != [] && (s[0] == '+' || s[0] == '-') then ParseUnsigned(s[0] == '-', s[1..])
    else ParseUnsigned(false, s)
  }

  /** The text after the sign: `digits [. digits]` with at least one digit. */
  function ParseUnsigned(negative: bool, body: String): Option<Decimal> {
    var parts := Split(body, '.');
    if |parts| == 1 && IsDigitString(parts[0]) then
      Some(Decimal(negative, DigitsValue(parts[0]), []))
    else if |parts| == 2 && AllDigits(parts[0]) && AllDigits(parts[1]) && (parts[0] != [] || parts[1] != []) then
      Some(Decimal(negative, DigitsValue(parts[0]), parts[1]))
    else
      None
  }

  /** Python's `float(s)` on decimal text: surrounding whitespace is ignored. */
  function ParseFloat(s: String): Option<Decimal> {
    ParseDecimal(Strip(s))
  }

  /** The canonical text of a decimal: sign, digits of the whole part, then `.fraction` if any. */
  function FormatDecimal(d: Decimal): String
    requires AllDigits(d.fraction)
  {
    (if d.negative then "-" else "") + NatToString(d.whole) + (if d.fraction == [] then "" else "." + d.fraction)
  }

  /** The sign-free part of the canonical text splits at the point into whole and fraction digits. */
  lemma SplitDecimalBody(d: Decimal)
    requires AllDigits(d.fraction)
    ensures var digits := NatToString(d.whole);
            Split(digits + (if d.fraction == [] then "" else "." + d.fraction), '.')
              == if d.fraction == [] then [digits] else [digits, d.fraction]
  {
    var digits := NatToString(d.whole);
    assert '.' !in digits;
    if d.fraction == [] {
      assert digits + "" == digits;
      SplitWithoutSeparator(digits, '.');
    } else {
      assert '.' !in d.fraction;
      assert digits + ("." + d.fraction) == digits + ['.'] + d.fraction;
      SplitAfterPiece(digits, '.', d.fraction);
      SplitWithoutSeparator(d.fraction, '.');
      assert [digits] + [d.fraction] == [digits, d.fraction];
    }
  }

  /** The sign-free part of the canonical text reads back as the decimal. */
  lemma ParseUnsignedBody(d: Decimal)
    requires AllDigits(d.fraction)
    ensures ParseUnsigned(d.negative, NatToString(d.whole) + (if d.fraction == [] then "" else "." + d.fraction)) == Some(d)
  {
    NatToStringRoundTrip(d.whole);
    SplitDecimalBody(d);
  }

  /** A sign-free text that starts with a digit is read as it stands, with or without a leading `-`. */
  lemma ParseSignedBody(body: String)
    requires body != [] && IsDigit(body[0])
    ensures ParseDecimal(body) == ParseUnsigned(false, body)
    ensures ParseDecimal("-" + body) == ParseUnsigned(true, body)
  {
    var s := "-" + body;
    assert s[0] == '-' && s[1..] == body;
  }

  /** The canonical text is the sign, if any, before a body that starts with a digit. */
  lemma FormatDecimalSign(d: Decimal)
    requires AllDigits(d.fraction)
    ensures var body := NatToString(d.whole) + (if d.fraction == [] then "" else "." + d.fraction);
            && body != [] && IsDigit(body[0])
            && FormatDecimal(d) == (if d.negative then "-" + body else body)
  {
    var digits := NatToString(d.whole);
    var body := digits + (if d.fraction == [] then "" else "." + d.fraction);
    assert body[0] == digits[0];
  }

  /** Reading the canonical text of a decimal gives the decimal back. */
  lemma ParseFormatDecimal(d: Decimal)
    requires AllDigits(d.fraction)
    ensures ParseDecimal(FormatDecimal(d)) == Some(d)
  {
    var body := NatToString(d.whole) + (if d.fraction == [] then "" else "." + d.fraction);
    ParseUnsignedBody(d);
    FormatDecimalSign(d);
    ParseSignedBody(body);
  }

  /** Integer text such as `-42` reads back, through `int(float(...))`, as the integer. */
  lemma ParseIntegerText(i: int)
    ensures var d := Decimal(i < 0, if i < 0 then -i else i, []);
            ParseDecimal(FormatDecimal(d)) == Some(d) && Truncate(d) == i
  {
    ParseFormatDecimal(Decimal(i < 0, if i < 0 then -i else i, []));
  }
}
