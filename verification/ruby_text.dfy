/** The two pieces of Ruby's String API that the version gate relies on:
    `String#split(sep, limit)` with a one-character separator and a positive
    limit, and `String#to_i` with the default base 10. Ruby strings are
    modelled as `seq<char>`. */
module RubyText {

  /** The characters C's `isspace` accepts; Ruby's integer parser skips them
      before the number. */
  predicate IsSpace(c: char) {
    c == ' ' || c == '\t' || c == '\n' || c == '\r' || c as int == 11 || c as int == 12
  }

  predicate IsDigit(c: char) {
    '0' <= c <= '9'
  }

  predicate AllDigits(s: string) {
    forall i :: 0 <= i < |s| ==> IsDigit(s[i])
  }

  /** Position of the first `c` in `s`, or `|s|` when `c` does not occur. */
  function IndexOf(s: string, c: char): (i: nat)
    ensures i <= |s|
    ensures i < |s| ==> s[i] == c
    ensures forall j :: 0 <= j < i ==> s[j] != c
  {
    if s == [] then 0 else if s[0] == c then 0 else 1 + IndexOf(s[1..], c)
  }

  lemma {:induction false} IndexOfConcat(a: string, b: string, c: char)
    requires c !in a
    requires b == [] || b[0] == c
    ensures IndexOf(a + b, c) == |a|
    decreases |a|
  {
    if a != [] {
      assert (a + b)[1..] == a[1..] + b;
      IndexOfConcat(a[1..], b, c);
    }
  }

  /** `parts.join(sep)`. */
  function JoinWith(parts: seq<string>, sep: char): string {
    if |parts| == 0 then ""
    else if |parts| == 1 then parts[0]
    else parts[0] + [sep] + JoinWith(parts[1..], sep)
  }

  /** The fields `split(sep, limit)` makes of a non-empty string: at most
      `limit` of them, empty fields kept, and the last field holding the
      unsplit remainder once the limit is reached. */
  function Fields(s: string, sep: char, limit: nat): (r: seq<string>)
    requires limit >= 1
    ensures 1 <= |r| <= limit
    ensures JoinWith(r, sep) == s
    ensures forall k :: 0 <= k < |r| - 1 ==> sep !in r[k]
    ensures |r| < limit ==> sep !in r[|r| - 1]
    decreases limit
  {
    var i := IndexOf(s, sep);
    if limit == 1 || i == |s| then
      [s]
    else
      var rest := Fields(s[i + 1..], sep, limit - 1);
      var r := [s[..i]] + rest;
      assert r[1..] == rest;
      assert s == s[..i] + [sep] + s[i + 1..];
      r
  }

  /** `s.split(sep, limit)` for a positive limit: the empty string has no
      fields, anything else splits into between one and `limit` fields that
      join back into `s`. */
  function Split(s: string, sep: char, limit: nat): (r: seq<string>)
    requires limit >= 1
    ensures r == [] <==> s == []
    ensures r != [] ==> |r| <= limit && JoinWith(r, sep) == s
  {
    if s == [] then [] else Fields(s, sep, limit)
  }

  /** The digits Ruby's base-10 scanner reads from the front of `s`: a run of
      decimal digits in which a single `_` may stand between two digits; the
      underscores are not part of the number. */
  function ScanDigits(s: string): (d: string)
    ensures AllDigits(d)
    ensures |d| <= |s|
    ensures d == [] <==> (s == [] || !IsDigit(s[0]))
    ensures d != [] ==> d[0] == s[0]
  {
    if s == [] || !IsDigit(s[0]) then []
    else if |s| >= 3 && s[1] == '_' && IsDigit(s[2]) then [s[0]] + ScanDigits(s[2..])
    else if |s| >= 2 && s[1] == '_' then [s[0]]
    else [s[0]] + ScanDigits(s[1..])
  }

  function DigitValue(c: char): nat
    requires IsDigit(c)
  {
    (c as int) - ('0' as int)
  }

  /** The value of a string of decimal digits; the empty string is 0. */
  function DecimalValue(d: string): nat
    requires AllDigits(d)
  {
    if d == [] then 0 else 10 * DecimalValue(d[..|d| - 1]) + DigitValue(d[|d| - 1])
  }

  lemma SingleDigit(c: char)
    requires IsDigit(c)
    ensures DecimalValue([c]) == DigitValue(c)
  {
    assert [c][..0] == [];
  }

  lemma TwoDigits(c: char, e: char)
    requires IsDigit(c) && IsDigit(e)
    ensures DecimalValue([c, e]) == 10 * DigitValue(c) + DigitValue(e)
  {
    assert [c, e][..1] == [c];
    SingleDigit(c);
  }

  /** `s` without its leading white space. */
  function SkipSpaces(s: string): (t: string)
    ensures |t| <= |s|
    ensures t == [] || !IsSpace(t[0])
  {
    if s != [] && IsSpace(s[0]) then SkipSpaces(s[1..]) else s
  }

  /** The part of a trimmed, unsigned numeral that holds the digits: Ruby
      accepts an optional `0d` / `0D` radix prefix in base 10. */
  function DropDecimalPrefix(u: string): string {
    if |u| >= 2 && u[0] == '0' && (u[1] == 'd' || u[1] == 'D') then u[2..] else u
  }

  /** `String#to_i`: skip white space, read one optional sign and an optional
      `0d` prefix, then the leading digits; anything else ends the number,
      and a string with no leading digits is 0. It never fails. */
  function ToI(s: string): (n: int)
    ensures s == [] ==> n == 0
    ensures s != [] && !(IsSpace(s[0]) || IsDigit(s[0]) || s[0] == '+' || s[0] == '-') ==> n == 0
  {
    var t := SkipSpaces(s);
    var negative := t != [] && t[0] == '-';
    var unsigned := if t != [] && (t[0] == '-' || t[0] == '+') then t[1..] else t;
    var value: int := DecimalValue(ScanDigits(DropDecimalPrefix(unsigned)));
    if negative then -value else value
  }

  /** `t` cannot continue a numeral whose digits came before it. */
  predicate EndsNumeral(t: string) {
    t == [] || !(IsDigit(t[0]) || t[0] == '_' || t[0] == 'd' || t[0] == 'D')
  }

  lemma {:induction false} ScanDigitsOfNumeral(d: string, t: string)
    requires d != [] && AllDigits(d)
    requires t == [] || !(IsDigit(t[0]) || t[0] == '_')
    ensures ScanDigits(d + t) == d
    decreases |d|
  {
    var s := d + t;
    if |d| == 1 {
      assert s[1..] == t;
    } else {
      assert s[1..] == d[1..] + t;
      ScanDigitsOfNumeral(d[1..], t);
      assert d == [d[0]] + d[1..];
    }
  }

  /** A single `_` between two digit runs is skipped: `1_000` reads as the
      digits `1000`. */
  lemma {:induction false} ScanDigitsJoinsUnderscore(d1: string, d2: string, t: string)
    requires d1 != [] && AllDigits(d1) && d2 != [] && AllDigits(d2)
    requires t == [] || !(IsDigit(t[0]) || t[0] == '_')
    ensures ScanDigits(d1 + ['_'] + d2 + t) == d1 + d2
    decreases |d1|
  {
    var s := d1 + ['_'] + d2 + t;
    if |d1| == 1 {
      assert s[1] == '_' && s[2] == d2[0];
      assert s[2..] == d2 + t;
      ScanDigitsOfNumeral(d2, t);
    } else {
      assert s[1] == d1[1];
      assert s[1..] == d1[1..] + ['_'] + d2 + t;
      ScanDigitsJoinsUnderscore(d1[1..], d2, t);
      assert d1 + d2 == [d1[0]] + (d1[1..] + d2);
    }
  }

  /** An `_` not followed by a digit ends the number: `1__2` and `1_` both
      read as the digit `1`. */
  lemma {:induction false} ScanDigitsStopsAtUnderscore(d: string, t: string)
    requires d != [] && AllDigits(d)
    requires t == [] || !IsDigit(t[0])
    ensures ScanDigits(d + ['_'] + t) == d
    decreases |d|
  {
    var s := d + ['_'] + t;
    if |d| == 1 {
      assert s[1] == '_';
      assert |s| >= 3 ==> s[2] == t[0];
    } else {
      assert s[1] == d[1];
      assert s[1..] == d[1..] + ['_'] + t;
      ScanDigitsStopsAtUnderscore(d[1..], t);
      assert d == [d[0]] + d[1..];
    }
  }

  /** A run of decimal digits followed by anything that cannot continue it
      reads as the value of those digits: `"3.1".to_i == 3`. */
  lemma {:induction false} ToIOfNumeral(d: string, t: string)
    requires d != [] && AllDigits(d)
    requires EndsNumeral(t)
    ensures ToI(d + t) == DecimalValue(d)
  {
    var s := d + t;
    assert s[0] == d[0];
    assert IsDigit(s[0]);
    assert !IsSpace(s[0]);
    assert SkipSpaces(s) == s;
    assert |s| >= 2 ==> s[1] == (if |d| >= 2 then d[1] else t[0]);
    assert DropDecimalPrefix(s) == s;
    ScanDigitsOfNumeral(d, t);
  }

  /** White space before the number does not change it. */
  lemma ToISkipsSpace(c: char, s: string)
    requires IsSpace(c)
    ensures ToI([c] + s) == ToI(s)
  {
    assert ([c] + s)[1..] == s;
    assert SkipSpaces([c] + s) == SkipSpaces(s);
  }

  /** The optional `0d` / `0D` radix prefix of base 10 is skipped:
      `"0d12".to_i == 12`. */
  lemma ToIOfDecimalPrefix(x: char, d: string, t: string)
    requires x == 'd' || x == 'D'
    requires d != [] && AllDigits(d)
    requires EndsNumeral(t)
    ensures ToI(['0', x] + d + t) == DecimalValue(d)
  {
    var u := d + t;
    var s := ['0', x] + u;
    assert ['0', x] + d + t == s;
    assert s[0] == '0' && s[1] == x && s[2..] == u;
    assert !IsSpace(s[0]);
    assert SkipSpaces(s) == s;
    assert DropDecimalPrefix(s) == u;
    ScanDigitsOfNumeral(d, t);
    assert ToI(s) == DecimalValue(ScanDigits(u));
  }

  /** A minus sign negates the digits after it: `"-12".to_i == -12`. */
  lemma ToINegative(d: string, t: string)
    requires d != [] && AllDigits(d)
    requires EndsNumeral(t)
    ensures ToI("-" + d + t) == -(DecimalValue(d) as int)
  {
    var s := "-" + d + t;
    assert s[0] == '-' && !IsSpace(s[0]);
    assert SkipSpaces(s) == s;
    assert s[1..] == d + t;
    var u := d + t;
    assert u[0] == d[0];
    assert |u| >= 2 ==> u[1] == (if |d| >= 2 then d[1] else t[0]);
    assert DropDecimalPrefix(u) == u;
    ScanDigitsOfNumeral(d, t);
  }
}
