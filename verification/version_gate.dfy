/** `Presso.check_jruby_version!`: both public operations refuse to run on
    JRuby 1.7.3 or older. The running version string is a parameter. */
module VersionGate {
  import opened RubyText
  import opened Failures

  /** The newest JRuby release the gate refuses. */
  const LastIncompatible: seq<int> := [1, 7, 3]

  const IncompatibleMessage: string :=
    "Incompatible JRuby version. Use at least JRuby 1.7.4. See JRUBY-7157."

  /** `parts.map(&:to_i)`. */
  function ToInts(parts: seq<string>): (v: seq<int>)
    ensures |v| == |parts|
  {
    if parts == [] then [] else [ToI(parts[0])] + ToInts(parts[1..])
  }

  /** `version.split(".", 3).map(&:to_i)`. */
  function ParseVersion(version: string): (v: seq<int>)
    ensures |v| <= 3
    ensures v == [] <==> version == []
  {
    ToInts(Split(version, '.', 3))
  }

  /** Ruby's `Array#<=>` on integer arrays: the first differing element
      decides, and a proper prefix is smaller. */
  function Compare(a: seq<int>, b: seq<int>): (c: int)
    ensures -1 <= c <= 1
    ensures c == 0 <==> a == b
  {
    if a == [] && b == [] then 0
    else if a == [] then -1
    else if b == [] then 1
    else if a[0] < b[0] then -1
    else if a[0] > b[0] then 1
    else
      var c := Compare(a[1..], b[1..]);
      assert a == [a[0]] + a[1..] && b == [b[0]] + b[1..];
      c
  }

  /** Strict lexicographic order, stated directly: `a` is a proper prefix of
      `b`, or the two first differ at a position where `a` is smaller. */
  ghost predicate LexLess(a: seq<int>, b: seq<int>) {
    || (|a| < |b| && b[..|a|] == a)
    || (exists k :: 0 <= k < |a| && k < |b| && a[..k] == b[..k] && a[k] < b[k])
  }

  lemma {:induction false} CompareIsLexicographic(a: seq<int>, b: seq<int>)
    ensures Compare(a, b) < 0 <==> LexLess(a, b)
    ensures Compare(a, b) > 0 <==> LexLess(b, a)
    decreases |a|
  {
    if a == [] || b == [] {
      assert a == [] ==> b[..|a|] == a;
      assert b == [] ==> a[..|b|] == b;
    } else if a[0] != b[0] {
      if a[0] < b[0] {
        assert a[..0] == b[..0];
        LexLessFirstDiffers(b, a);
      } else {
        assert b[..0] == a[..0];
        LexLessFirstDiffers(a, b);
      }
    } else {
      CompareIsLexicographic(a[1..], b[1..]);
      LexLessTail(a, b);
      LexLessTail(b, a);
    }
  }

  lemma LexLessFirstDiffers(a: seq<int>, b: seq<int>)
    requires a != [] && b != [] && a[0] > b[0]
    ensures !LexLess(a, b)
  {
    forall k | 0 <= k < |a| && k < |b| && a[..k] == b[..k]
      ensures a[k] >= b[k]
    {
    }
  }

  /** Dropping an equal first element keeps one array a proper prefix of
      the other. */
  lemma ProperPrefixTail(a: seq<int>, b: seq<int>)
    requires a != [] && b != [] && a[0] == b[0]
    ensures (|a| < |b| && b[..|a|] == a) <==> (|a[1..]| < |b[1..]| && b[1..][..|a[1..]|] == a[1..])
  {
    var a', b' := a[1..], b[1..];
    if |a| < |b| && b[..|a|] == a {
      assert b'[..|a'|] == b[..|a|][1..];
    }
    if |a'| < |b'| && b'[..|a'|] == a' {
      assert b[..|a|] == [b[0]] + b'[..|a'|];
      assert a == [a[0]] + a';
    }
  }

  /** A first difference after an equal first element is a first
      difference of the tails, one position earlier. */
  lemma FirstDifferenceTail(a: seq<int>, b: seq<int>, k: nat)
    requires a != [] && b != [] && a[0] == b[0]
    requires k < |a| && k < |b| && a[..k] == b[..k] && a[k] < b[k]
    ensures k > 0
    ensures a[1..][..k - 1] == b[1..][..k - 1] && a[1..][k - 1] < b[1..][k - 1]
  {
    assert k > 0;
    assert a[1..][..k - 1] == a[..k][1..] && b[1..][..k - 1] == b[..k][1..];
  }

  /** A first difference of the tails is one of the arrays, one position
      later. */
  lemma FirstDifferenceCons(a: seq<int>, b: seq<int>, k: nat)
    requires a != [] && b != [] && a[0] == b[0]
    requires k < |a[1..]| && k < |b[1..]| && a[1..][..k] == b[1..][..k] && a[1..][k] < b[1..][k]
    ensures a[..k + 1] == b[..k + 1] && a[k + 1] < b[k + 1]
  {
    assert a[..k + 1] == [a[0]] + a[1..][..k] && b[..k + 1] == [b[0]] + b[1..][..k];
  }

  lemma LexLessTail(a: seq<int>, b: seq<int>)
    requires a != [] && b != [] && a[0] == b[0]
    ensures LexLess(a, b) <==> LexLess(a[1..], b[1..])
  {
    var a', b' := a[1..], b[1..];
    ProperPrefixTail(a, b);
    if k :| 0 <= k < |a| && k < |b| && a[..k] == b[..k] && a[k] < b[k] {
      FirstDifferenceTail(a, b, k);
      assert 0 <= k - 1 < |a'| && k - 1 < |b'| && a'[..k - 1] == b'[..k - 1] && a'[k - 1] < b'[k - 1];
    }
    if k :| 0 <= k < |a'| && k < |b'| && a'[..k] == b'[..k] && a'[k] < b'[k] {
      FirstDifferenceCons(a, b, k);
      assert 0 <= k + 1 < |a| && k + 1 < |b| && a[..k + 1] == b[..k + 1] && a[k + 1] < b[k + 1];
    }
  }

  /** `[a, b].max`: Ruby keeps the first element unless a later one compares
      greater. */
  function Max2(a: seq<int>, b: seq<int>): (m: seq<int>)
    ensures m == a || m == b
    ensures m == a <==> !LexLess(a, b)
  {
    CompareIsLexicographic(b, a);
    CompareIsLexicographic(a, b);
    if Compare(b, a) > 0 then b else a
  }

  /** `check_jruby_version!`: the gate passes exactly when the parsed version
      is strictly greater than 1.7.3; otherwise it raises `PressoError`. */
  function CheckJRubyVersion(version: string): (r: Result<()>)
    ensures r.Ok? <==> LexLess(LastIncompatible, ParseVersion(version))
    ensures r.Err? ==> r.error == IncompatibleVersion(IncompatibleMessage)
  {
    var versions := [LastIncompatible, ParseVersion(version)];
    var invalid := Max2(versions[0], versions[1]) == versions[0];
    if invalid then Err(IncompatibleVersion(IncompatibleMessage)) else Ok(())
  }

  lemma {:induction false} FieldsOfDotted(x: string, y: string, z: string)
    requires '.' !in x && '.' !in y
    ensures Fields(x + "." + y + "." + z, '.', 3) == [x, y, z]
  {
    var s := x + "." + y + "." + z;
    var rest := y + "." + z;
    assert s == x + ("." + rest);
    IndexOfConcat(x, "." + rest, '.');
    assert s[..|x|] == x && s[|x| + 1..] == rest;
    assert rest == y + ("." + z);
    IndexOfConcat(y, "." + z, '.');
    assert rest[..|y|] == y && rest[|y| + 1..] == z;
  }

  lemma ParseDotted(x: string, y: string, w: string)
    requires '.' !in x && '.' !in y
    ensures ParseVersion(x + "." + y + "." + w) == [ToI(x), ToI(y), ToI(w)]
  {
    var s := x + "." + y + "." + w;
    assert Split(s, '.', 3) == [x, y, w] by {
      FieldsOfDotted(x, y, w);
    }
    ToIntsOfThree(x, y, w);
  }

  lemma ToIntsOfThree(x: string, y: string, w: string)
    ensures ToInts([x, y, w]) == [ToI(x), ToI(y), ToI(w)]
  {
    assert [x, y, w][1..] == [y, w] && [y, w][1..] == [w] && [w][1..] == [];
    assert ToInts([w]) == [ToI(w)];
    assert ToInts([y, w]) == [ToI(y), ToI(w)];
  }

  /** A version of the form `major.minor.patch` followed by anything that
      cannot continue the patch number parses to the three numbers: the third
      field keeps the rest of the string, and `to_i` stops before it. */
  lemma DottedVersion(x: string, y: string, z: string, t: string)
    requires x != [] && AllDigits(x)
    requires y != [] && AllDigits(y)
    requires z != [] && AllDigits(z)
    requires EndsNumeral(t)
    ensures ParseVersion(x + "." + y + "." + z + t) ==
            [DecimalValue(x), DecimalValue(y), DecimalValue(z)]
  {
    var w := z + t;
    assert x + "." + y + "." + z + t == x + "." + y + "." + w;
    ParseDotted(x, y, w);
    assert ToI(x) == DecimalValue(x) by {
      assert x == x + [];
      ToIOfNumeral(x, []);
    }
    assert ToI(y) == DecimalValue(y) by {
      assert y == y + [];
      ToIOfNumeral(y, []);
    }
    assert ToI(w) == DecimalValue(z) by {
      ToIOfNumeral(z, t);
    }
  }

  /** The gate decides on the parsed components alone. */
  lemma GateOnParsed(v: string, parsed: seq<int>)
    requires ParseVersion(v) == parsed
    ensures CheckJRubyVersion(v).Ok? <==> LexLess(LastIncompatible, parsed)
  {
  }

  /** Parses of the example versions. Each states its string one character
      at a time, so that the proof works on slices of `v` rather than on a
      string literal. */
  lemma ParsesAs174(v: string)
    requires |v| == 5 && v[0] == '1' && v[1] == '.' && v[2] == '7' && v[3] == '.' && v[4] == '4'
    ensures ParseVersion(v) == [1, 7, 4]
  {
    var x, y, z := v[..1], v[2..3], v[4..];
    assert x == [v[0]] && y == [v[2]] && z == [v[4]];
    assert v == x + "." + y + "." + z + [];
    SingleDigit(v[0]);
    SingleDigit(v[2]);
    SingleDigit(v[4]);
    DottedVersion(x, y, z, []);
  }
  lemma ParsesAs1710(v: string)
    requires |v| == 6 && v[0] == '1' && v[1] == '.' && v[2] == '7' && v[3] == '.' && v[4] == '1' && v[5] == '0'
    ensures ParseVersion(v) == [1, 7, 10]
  {
    var x, y, z := v[..1], v[2..3], v[4..];
    assert x == [v[0]] && y == [v[2]] && z == [v[4], v[5]];
    assert v == x + "." + y + "." + z + [];
    SingleDigit(v[0]);
    SingleDigit(v[2]);
    TwoDigits(v[4], v[5]);
    DottedVersion(x, y, z, []);
  }
  lemma ParsesAs940(v: string)
    requires |v| == 7 && v[0] == '9' && v[1] == '.' && v[2] == '4' && v[3] == '.' && v[4] == '0' && v[5] == '.' && v[6] == '0'
    ensures ParseVersion(v) == [9, 4, 0]
  {
    var x, y, z, t := v[..1], v[2..3], v[4..5], v[5..];
    assert x == [v[0]] && y == [v[2]] && z == [v[4]] && t == [v[5], v[6]];
    assert v == x + "." + y + "." + z + t;
    SingleDigit(v[0]);
    SingleDigit(v[2]);
    SingleDigit(v[4]);
    DottedVersion(x, y, z, t);
  }
  /** Any 1.7.3 build parses as 1.7.3, four-part ones such as "1.7.3.1"
      included: `split(".", 3)` leaves ".1" inside the third field and `to_i`
      stops before it. */
  lemma ParsesAs173(v: string)
    requires |v| >= 5 && v[0] == '1' && v[1] == '.' && v[2] == '7' && v[3] == '.' && v[4] == '3'
    requires EndsNumeral(v[5..])
    ensures ParseVersion(v) == [1, 7, 3]
  {
    var x, y, z, t := v[..1], v[2..3], v[4..5], v[5..];
    assert x == [v[0]] && y == [v[2]] && z == [v[4]];
    assert v == x + "." + y + "." + z + t;
    SingleDigit(v[0]);
    SingleDigit(v[2]);
    SingleDigit(v[4]);
    DottedVersion(x, y, z, t);
  }
  lemma ParsesAs17(v: string)
    requires |v| == 3 && v[0] == '1' && v[1] == '.' && v[2] == '7'
    ensures ParseVersion(v) == [1, 7]
  {
    var x, y := v[..1], v[2..];
    assert x == [v[0]] && y == [v[2]];
    assert v == x + "." + y;
    SingleDigit(v[0]);
    SingleDigit(v[2]);
    MajorMinorVersion(x, y);
  }
  lemma MajorMinorVersion(x: string, y: string)
    requires x != [] && AllDigits(x)
    requires y != [] && AllDigits(y)
    ensures ParseVersion(x + "." + y) == [DecimalValue(x), DecimalValue(y)]
  {
    var s := x + "." + y;
    assert s == x + ("." + y);
    IndexOfConcat(x, "." + y, '.');
    assert s[..|x|] == x && s[|x| + 1..] == y;
    IndexOfConcat(y, [], '.');
    assert y + [] == y;
    assert Fields(s, '.', 3) == [x, y];
    assert [x, y][1..] == [y] && [y][1..] == [];
    assert ToInts([y]) == [ToI(y)];
    assert ToInts([x, y]) == [ToI(x), ToI(y)];
    assert ParseVersion(s) == [ToI(x), ToI(y)];
    assert x == x + [] && y == y + [];
    ToIOfNumeral(x, []);
    ToIOfNumeral(y, []);
  }

  /** 1.7.3 itself, a four-part 1.7.3 build, and 1.7 (a proper prefix of
      1.7.3, so smaller) are refused. */
  lemma RefusesOldVersions(v: string)
    requires v == "1.7.3" || v == "1.7.3.1" || v == "1.7"
    ensures CheckJRubyVersion(v).Err?
  {
    if v == "1.7" {
      ParsesAs17(v);
      GateOnParsed(v, [1, 7]);
      CompareIsLexicographic(LastIncompatible, [1, 7]);
      assert Compare(LastIncompatible, [1, 7]) == 1 by {
        assert LastIncompatible[1..] == [7, 3] && [1, 7][1..] == [7];
        assert [7, 3][1..] == [3] && [7][1..] == [];
      }
    } else {
      ParsesAs173(v);
      GateOnParsed(v, [1, 7, 3]);
      CompareIsLexicographic(LastIncompatible, [1, 7, 3]);
    }
  }

  /** The first compatible release and later ones; components compare as
      numbers, not as text, so 1.7.10 is newer than 1.7.4. */
  lemma AcceptsNewerVersions(v: string)
    requires v == "1.7.4" || v == "1.7.10" || v == "9.4.0.0"
    ensures CheckJRubyVersion(v).Ok?
  {
    if v == "1.7.4" {
      ParsesAs174(v);
      GateOnParsed(v, [1, 7, 4]);
      assert LastIncompatible[..2] == [1, 7, 4][..2];
    } else if v == "1.7.10" {
      ParsesAs1710(v);
      GateOnParsed(v, [1, 7, 10]);
      assert LastIncompatible[..2] == [1, 7, 10][..2];
    } else {
      ParsesAs940(v);
      GateOnParsed(v, [9, 4, 0]);
      assert LastIncompatible[..0] == [9, 4, 0][..0];
    }
  }
}
