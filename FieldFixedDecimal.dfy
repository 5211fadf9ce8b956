// Field_FixedDecimal: a narrow fixed String whose text is a decimal number
// with exactly `scale` digits after the point. Setting it from text checks
// the form, cuts extra fraction digits rounding half up, pads with zeros, and
// makes the field null with a message when the text is malformed or the
// result does not fit. The field's scratch string outlives each call, so the
// field is a class whose state is that string. Every getter but GetAsBool is
// the String one (FieldString with a narrow fixed Kind).

module FieldFixedDecimal {
  import opened Wrappers
  import opened Bytes
  import opened Fields
  import StringHelper
  import SrcLib
  import FieldString

  /** The storage of a FixedDecimal: narrow characters in the record, then the null flag. */
  const Storage: FieldString.Kind := FieldString.Kind(false, false)

  predicate IsDigit(c: char) { '0' <= c <= '9' }

  // ---------------------------------------------------------------------------
  // The accepted form: an optional sign, digits, and optionally a point
  // followed by more digits.

  /** Where the run of digits starting at i ends. */
  function SkipDigits(t: string, i: nat): (j: nat)
    requires i <= |t|
    ensures i <= j <= |t|
    ensures forall k :: i <= k < j ==> IsDigit(t[k])
    ensures j < |t| ==> !IsDigit(t[j])
    decreases |t| - i
  {
    if i < |t| && IsDigit(t[i]) then SkipDigits(t, i + 1) else i
  }

  /** A leading point gets a 0 before it, and so does one right after a leading minus. */
  function Prefixed(s: string): (t: string)
    requires s != []
    ensures t != []
  {
    if s[0] == '.' then "0" + s
    else if s[0] == '-' && StringHelper.At(s, 1) == '.' then "-0" + s[1..]
    else s
  }

  /** The length of the sign: one for a leading '+' or '-'. */
  function Lead(t: string): (n: nat)
    ensures n <= 1 && (n == 1 ==> |t| > 0 && (t[0] == '+' || t[0] == '-'))
    ensures n == 0 ==> |t| == 0 || (t[0] != '+' && t[0] != '-')
  {
    if StringHelper.At(t, 0) == '+' || StringHelper.At(t, 0) == '-' then 1 else 0
  }

  /** Where the integer digits end. */
  function IntEnd(t: string): (n: nat)
    ensures Lead(t) <= n <= |t|
  {
    SkipDigits(t, Lead(t))
  }

  predicate HasPoint(t: string)
  {
    StringHelper.At(t, IntEnd(t)) == '.'
  }

  /** Where the fraction digits end: at the integer digits' end when there is no point. */
  function FracEnd(t: string): (n: nat)
    ensures IntEnd(t) <= n <= |t|
  {
    if HasPoint(t) then SkipDigits(t, IntEnd(t) + 1) else IntEnd(t)
  }

  /** The scan of SetFromString: a digit after the sign, nothing left over, a digit after a point. */
  predicate Valid(t: string)
  {
    IsDigit(StringHelper.At(t, Lead(t))) && FracEnd(t) == |t| && (HasPoint(t) ==> IntEnd(t) + 1 < |t|)
  }

  /** The number of digits after the point. */
  function After(t: string): (n: nat)
    ensures n < |t| || n == 0
  {
    if HasPoint(t) then FracEnd(t) - IntEnd(t) - 1 else 0
  }

  /** From a on, t is one or more digits. */
  predicate DigitsFrom(t: string, a: nat)
  {
    a < |t| && forall k :: a <= k < |t| ==> IsDigit(t[k])
  }

  /** From a on, t is digits with a single point at q, and a digit on either side of it. */
  predicate PointAt(t: string, a: nat, q: nat)
  {
    a < q < |t| - 1 && t[q] == '.' && forall k :: a <= k < |t| && k != q ==> IsDigit(t[k])
  }

  /** A sign and digits are accepted, with no fraction digits. */
  lemma DigitsValid(t: string)
    requires DigitsFrom(t, Lead(t))
    ensures Valid(t) && !HasPoint(t) && After(t) == 0
  {
    assert IntEnd(t) == |t|;
  }

  /** A sign, digits, a point and digits are accepted, with the fraction digits counted. */
  lemma PointValid(t: string, q: nat)
    requires PointAt(t, Lead(t), q)
    ensures Valid(t) && HasPoint(t) && IntEnd(t) == q && After(t) == |t| - q - 1
  {
    assert IntEnd(t) == q;
  }

  /** Only those two forms are accepted. */
  lemma ValidForm(t: string)
    requires Valid(t)
    ensures HasPoint(t) ==> PointAt(t, Lead(t), IntEnd(t))
    ensures !HasPoint(t) ==> DigitsFrom(t, Lead(t))
  {
  }

  /** An accepted text is ASCII: digits, at most one point, and a sign only in front. */
  lemma ValidChars(t: string)
    requires Valid(t)
    ensures |t| > 0 && forall k :: 0 <= k < |t| ==> t[k] as int < 128 && t[k] != '\0'
    ensures forall k :: 1 <= k < |t| ==> IsDigit(t[k]) || t[k] == '.'
    ensures IsDigit(t[0]) || t[0] == '+' || t[0] == '-'
  {
    ValidForm(t);
  }

  // ---------------------------------------------------------------------------
  // Rounding

  /** The digit after c, for a carry into it; only 1 to 8 reach here. */
  function Bumped(c: char): char
  {
    if '1' <= c <= '8' then (c as int + 1) as char else c
  }

  /**
   * The carry loop from position i leftwards: a 9 becomes 0 and carries on,
   * a point is passed over, any other digit goes up by one, a leading '+'
   * becomes 1, a leading '-' becomes "-1", and a carry past the first
   * character puts a 1 in front.
   */
  function Carry(t: string, i: int): string
    requires -1 <= i < |t|
    decreases i + 1
  {
    if i < 0 then "1" + t
    else if t[i] == '+' then t[i := '1']
    else if t[i] == '-' then "-1" + t[i + 1..]
    else if t[i] == '.' then Carry(t, i - 1)
    else if t[i] == '9' then Carry(t[i := '0'], i - 1)
    else if t[i] == '0' then t[i := '1']
    else t[i := Bumped(t[i])]
  }

  /** The length the text is cut to: the fraction digits past scale go. */
  function Cut(t: string, scale: nat): (n: nat)
    requires Valid(t) && After(t) > scale
    ensures n == IntEnd(t) + 1 + scale
  {
    |t| - (After(t) - scale)
  }

  /** What is kept: the text up to the cut, without the point when scale is 0. */
  function Kept(t: string, scale: nat): string
    requires Valid(t) && After(t) > scale
  {
    var n := Cut(t, scale);
    t[..if scale == 0 then n - 1 else n]
  }

  /** The first digit cut off, which decides the rounding. */
  function Dropped(t: string, scale: nat): char
    requires Valid(t) && After(t) > scale
  {
    t[Cut(t, scale)]
  }

  predicate RoundsUp(t: string, scale: nat)
    requires Valid(t) && After(t) > scale
  {
    '5' <= Dropped(t, scale) <= '9'
  }

  /** The text cut to scale fraction digits, then carried into when the first digit cut is 5 or more. */
  function Rounded(t: string, scale: nat): string
    requires Valid(t)
  {
    if After(t) <= scale then t
    else if RoundsUp(t, scale) then Carry(Kept(t, scale), |Kept(t, scale)| - 1)
    else Kept(t, scale)
  }

  function Zeros(n: nat): (z: string)
    ensures |z| == n && forall k :: 0 <= k < n ==> z[k] == '0'
  {
    seq(n, _ => '0')
  }

  /** The text stored for an accepted one: rounded, and padded with a point and zeros to scale fraction digits. */
  function Normalized(t: string, scale: nat): string
    requires Valid(t)
  {
    Rounded(t, scale) + (if After(t) == 0 && scale != 0 then "." else "")
      + Zeros(if After(t) < scale then scale - After(t) else 0)
  }

  // ---------------------------------------------------------------------------
  // What the digits mean

  function DigitValue(c: char): nat
  {
    if IsDigit(c) then c as int - '0' as int else 0
  }

  function CountDigits(s: string): nat
  {
    if s == [] then 0 else CountDigits(s[..|s| - 1]) + (if IsDigit(s[|s| - 1]) then 1 else 0)
  }

  /** The digits of s read as one decimal number, the sign and the point passed over. */
  function Magnitude(s: string): nat
  {
    if s == [] then 0
    else if IsDigit(s[|s| - 1]) then 10 * Magnitude(s[..|s| - 1]) + DigitValue(s[|s| - 1])
    else Magnitude(s[..|s| - 1])
  }

  predicate Negative(s: string)
  {
    |s| > 0 && s[0] == '-'
  }

  lemma {:induction false} MagnitudeConcat(a: string, b: string)
    ensures Magnitude(a + b) == Magnitude(a) * StringHelper.Pow10(CountDigits(b)) + Magnitude(b)
    ensures CountDigits(a + b) == CountDigits(a) + CountDigits(b)
    decreases |b|
  {
    if b == [] {
      assert a + b == a;
    } else {
      var b' := b[..|b| - 1];
      assert (a + b)[..|a + b| - 1] == a + b';
      MagnitudeConcat(a, b');
      var p := StringHelper.Pow10(CountDigits(b'));
      if IsDigit(b[|b| - 1]) {
        assert StringHelper.Pow10(CountDigits(b)) == 10 * p;
        Scaled(Magnitude(a), p, Magnitude(b'), DigitValue(b[|b| - 1]));
      }
    }
  }

  lemma Scaled(x: int, p: int, m: int, d: int)
    ensures 10 * (x * p + m) + d == x * (10 * p) + (10 * m + d)
  {
  }

  /** A number written with n digits is below 10^n. */
  lemma {:induction false} MagnitudeBound(s: string)
    ensures Magnitude(s) < StringHelper.Pow10(CountDigits(s))
    decreases |s|
  {
    if s != [] {
      MagnitudeBound(s[..|s| - 1]);
    }
  }

  lemma {:induction false} CountAllDigits(s: string)
    requires forall k :: 0 <= k < |s| ==> IsDigit(s[k])
    ensures CountDigits(s) == |s|
    decreases |s|
  {
    if s != [] {
      CountAllDigits(s[..|s| - 1]);
    }
  }

  /** Writing digit c over the character at i changes the number by the difference times the place value. */
  lemma MagnitudeAt(t: string, i: nat, c: char)
    requires i < |t| && IsDigit(c) && (IsDigit(t[i]) || i == 0)
    ensures var p := StringHelper.Pow10(CountDigits(t[i + 1..]));
      Magnitude(t[i := c]) + DigitValue(t[i]) * p == Magnitude(t) + DigitValue(c) * p
  {
    var a, b := t[..i], t[i + 1..];
    var p := StringHelper.Pow10(CountDigits(b));
    assert t == (a + [t[i]]) + b;
    assert t[i := c] == (a + [c]) + b;
    MagnitudeConcat(a + [t[i]], b);
    MagnitudeConcat(a + [c], b);
    var x := Magnitude(a + [t[i]]);
    var y := Magnitude(a + [c]);
    assert (a + [c])[..|a|] == a;
    assert (a + [t[i]])[..|a|] == a;
    assert y == 10 * Magnitude(a) + DigitValue(c);
    assert x == 10 * Magnitude(a) + DigitValue(t[i]) by {
      if !IsDigit(t[i]) {
        assert a == [];
      }
    }
    Shifted(10 * Magnitude(a), DigitValue(c), DigitValue(t[i]), p, Magnitude(b));
  }

  lemma Shifted(x: int, d1: int, d2: int, p: int, m: int)
    ensures (x + d1) * p + m + d2 * p == (x + d2) * p + m + d1 * p
  {
  }

  /** The digits from i on: those after i, and i itself when it is a digit. */
  lemma CountFrom(t: string, i: nat)
    requires i < |t|
    ensures CountDigits(t[i..]) == CountDigits(t[i + 1..]) + (if IsDigit(t[i]) then 1 else 0)
  {
    assert t[i..] == [t[i]] + t[i + 1..];
    MagnitudeConcat([t[i]], t[i + 1..]);
  }

  /** The point is never first, so a carry into it has a character to go on to. */
  lemma PointNotFirst(t: string, i: nat)
    requires Valid(t) && i < |t| && t[i] == '.'
    ensures i > Lead(t)
  {
    ValidForm(t);
  }

  /** A digit written over a digit leaves the text accepted, with the same point and sign. */
  lemma DigitOverDigit(t: string, i: nat, c: char)
    requires Valid(t) && i < |t| && IsDigit(t[i]) && IsDigit(c)
    ensures Lead(t[i := c]) == Lead(t) && Negative(t[i := c]) == Negative(t)
    ensures Valid(t[i := c]) && After(t[i := c]) == After(t)
  {
    var r := t[i := c];
    ValidForm(t);
    if HasPoint(t) {
      PointValid(r, IntEnd(t));
    } else {
      DigitsValid(r);
    }
  }

  lemma OneMeaning()
    ensures Magnitude("1") == 1 && CountDigits("1") == 1
  {
    assert "1"[..0] == [];
  }

  /** A carry past the first character: a 1 in front of an unsigned text. */
  lemma CarryFront(t: string)
    requires Valid(t) && Lead(t) == 0
    ensures Magnitude("1" + t) == Magnitude(t) + StringHelper.Pow10(CountDigits(t))
    ensures Valid("1" + t) && After("1" + t) == After(t) && !Negative("1" + t) && !Negative(t)
  {
    FrontMagnitude(t);
    FrontForm(t);
  }

  lemma FrontMagnitude(t: string)
    ensures Magnitude("1" + t) == Magnitude(t) + StringHelper.Pow10(CountDigits(t))
  {
    OneMeaning();
    MagnitudeConcat("1", t);
  }

  lemma FrontForm(t: string)
    requires Valid(t) && Lead(t) == 0
    ensures Valid("1" + t) && After("1" + t) == After(t) && !Negative("1" + t) && !Negative(t)
  {
    ValidForm(t);
    if HasPoint(t) {
      PointValid("1" + t, IntEnd(t) + 1);
      PointValid(t, IntEnd(t));
    } else {
      DigitsValid("1" + t);
    }
  }

  /** A carry into a leading '+': it becomes 1. */
  lemma CarryPlus(t: string)
    requires Valid(t) && t[0] == '+'
    ensures var r := t[0 := '1'];
      Magnitude(r) == Magnitude(t) + StringHelper.Pow10(CountDigits(t[1..]))
      && Valid(r) && After(r) == After(t) && !Negative(r) && !Negative(t)
  {
    ValidForm(t);
    var r := t[0 := '1'];
    MagnitudeAt(t, 0, '1');
    Place(Magnitude(r), Magnitude(t), 0, 1, StringHelper.Pow10(CountDigits(t[1..])));
    if HasPoint(t) {
      PointValid(r, IntEnd(t));
      PointValid(t, IntEnd(t));
    } else {
      DigitsValid(r);
    }
  }

  /** A carry into a leading '-': it becomes "-1". */
  lemma CarryMinus(t: string)
    requires Valid(t) && t[0] == '-'
    ensures var r := "-1" + t[1..];
      Magnitude(r) == Magnitude(t) + StringHelper.Pow10(CountDigits(t[1..]))
      && Valid(r) && After(r) == After(t) && Negative(r) && Negative(t)
  {
    MinusMagnitude(t);
    MinusForm(t);
  }

  lemma MinusMagnitude(t: string)
    requires |t| > 0 && t[0] == '-'
    ensures Magnitude("-1" + t[1..]) == Magnitude(t) + StringHelper.Pow10(CountDigits(t[1..]))
  {
    var rest := t[1..];
    var minus, minusOne := ['-'], ['-', '1'];
    assert "-1" + rest == minusOne + rest;
    assert t == minus + rest;
    assert minusOne[..1] == minus;
    assert Magnitude(minus) == 0 && Magnitude(minusOne) == 1;
    MagnitudeConcat(minus, rest);
    MagnitudeConcat(minusOne, rest);
  }

  lemma MinusForm(t: string)
    requires Valid(t) && t[0] == '-'
    ensures var r := "-1" + t[1..];
      Valid(r) && After(r) == After(t) && Negative(r)
  {
    ValidForm(t);
    var r := "-1" + t[1..];
    if HasPoint(t) {
      PointValid(r, IntEnd(t) + 1);
      PointValid(t, IntEnd(t));
    } else {
      DigitsValid(r);
    }
  }

  lemma Place(m1: int, m: int, a: int, b: int, p: int)
    requires m1 + a * p == m + b * p && b == a + 1
    ensures m1 == m + p
  {
  }

  /** A carry that stops at a digit below 9, which goes up by one. */
  lemma CarryStops(t: string, i: nat, c: char)
    requires Valid(t) && i < |t| && IsDigit(t[i]) && t[i] != '9'
    requires c == (if t[i] == '0' then '1' else Bumped(t[i]))
    ensures Magnitude(t[i := c]) == Magnitude(t) + StringHelper.Pow10(CountDigits(t[i + 1..]))
    ensures Valid(t[i := c]) && After(t[i := c]) == After(t) && Negative(t[i := c]) == Negative(t)
  {
    assert DigitValue(c) == DigitValue(t[i]) + 1;
    MagnitudeAt(t, i, c);
    Place(Magnitude(t[i := c]), Magnitude(t), DigitValue(t[i]), DigitValue(c), StringHelper.Pow10(CountDigits(t[i + 1..])));
    DigitOverDigit(t, i, c);
  }

  /**
   * The carry adds one in the place of position i: the number grows by 10
   * to the number of digits after i, the text stays accepted with as many
   * fraction digits, and the sign stays.
   */
  lemma {:induction false} CarryMeaning(t: string, i: int)
    requires Valid(t) && -1 <= i < |t| && (i < 0 ==> Lead(t) == 0)
    ensures Magnitude(Carry(t, i)) == Magnitude(t) + StringHelper.Pow10(CountDigits(t[i + 1..]))
    ensures Valid(Carry(t, i)) && After(Carry(t, i)) == After(t)
    ensures Negative(Carry(t, i)) == Negative(t)
    decreases i + 1, 1
  {
    if i < 0 {
      assert t[i + 1..] == t;
      CarryFront(t);
    } else if t[i] == '+' {
      ValidChars(t);
      assert i == 0 && Carry(t, i) == t[0 := '1'];
      CarryPlus(t);
    } else if t[i] == '-' {
      ValidChars(t);
      assert i == 0 && Carry(t, i) == "-1" + t[1..];
      CarryMinus(t);
    } else if t[i] == '.' {
      CarryPoint(t, i);
    } else if t[i] == '9' {
      CarryNine(t, i);
    } else {
      ValidChars(t);
      var c := if t[i] == '0' then '1' else Bumped(t[i]);
      assert Carry(t, i) == t[i := c];
      CarryStops(t, i, c);
    }
  }

  /** A carry passes over the point. */
  lemma {:induction false} CarryPoint(t: string, i: nat)
    requires Valid(t) && i < |t| && t[i] == '.'
    ensures Magnitude(Carry(t, i)) == Magnitude(t) + StringHelper.Pow10(CountDigits(t[i + 1..]))
    ensures Valid(Carry(t, i)) && After(Carry(t, i)) == After(t)
    ensures Negative(Carry(t, i)) == Negative(t)
    decreases i + 1, 0
  {
    PointNotFirst(t, i);
    assert Carry(t, i) == Carry(t, i - 1);
    CarryMeaning(t, i - 1);
    CountFrom(t, i);
  }

  /** A 9 becomes 0 and the carry goes on to the left. */
  lemma {:induction false} CarryNine(t: string, i: nat)
    requires Valid(t) && i < |t| && t[i] == '9'
    ensures Magnitude(Carry(t, i)) == Magnitude(t) + StringHelper.Pow10(CountDigits(t[i + 1..]))
    ensures Valid(Carry(t, i)) && After(Carry(t, i)) == After(t)
    ensures Negative(Carry(t, i)) == Negative(t)
    decreases i + 1, 0
  {
    var t' := t[i := '0'];
    assert i == 0 ==> Lead(t') == 0 by {
      DigitOverDigit(t, i, '0');
      assert i == 0 ==> Lead(t) == 0;
    }
    assert Valid(t') by {
      DigitOverDigit(t, i, '0');
    }
    var r := Carry(t', i - 1);
    assert Carry(t, i) == r;
    CarryMeaning(t', i - 1);
    NineMagnitude(t, i);
    DigitOverDigit(t, i, '0');
  }

  /** A 9 at i written as 0 takes 9 units of that place away; the place to its left is worth 10 of them. */
  lemma NineMagnitude(t: string, i: nat)
    requires i < |t| && t[i] == '9'
    ensures var p := StringHelper.Pow10(CountDigits(t[i + 1..])); var t' := t[i := '0'];
      Magnitude(t') + 9 * p == Magnitude(t) && StringHelper.Pow10(CountDigits(t'[i..])) == 10 * p
  {
    var t' := t[i := '0'];
    CountFrom(t', i);
    assert t'[i + 1..] == t[i + 1..];
    MagnitudeAt(t, i, '0');
  }

  // ---------------------------------------------------------------------------
  // What SetFromString stores

  lemma ZerosMeaning(n: nat)
    ensures Magnitude(Zeros(n)) == 0 && CountDigits(Zeros(n)) == n
    ensures Magnitude("." + Zeros(n)) == 0 && CountDigits("." + Zeros(n)) == n
  {
    CountAllDigits(Zeros(n));
    ZerosValue(n);
    MagnitudeConcat(".", Zeros(n));
  }

  lemma {:induction false} ZerosValue(n: nat)
    ensures Magnitude(Zeros(n)) == 0
  {
    if n > 0 {
      assert Zeros(n)[..n - 1] == Zeros(n - 1);
      ZerosValue(n - 1);
    }
  }

  /** An accepted text with no fraction digits has no point anywhere. */
  lemma NoPoint(t: string)
    requires Valid(t) && After(t) == 0
    ensures forall k :: 0 <= k < |t| ==> t[k] != '.'
  {
    ValidForm(t);
  }

  /** The text kept by a cut is accepted, with scale fraction digits. */
  lemma KeptForm(t: string, scale: nat)
    requires Valid(t) && After(t) > scale
    ensures Valid(Kept(t, scale)) && After(Kept(t, scale)) == scale
    ensures Negative(Kept(t, scale)) == Negative(t) && |Kept(t, scale)| > 0
  {
    ValidForm(t);
    var q := IntEnd(t);
    var r := Kept(t, scale);
    if scale == 0 {
      assert r == t[..q];
      DigitsValid(r);
    } else {
      assert r == t[..q + 1 + scale];
      PointValid(r, q);
    }
  }

  /**
   * The stored text is accepted, has exactly scale digits after the point
   * (and no point at all for scale 0), and keeps the sign.
   */
  lemma NormalizedForm(t: string, scale: nat)
    requires Valid(t)
    ensures var r := Normalized(t, scale);
      Valid(r) && After(r) == scale && Negative(r) == Negative(t)
      && (scale == 0 ==> forall k :: 0 <= k < |r| ==> r[k] != '.')
  {
    var r := Normalized(t, scale);
    if After(t) <= scale {
      PaddedForm(t, scale);
    } else {
      RoundedForm(t, scale);
    }
    if scale == 0 {
      NoPoint(r);
    }
  }

  /** Padding keeps the text accepted and brings it to scale fraction digits. */
  lemma PaddedForm(t: string, scale: nat)
    requires Valid(t) && After(t) <= scale
    ensures var r := Normalized(t, scale);
      Valid(r) && After(r) == scale && Negative(r) == Negative(t)
  {
    var r := Normalized(t, scale);
    ValidForm(t);
    assert Rounded(t, scale) == t;
    if !HasPoint(t) {
      if scale == 0 {
        assert r == t;
      } else {
        assert r == t + "." + Zeros(scale);
        PointValid(r, |t|);
      }
    } else {
      assert r == t + Zeros(scale - After(t));
      PointValid(r, IntEnd(t));
    }
  }

  /** Rounding keeps the text accepted with scale fraction digits. */
  lemma RoundedForm(t: string, scale: nat)
    requires Valid(t) && After(t) > scale
    ensures var r := Normalized(t, scale);
      Valid(r) && After(r) == scale && Negative(r) == Negative(t)
  {
    KeptForm(t, scale);
    var k := Kept(t, scale);
    assert Normalized(t, scale) == Rounded(t, scale);
    if RoundsUp(t, scale) {
      CarryMeaning(k, |k| - 1);
    }
  }

  lemma Half(d: int, p: int, m: int)
    requires 0 <= d <= 9 && 0 <= m < p
    ensures d * p + m >= 5 * p <==> d >= 5
  {
    if d >= 5 {
      assert d * p >= 5 * p;
    } else {
      assert d * p <= 4 * p;
    }
  }

  /** The digits cut off are k digits, their first the one that decides. */
  lemma CutDigits(t: string, scale: nat)
    requires Valid(t) && After(t) > scale
    ensures var tail := t[Cut(t, scale)..]; var k := After(t) - scale;
      |tail| == k && CountDigits(tail) == k && tail[0] == Dropped(t, scale)
      && forall j :: 0 <= j < k ==> IsDigit(tail[j])
  {
    ValidForm(t);
    var tail := t[Cut(t, scale)..];
    CountAllDigits(tail);
  }

  /**
   * Rounding half up: with no more fraction digits than scale the number is
   * only padded; otherwise the kept digits are the number divided by 10 to
   * the digits cut, and one is added exactly when the digits cut are at
   * least half of a unit in the last kept place.
   */
  lemma NormalizedValue(t: string, scale: nat)
    requires Valid(t)
    ensures After(t) <= scale ==>
      Magnitude(Normalized(t, scale)) == Magnitude(t) * StringHelper.Pow10(scale - After(t))
    ensures After(t) > scale ==>
      var k := After(t) - scale; var tail := t[Cut(t, scale)..];
      Magnitude(t) == Magnitude(Kept(t, scale)) * StringHelper.Pow10(k) + Magnitude(tail)
      && Magnitude(tail) < StringHelper.Pow10(k)
      && (RoundsUp(t, scale) <==> Magnitude(tail) >= 5 * StringHelper.Pow10(k - 1))
      && Magnitude(Normalized(t, scale)) == Magnitude(Kept(t, scale)) + (if RoundsUp(t, scale) then 1 else 0)
  {
    if After(t) <= scale {
      PaddedValue(t, scale);
    } else {
      RoundingValue(t, scale);
    }
  }

  /** Padding with zeros, after a point when there was none, scales the number by 10 per zero. */
  lemma PaddedValue(t: string, scale: nat)
    requires Valid(t) && After(t) <= scale
    ensures Magnitude(Normalized(t, scale)) == Magnitude(t) * StringHelper.Pow10(scale - After(t))
  {
    var n := scale - After(t);
    assert Rounded(t, scale) == t;
    ZerosMeaning(n);
    if After(t) == 0 && scale != 0 {
      assert Normalized(t, scale) == t + ("." + Zeros(n));
      MagnitudeConcat(t, "." + Zeros(n));
    } else {
      assert Normalized(t, scale) == t + Zeros(n);
      MagnitudeConcat(t, Zeros(n));
    }
  }

  lemma RoundingValue(t: string, scale: nat)
    requires Valid(t) && After(t) > scale
    ensures var k := After(t) - scale; var tail := t[Cut(t, scale)..];
      Magnitude(t) == Magnitude(Kept(t, scale)) * StringHelper.Pow10(k) + Magnitude(tail)
      && Magnitude(tail) < StringHelper.Pow10(k)
      && (RoundsUp(t, scale) <==> Magnitude(tail) >= 5 * StringHelper.Pow10(k - 1))
      && Magnitude(Normalized(t, scale)) == Magnitude(Kept(t, scale)) + (if RoundsUp(t, scale) then 1 else 0)
  {
    CutSplit(t, scale);
    CutDecides(t, scale);
    CutRounds(t, scale);
  }

  /** The number is the kept digits shifted by the digits cut, plus those. */
  lemma CutSplit(t: string, scale: nat)
    requires Valid(t) && After(t) > scale
    ensures var k := After(t) - scale; var tail := t[Cut(t, scale)..];
      Magnitude(t) == Magnitude(Kept(t, scale)) * StringHelper.Pow10(k) + Magnitude(tail)
      && Magnitude(tail) < StringHelper.Pow10(k)
  {
    var n := Cut(t, scale);
    var head, tail := t[..n], t[n..];
    CutDigits(t, scale);
    assert t == head + tail;
    MagnitudeConcat(head, tail);
    MagnitudeBound(tail);
    if scale == 0 {
      var kept := t[..n - 1];
      var point := ['.'];
      assert head == kept + point;
      assert Magnitude(point) == 0 && CountDigits(point) == 0;
      MagnitudeConcat(kept, point);
    }
  }

  /** The first digit cut is 5 or more exactly when the digits cut are at least half a unit of the last place kept. */
  lemma CutDecides(t: string, scale: nat)
    requires Valid(t) && After(t) > scale
    ensures var k := After(t) - scale; var tail := t[Cut(t, scale)..];
      RoundsUp(t, scale) <==> Magnitude(tail) >= 5 * StringHelper.Pow10(k - 1)
  {
    var k := After(t) - scale;
    var tail := t[Cut(t, scale)..];
    CutDigits(t, scale);
    var d, rest := tail[0], tail[1..];
    var first := [d];
    assert tail == first + rest;
    MagnitudeConcat(first, rest);
    assert forall j :: 0 <= j < |rest| ==> IsDigit(rest[j]) by {
      forall j | 0 <= j < |rest| ensures IsDigit(rest[j]) {
        assert rest[j] == tail[j + 1];
      }
    }
    CountAllDigits(rest);
    MagnitudeBound(rest);
    assert first[..0] == [];
    assert Magnitude(first) == DigitValue(d);
    Half(DigitValue(d), StringHelper.Pow10(k - 1), Magnitude(rest));
  }

  /** The stored number is the kept digits, plus one when they are carried into. */
  lemma CutRounds(t: string, scale: nat)
    requires Valid(t) && After(t) > scale
    ensures Magnitude(Normalized(t, scale)) == Magnitude(Kept(t, scale)) + (if RoundsUp(t, scale) then 1 else 0)
  {
    assert Normalized(t, scale) == Rounded(t, scale);
    if RoundsUp(t, scale) {
      var kept := Kept(t, scale);
      KeptForm(t, scale);
      CarryMeaning(kept, |kept| - 1);
      assert kept[|kept|..] == [];
    }
  }

  /** Worked examples of the rounding. */
  lemma RoundingExamples()
    ensures Valid("9.95") && Normalized("9.95", 1) == "10.0"
    ensures Valid("-9.5") && Normalized("-9.5", 0) == "-10"
    ensures Valid("12.345") && Normalized("12.345", 2) == "12.35"
    ensures Valid("7") && Normalized("7", 2) == "7.00"
    ensures Prefixed(".5") == "0.5" && Prefixed("-.5") == "-0.5"
  {
    NinesRound("9.95");
    HalfRounds("-9.5");
    PlainRounds("12.345");
    Padded("7");
  }

  lemma NinesRound(t: string)
    requires t == "9.95"
    ensures Valid(t) && Normalized(t, 1) == "10.0"
  {
    PointValid(t, 1);
    var k := Kept(t, 1);
    assert k == "9.9";
    assert RoundsUp(t, 1);
    assert Carry(k, 2) == Carry("9.0", 0) == Carry("0.0", -1) == "10.0";
    assert Normalized(t, 1) == Carry(k, 2);
  }

  lemma HalfRounds(t: string)
    requires t == "-9.5"
    ensures Valid(t) && Normalized(t, 0) == "-10"
  {
    PointValid(t, 2);
    assert Kept(t, 0) == "-9";
  }

  lemma PlainRounds(t: string)
    requires t == "12.345"
    ensures Valid(t) && Normalized(t, 2) == "12.35"
  {
    PointValid(t, 2);
    assert Kept(t, 2) == "12.34";
  }

  lemma Padded(t: string)
    requires t == "7"
    ensures Valid(t) && Normalized(t, 2) == "7.00"
  {
    DigitsValid(t);
  }

  /** "@1" of the message about too many digits: the input cut to 64 characters, then "..." when it was longer. */
  function Shown(s: string): string
  {
    if |s| > 64 then s[..64] + "..." else s
  }

  /** What SetFromString leaves in the field for the text s, and the messages it reports. */
  function Store(size: nat, scale: nat, c: Content, s: string): (e: Effect)
    requires FieldString.Holds(Storage, size, c)
    ensures FieldString.Holds(Storage, size, e.store)
  {
    if s == [] then Effect(FieldString.SetNull(Storage, size, c), [])
    else
      var t := Prefixed(s);
      if !Valid(t) then Effect(FieldString.SetNull(Storage, size, c), [InvalidFixedDecimal(t)])
      else
        var m := if After(t) > scale then [TooManyDecimals(Shown(s))] else [];
        var r := Normalized(t, scale);
        if |r| > size then Effect(FieldString.SetNull(Storage, size, c), m + [TooLongForFixedDecimal(r)])
        else
          var w := FieldString.SetVal(Storage, size, c, SrcLib.Widened(r));
          Effect(w.store, m + w.msgs)
  }

  /** The text that is stored, when one is: the input with its point prefixed, rounded and padded. */
  predicate Stores(size: nat, scale: nat, s: string)
  {
    s != [] && Valid(Prefixed(s)) && |Normalized(Prefixed(s), scale)| <= size
  }

  /**
   * The field is null after SetFromString exactly when the text is empty,
   * malformed or too long once normalised; otherwise it reads back as the
   * normalised text. A message is reported unless the text is empty, or is
   * stored with no fraction digits cut.
   */
  lemma StoreReadsBack(size: nat, scale: nat, c: Content, s: string)
    requires FieldString.Holds(Storage, size, c)
    ensures var e := Store(size, scale, c, s);
      (FieldString.GetNull(Storage, size, e.store) <==> !Stores(size, scale, s))
      && (Stores(size, scale, s) ==>
        FieldString.GetAsAString(Storage, size, e.store) == Got(Val(false, Normalized(Prefixed(s), scale)), []))
      && (e.msgs == [] <==> s == [] || (Stores(size, scale, s) && After(Prefixed(s)) <= scale))
  {
    if Stores(size, scale, s) {
      StoreKept(size, scale, c, s);
    }
  }

  /** An accepted text that fits is stored as narrow text, which reads back as it is. */
  lemma StoreKept(size: nat, scale: nat, c: Content, s: string)
    requires FieldString.Holds(Storage, size, c) && Stores(size, scale, s)
    ensures var e := Store(size, scale, c, s); var r := Normalized(Prefixed(s), scale);
      FieldString.GetAsAString(Storage, size, e.store) == Got(Val(false, r), [])
      && e.msgs == (if After(Prefixed(s)) > scale then [TooManyDecimals(Shown(s))] else [])
  {
    var r := Normalized(Prefixed(s), scale);
    StoredText(size, scale, c, s);
    FieldString.NarrowTextRoundTrip(Storage, size, c, r);
  }

  /** A text that is stored goes to SetVal as its normalised form, which is accepted and plain ASCII without NUL. */
  lemma StoredText(size: nat, scale: nat, c: Content, s: string)
    requires FieldString.Holds(Storage, size, c) && Stores(size, scale, s)
    ensures var r := Normalized(Prefixed(s), scale); var f := FieldString.SetFromString(Storage, size, c, Narrow(r));
      SrcLib.NoNul(r) && (forall i :: 0 <= i < |r| ==> r[i] as int < 256)
      && Store(size, scale, c, s) == Effect(f.store, (if After(Prefixed(s)) > scale then [TooManyDecimals(Shown(s))] else []) + f.msgs)
  {
    var t := Prefixed(s);
    var r := Normalized(t, scale);
    NormalizedForm(t, scale);
    ValidChars(r);
    var f := FieldString.SetFromString(Storage, size, c, Narrow(r));
    var w := FieldString.SetVal(Storage, size, c, SrcLib.Widened(r));
    assert f.store == w.store && f.msgs == w.msgs;
  }

  /** The text the w-string setter hands on as written: the old scratch text when the input is empty or starts with NUL. */
  function WideTextAsWritten(temp: string, w: seq<u16>): string
  {
    if SrcLib.WAt(w, 0) == 0 then temp else SrcLib.Narrowed(w)
  }

  /** The text it evidently means to hand on: the input narrowed, nothing for an empty one. */
  function WideText(w: seq<u16>): (s: string)
    ensures w == [] ==> s == []
    ensures SrcLib.WAt(w, 0) != 0 ==> s == SrcLib.Narrowed(w)
  {
    if SrcLib.WAt(w, 0) == 0 then [] else SrcLib.Narrowed(w)
  }

  /**
   * An empty w-string stores, as written, whatever the field last worked
   * on, so a field set to 1.5 and then to an empty w-string holds 1.5
   * again; as intended it becomes null.
   */
  lemma StaleTextAsWritten(size: nat, scale: nat, c: Content, temp: string)
    requires FieldString.Holds(Storage, size, c) && Stores(size, scale, temp)
    ensures !FieldString.GetNull(Storage, size, Store(size, scale, c, WideTextAsWritten(temp, [])).store)
    ensures FieldString.GetNull(Storage, size, Store(size, scale, c, WideText([])).store)
  {
    StoreReadsBack(size, scale, c, temp);
    StoreReadsBack(size, scale, c, []);
  }

  /** The text of an Int64 is accepted with no fraction digits, so it is stored padded with a point and scale zeros. */
  lemma IntTextForm(v: int, scale: nat)
    requires StringHelper.MinOf(StringHelper.W64) <= v <= StringHelper.MaxOf(StringHelper.W64)
    ensures var t := StringHelper.IntText(v, StringHelper.W64, 10);
      Prefixed(t) == t && Valid(t) && After(t) == 0 && (Negative(t) <==> v < 0)
      && Normalized(t, scale) == t + (if scale != 0 then "." else "") + Zeros(scale)
  {
    var t := StringHelper.IntText(v, StringHelper.W64, 10);
    IntTextValid(v);
    assert Rounded(t, scale) == t;
  }

  /** The decimal text of an Int64: a minus for a negative one, then digits. */
  lemma IntTextValid(v: int)
    requires StringHelper.MinOf(StringHelper.W64) <= v <= StringHelper.MaxOf(StringHelper.W64)
    ensures var t := StringHelper.IntText(v, StringHelper.W64, 10);
      Prefixed(t) == t && Valid(t) && After(t) == 0 && (Negative(t) <==> v < 0)
  {
    var t := StringHelper.IntText(v, StringHelper.W64, 10);
    StringHelper.DecimalAscii(v, StringHelper.W64);
    if v < 0 {
      var d := StringHelper.Digits(-v, 10);
      assert t == "-" + d;
      assert t[0] == '-' && |t| > 1;
    } else {
      StringHelper.DecimalDigits(v);
      assert t == StringHelper.Digits(v, 10);
      assert IsDigit(t[0]);
    }
    DigitsValid(t);
  }

  /** What SetFromInt64 leaves in the field: its text when it can fit, through SetFromString; null with a message otherwise. */
  function StoreInt(size: nat, scale: nat, c: Content, v: int): (e: Effect)
    requires FieldString.Holds(Storage, size, c)
    requires StringHelper.MinOf(StringHelper.W64) <= v <= StringHelper.MaxOf(StringHelper.W64)
  {
    var t := StringHelper.IntText(v, StringHelper.W64, 10);
    if |t| > size then Effect(FieldString.SetNull(Storage, size, c), [NotInFixedDecimal(t, size, scale)])
    else Store(size, scale, c, t)
  }

  /** An Int64 whose text fits with its padding reads back as that text, without a message. */
  lemma IntReadsBack(size: nat, scale: nat, c: Content, v: int)
    requires FieldString.Holds(Storage, size, c)
    requires StringHelper.MinOf(StringHelper.W64) <= v <= StringHelper.MaxOf(StringHelper.W64)
    requires |StringHelper.IntText(v, StringHelper.W64, 10)| + (if scale != 0 then 1 + scale else 0) <= size
    ensures var t := StringHelper.IntText(v, StringHelper.W64, 10); var e := StoreInt(size, scale, c, v);
      e.msgs == [] &&
      FieldString.GetAsAString(Storage, size, e.store) == Got(Val(false, t + (if scale != 0 then "." else "") + Zeros(scale)), [])
  {
    var t := StringHelper.IntText(v, StringHelper.W64, 10);
    IntTextForm(v, scale);
    StoreReadsBack(size, scale, c, t);
  }

  /**
   * The text "%.*f" prints for a whole number with scale fraction digits:
   * its decimal digits, then a point and scale zeros unless scale is 0. The
   * scratch buffer holds 512 characters with the NUL, so a longer text keeps
   * its first 511.
   */
  function WholeText(n: int, scale: nat): (t: string)
    requires StringHelper.MinOf(StringHelper.W64) <= n <= StringHelper.MaxOf(StringHelper.W64)
    ensures |t| < 512
  {
    var full := StringHelper.IntText(n, StringHelper.W64, 10) + (if scale != 0 then "." else "") + Zeros(scale);
    if |full| < 512 then full else full[..511]
  }

  /**
   * SetFromDouble of a whole number, the path of SetFromInt32 and
   * SetFromBool: the printed text, null with a message when it is longer
   * than the field, otherwise stored as it is without going through the
   * checks of SetFromString.
   */
  function StoreWhole(size: nat, scale: nat, c: Content, n: int): (e: Effect)
    requires FieldString.Holds(Storage, size, c)
    requires StringHelper.MinOf(StringHelper.W64) <= n <= StringHelper.MaxOf(StringHelper.W64)
    ensures FieldString.Holds(Storage, size, e.store)
  {
    var t := WholeText(n, scale);
    if |t| > size then Effect(FieldString.SetNull(Storage, size, c), [NotInFixedDecimal(t, size, scale)])
    else FieldString.SetVal(Storage, size, c, SrcLib.Widened(t))
  }

  /**
   * A whole number stored through the double path is stored exactly as
   * SetFromInt64 stores it whenever its padded text fits; when it does not,
   * both make the field null, the double path quoting the padded text.
   */
  lemma WholeAgreesWithInt(size: nat, scale: nat, c: Content, n: int)
    requires FieldString.Holds(Storage, size, c)
    requires StringHelper.MinOf(StringHelper.W64) <= n <= StringHelper.MaxOf(StringHelper.W64)
    ensures var t := StringHelper.IntText(n, StringHelper.W64, 10); var p := t + (if scale != 0 then "." else "") + Zeros(scale);
      (|p| <= size && |p| < 512 ==>
        (StoreWhole(size, scale, c, n) == StoreInt(size, scale, c, n)
        && StoreWhole(size, scale, c, n).msgs == []
        && FieldString.GetAsAString(Storage, size, StoreWhole(size, scale, c, n).store) == Got(Val(false, p), [])))
      && (size < |p| < 512 ==>
        (StoreWhole(size, scale, c, n).msgs == [NotInFixedDecimal(p, size, scale)]
        && FieldString.GetNull(Storage, size, StoreWhole(size, scale, c, n).store)
        && FieldString.GetNull(Storage, size, StoreInt(size, scale, c, n).store)))
  {
    var t := StringHelper.IntText(n, StringHelper.W64, 10);
    var p := t + (if scale != 0 then "." else "") + Zeros(scale);
    assert WholeText(n, scale) == p || |p| >= 512;
    IntTextForm(n, scale);
    StoreReadsBack(size, scale, c, t);
    if |p| <= size && |p| < 512 {
      IntReadsBack(size, scale, c, n);
      StoredWhole(size, scale, c, n);
    }
  }

  /** A padded text that fits is stored by StoreWhole and by SetFromString alike. */
  lemma StoredWhole(size: nat, scale: nat, c: Content, n: int)
    requires FieldString.Holds(Storage, size, c)
    requires StringHelper.MinOf(StringHelper.W64) <= n <= StringHelper.MaxOf(StringHelper.W64)
    requires var t := StringHelper.IntText(n, StringHelper.W64, 10);
      |t + (if scale != 0 then "." else "") + Zeros(scale)| <= size
      && |t + (if scale != 0 then "." else "") + Zeros(scale)| < 512
    ensures StoreWhole(size, scale, c, n) == StoreInt(size, scale, c, n)
  {
    var t := StringHelper.IntText(n, StringHelper.W64, 10);
    IntTextForm(n, scale);
    assert Store(size, scale, c, t) == FieldString.SetVal(Storage, size, c, SrcLib.Widened(Normalized(t, scale)));
  }

  /** A byte is a digit 1 to 9. */
  predicate AnyNonZero(u: seq<int>)
  {
    exists x :: 0 <= x < |u| && '1' as int <= u[x] <= '9' as int
  }

  /** An accepted text that needs no rounding and fits is written into the record as it is, without a message. */
  lemma StoredFixed(size: nat, scale: nat, c: Content, s: string)
    requires FieldString.Holds(Storage, size, c) && Stores(size, scale, s) && After(Prefixed(s)) <= scale
    ensures Store(size, scale, c, s)
      == Effect(Bytes(FieldString.WriteFixed(Storage, size, c.b, SrcLib.Widened(Normalized(Prefixed(s), scale)))), [])
  {
  }

  /** Fewer units than the field holds are written byte for byte from the start. */
  lemma WrittenAt(size: nat, b: seq<byte>, u: seq<u16>, i: nat)
    requires |b| == size + 1 && |u| < size && i < |u| && FieldString.UnitsFit(u, false)
    ensures FieldString.WriteFixed(Storage, size, b, u)[i] == u[i]
  {
    var wr := u + [0];
    assert FieldString.UnitsFit(wr, false);
    FieldString.DecodeEncode(wr, false);
    var r := FieldString.WriteFixed(Storage, size, b, u);
    assert r[..|wr|] == FieldString.EncodeUnits(wr, false);
    assert r[i] == r[..|wr|][i];
  }

  /** The bytes after the NUL that ends the units are the field's old ones. */
  lemma WrittenPast(size: nat, b: seq<byte>, u: seq<u16>, i: nat)
    requires |b| == size + 1 && |u| < size && |u| < i < size
    ensures FieldString.WriteFixed(Storage, size, b, u)[i] == b[i]
  {
    var n := |u| + 1;
    var r := FieldString.WriteFixed(Storage, size, b, u);
    assert r[n..size] == b[n..size];
    assert r[i] == r[n..size][i - n];
  }

  lemma FirstText(s1: string)
    requires s1 == "123.5"
    ensures Stores(6, 1, s1) && After(Prefixed(s1)) == 1 && Normalized(Prefixed(s1), 1) == s1
    ensures SrcLib.Widened(s1)[4] == 53
  {
    PointValid(s1, 3);
  }

  lemma ZeroText(s2: string)
    requires s2 == "0.0"
    ensures Stores(6, 1, s2) && After(Prefixed(s2)) == 1 && Normalized(Prefixed(s2), 1) == s2
    ensures SrcLib.Widened(s2) == [48, 46, 48]
  {
    PointValid(s2, 1);
  }

  /**
   * GetAsBool as written looks at all size bytes of the field, past the
   * NUL that ends the value: a field of size 6 that held 123.5 and then
   * 0.0 still has the 5 of the old text after the NUL, and reads as true.
   */
  lemma StaleDigitsAsWritten(c0: Content, s1: string, s2: string)
    requires FieldString.Holds(Storage, 6, c0) && s1 == "123.5" && s2 == "0.0"
    ensures var c1 := Store(6, 1, c0, s1).store; var c2 := Store(6, 1, c1, s2).store;
      FieldString.Holds(Storage, 6, c2)
      && FieldString.GetAsAString(Storage, 6, c2) == Got(Val(false, s2), [])
      && AnyNonZero(FieldString.GetAsBlob(Storage, 6, c2).value)
      && !AnyNonZero(FieldString.GetVal(Storage, 6, c2).value)
  {
    StaleFirst(c0, s1);
    var c1 := Store(6, 1, c0, s1).store;
    StaleSecond(c1, s2);
  }

  /** "123.5" is written as it is, its 5 at index 4. */
  lemma StaleFirst(c0: Content, s1: string)
    requires FieldString.Holds(Storage, 6, c0) && s1 == "123.5"
    ensures var c1 := Store(6, 1, c0, s1).store; FieldString.Holds(Storage, 6, c1) && !c1.Slot? && c1.b[4] == 53
  {
    FirstText(s1);
    StoredFixed(6, 1, c0, s1);
    WrittenAt(6, c0.b, SrcLib.Widened(s1), 4);
  }

  /** "0.0" over a record whose index 4 holds a 5 reads back as "0.0", and the 5 stays behind the NUL. */
  lemma StaleSecond(c1: Content, s2: string)
    requires FieldString.Holds(Storage, 6, c1) && !c1.Slot? && c1.b[4] == 53 && s2 == "0.0"
    ensures var c2 := Store(6, 1, c1, s2).store;
      FieldString.Holds(Storage, 6, c2)
      && FieldString.GetAsAString(Storage, 6, c2) == Got(Val(false, s2), [])
      && AnyNonZero(FieldString.GetAsBlob(Storage, 6, c2).value)
      && !AnyNonZero(FieldString.GetVal(Storage, 6, c2).value)
  {
    ZeroText(s2);
    StoredFixed(6, 1, c1, s2);
    StoreKept(6, 1, c1, s2);
    StaleBehind(c1.b, SrcLib.Widened(s2));
  }

  /** Writing "0.0" into six bytes leaves the byte at index 4 as it was, where GetVal does not look. */
  lemma StaleBehind(b: seq<byte>, u: seq<u16>)
    requires |b| == 7 && b[4] == 53 && u == [48, 46, 48]
    ensures var c := Bytes(FieldString.WriteFixed(Storage, 6, b, u));
      FieldString.Holds(Storage, 6, c)
      && AnyNonZero(FieldString.GetAsBlob(Storage, 6, c).value)
      && !AnyNonZero(FieldString.GetVal(Storage, 6, c).value)
  {
    var c := Bytes(FieldString.WriteFixed(Storage, 6, b, u));
    WrittenPast(6, b, u, 4);
    var blob := FieldString.GetAsBlob(Storage, 6, c).value;
    assert blob[4] == 53;
    FieldString.SetThenGet(Storage, 6, Bytes(b), u);
    FieldString.CUnitsWhole(u);
    assert u[..FieldString.Min(6, |u|)] == u;
  }

  // ---------------------------------------------------------------------------
  // The field

  /** The scan of SetFromString over the text it has prefixed: whether it is accepted, and its fraction digits. */
  method CheckForm(t: string) returns (valid: bool, after: nat)
    ensures valid == Valid(t)
    ensures valid ==> after == After(t)
  {
    var p: nat := 0;
    if StringHelper.At(t, 0) == '+' || StringHelper.At(t, 0) == '-' {
      p := 1;
    }
    var invalid := !IsDigit(StringHelper.At(t, p));
    after := 0;
    if !invalid {
      while p < |t| && IsDigit(t[p])
        invariant Lead(t) <= p <= IntEnd(t)
        decreases |t| - p
      {
        p := p + 1;
      }
      if StringHelper.At(t, p) == '.' {
        p := p + 1;
        invalid := p == |t|;
        while p < |t| && IsDigit(t[p])
          invariant IntEnd(t) + 1 <= p <= FracEnd(t) && after == p - IntEnd(t) - 1
          decreases |t| - p
        {
          after := after + 1;
          p := p + 1;
        }
      }
    }
    valid := p == |t| && !invalid;
  }

  /** The carry loop of the rounding, leftwards from position i. */
  method RoundUp(t: string, i: int) returns (r: string)
    requires -1 <= i < |t|
    ensures r == Carry(t, i)
  {
    r := t;
    var d := i;
    while true
      invariant -1 <= d < |r| && Carry(r, d) == Carry(t, i)
      decreases d + 1
    {
      if d < 0 {
        r := "1" + r;
        return;
      }
      if r[d] == '+' {
        r := r[d := '1'];
        return;
      } else if r[d] == '-' {
        r := "-1" + r[d + 1..];
        return;
      } else if r[d] == '.' {
        d := d - 1;
      } else if r[d] == '9' {
        r := r[d := '0'];
        d := d - 1;
      } else if r[d] == '0' {
        r := r[d := '1'];
        return;
      } else {
        r := r[d := Bumped(r[d])];
        return;
      }
    }
  }

  /** The cut to scale fraction digits and the carry, as SetFromString does them. */
  method RoundTo(t: string, scale: nat, after: nat) returns (r: string)
    requires Valid(t) && after == After(t)
    ensures r == Rounded(t, scale)
  {
    r := t;
    if after > scale {
      var newLen := |r| - (after - scale);
      var dropped := r[newLen];
      if scale == 0 {
        newLen := newLen - 1;
      }
      r := r[..newLen];
      assert r == Kept(t, scale) && dropped == Dropped(t, scale);
      if '5' <= dropped <= '9' {
        KeptForm(t, scale);
        r := RoundUp(r, newLen - 1);
      }
    }
  }

  /** The point and the zeros SetFromString appends to reach scale fraction digits. */
  method PadTo(r: string, t: string, scale: nat, after: nat) returns (p: string)
    requires Valid(t) && after == After(t) && r == Rounded(t, scale)
    ensures p == Normalized(t, scale)
  {
    p := r;
    if after == 0 && scale != 0 {
      p := p + ".";
    }
    var point := if after == 0 && scale != 0 then "." else "";
    var n := after;
    while n < scale
      invariant after <= n && (n <= scale || n == after)
      invariant p == r + point + Zeros(n - after)
    {
      assert Zeros(n + 1 - after) == Zeros(n - after) + "0";
      p := p + "0";
      n := n + 1;
    }
    assert Zeros(n - after) == Zeros(if after < scale then scale - after else 0);
  }

  /** The scratch text SetFromString leaves behind: the prefixed input, normalised when it was accepted. */
  function Worked(s: string, scale: nat): string
    requires s != []
  {
    var t := Prefixed(s);
    if Valid(t) then Normalized(t, scale) else t
  }

  /**
   * The scratch text the UTF-16 setter leaves behind as written: the input
   * narrowed into it, or what it held when the input is empty, and then as
   * SetFromString leaves it.
   */
  function WideScratch(temp: string, w: seq<u16>, scale: nat): string
  {
    var t := WideTextAsWritten(temp, w);
    if t == [] then temp else Worked(t, scale)
  }

  /** The scratch text SetFromInt64 leaves: the decimal text, normalised when it fits the field. */
  function IntScratch(v: int, size: nat, scale: nat): string
    requires StringHelper.MinOf(StringHelper.W64) <= v <= StringHelper.MaxOf(StringHelper.W64)
  {
    var t := StringHelper.IntText(v, StringHelper.W64, 10);
    if |t| > size || t == [] then t else Worked(t, scale)
  }

  /** Field_FixedDecimal: a size, a scale, and the scratch text its setters work on, kept from call to call. */
  class FixedDecimalField {
    const size: nat
    const scale: nat
    var temp: string

    constructor(size: nat, scale: nat)
      ensures this.size == size && this.scale == scale && temp == []
    {
      this.size := size;
      this.scale := scale;
      temp := [];
    }

    /** SetFromString of narrow text: what Store says, the scratch text left as Worked says. */
    method SetFromString(c: Content, s: string) returns (e: Effect)
      requires FieldString.Holds(Storage, size, c)
      modifies this
      ensures e == Store(size, scale, c, s)
      ensures temp == (if s == [] then old(temp) else Worked(s, scale))
    {
      if |s| == 0 {
        e := Effect(FieldString.SetNull(Storage, size, c), []);
        return;
      }
      temp := s;
      if temp[0] == '.' {
        temp := "0" + temp;
      } else if temp[0] == '-' && StringHelper.At(temp, 1) == '.' {
        temp := "-0" + temp[1..];
      }
      var t := temp;
      var valid, after := CheckForm(t);
      if !valid {
        e := Effect(FieldString.SetNull(Storage, size, c), [InvalidFixedDecimal(t)]);
        return;
      }
      var msgs: seq<Msg> := [];
      if after > scale {
        msgs := [TooManyDecimals(Shown(s))];
      }
      temp := RoundTo(t, scale, after);
      temp := PadTo(temp, t, scale, after);
      assert temp == Normalized(t, scale);
      if |temp| > size {
        e := Effect(FieldString.SetNull(Storage, size, c), msgs + [TooLongForFixedDecimal(temp)]);
        return;
      }
      var w := FieldString.SetVal(Storage, size, c, SrcLib.Widened(temp));
      e := Effect(w.store, msgs + w.msgs);
    }

    /** SetFromString of UTF-16 text as written: narrowed into the scratch text, which an empty input leaves as it was. */
    method SetFromWStringAsWritten(c: Content, w: seq<u16>) returns (e: Effect)
      requires FieldString.Holds(Storage, size, c)
      modifies this
      ensures e == Store(size, scale, c, WideTextAsWritten(old(temp), w))
      ensures temp == WideScratch(old(temp), w, scale)
    {
      temp := SrcLib.NarrowString(temp, Some(w), |w|);
      assert w[..|w|] == w;
      e := SetFromString(c, temp);
    }

    /** SetFromString of UTF-16 text with the scratch text cleared first, so an empty input makes the field null. */
    method SetFromWString(c: Content, w: seq<u16>) returns (e: Effect)
      requires FieldString.Holds(Storage, size, c)
      modifies this
      ensures e == Store(size, scale, c, WideText(w))
      ensures temp == WideScratch([], w, scale)
    {
      temp := SrcLib.NarrowString([], Some(w), |w|);
      assert w[..|w|] == w;
      e := SetFromString(c, temp);
    }

    /** SetFromInt64: the decimal text, null with a message when it is longer than the field, otherwise SetFromString of it. */
    method SetFromInt64(c: Content, v: int) returns (e: Effect)
      requires FieldString.Holds(Storage, size, c)
      requires StringHelper.MinOf(StringHelper.W64) <= v <= StringHelper.MaxOf(StringHelper.W64)
      modifies this
      ensures e == StoreInt(size, scale, c, v) && temp == IntScratch(v, size, scale)
    {
      temp := StringHelper.IntText(v, StringHelper.W64, 10);
      if |temp| > size {
        e := Effect(FieldString.SetNull(Storage, size, c), [NotInFixedDecimal(temp, size, scale)]);
        return;
      }
      e := SetFromString(c, temp);
    }

    /** SetFromInt32: SetFromDouble of the value, which prints it with scale fraction digits. */
    method SetFromInt32(c: Content, n: int) returns (e: Effect)
      requires FieldString.Holds(Storage, size, c)
      requires StringHelper.MinOf(StringHelper.W32) <= n <= StringHelper.MaxOf(StringHelper.W32)
      modifies this
      ensures e == StoreWhole(size, scale, c, n) && temp == WholeText(n, scale)
    {
      temp := WholeText(n, scale);
      if |temp| > size {
        e := Effect(FieldString.SetNull(Storage, size, c), [NotInFixedDecimal(temp, size, scale)]);
        return;
      }
      e := FieldString.SetVal(Storage, size, c, SrcLib.Widened(temp));
    }

    /** SetFromBool: SetFromDouble of 1 or 0. */
    method SetFromBool(c: Content, x: bool) returns (e: Effect)
      requires FieldString.Holds(Storage, size, c)
      modifies this
      ensures e == StoreWhole(size, scale, c, if x then 1 else 0)
    {
      e := SetFromInt32(c, if x then 1 else 0);
    }

    /** GetAsBool as written: true when any of the field's size bytes is a digit 1 to 9. */
    method GetAsBoolAsWritten(c: Content) returns (v: Val<bool>)
      requires FieldString.Holds(Storage, size, c)
      ensures v.isNull == FieldString.GetNull(Storage, size, c)
      ensures v.value == (!v.isNull && AnyNonZero(FieldString.GetAsBlob(Storage, size, c).value))
    {
      var blob := FieldString.GetAsBlob(Storage, size, c);
      if blob.isNull {
        return Val(true, false);
      }
      var b := blob.value;
      for x := 0 to |b|
        invariant !AnyNonZero(b[..x])
      {
        if '1' as int <= b[x] <= '9' as int {
          assert b[..x + 1][x] == b[x];
          return Val(false, true);
        }
        assert b[..x + 1] == b[..x] + [b[x]];
      }
      assert b[..|b|] == b;
      return Val(false, false);
    }

    /** GetAsBool as intended: true when a digit 1 to 9 is among the characters of the value. */
    method GetAsBool(c: Content) returns (v: Val<bool>)
      requires FieldString.Holds(Storage, size, c)
      ensures v.isNull == FieldString.GetNull(Storage, size, c)
      ensures v.value == (!v.isNull && AnyNonZero(FieldString.GetVal(Storage, size, c).value))
    {
      var val := FieldString.GetVal(Storage, size, c);
      if val.isNull {
        return Val(true, false);
      }
      var u := val.value;
      for x := 0 to |u|
        invariant !AnyNonZero(u[..x])
      {
        if '1' as int <= u[x] <= '9' as int {
          assert u[..x + 1][x] == u[x];
          return Val(false, true);
        }
        assert u[..x + 1] == u[..x] + [u[x]];
      }
      assert u[..|u|] == u;
      return Val(false, false);
    }
  }

  /** What SetFromBlob throws. */
  const SetFromBlobError: string := "Internal Error in Field_FixedDecimal::SetFromBlob: Not supported."
}
