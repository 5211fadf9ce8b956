// Integer parsing (TstrtoNum, the strtol of the library) and formatting
// (utowcs / itowcs, its itoa) over NUL-terminated character buffers.

module StringHelper {
  import opened Wrappers

  const EINVAL: int := 22

  /** The two integer widths ValT is instantiated with. */
  datatype IntWidth = W32 | W64

  /** The magnitude of the most negative value; the most positive is one less. */
  function Lim(w: IntWidth): int
  {
    if w == W32 then 0x8000_0000 else 0x8000_0000_0000_0000
  }

  function MaxOf(w: IntWidth): int { Lim(w) - 1 }
  function MinOf(w: IntWidth): int { -Lim(w) }

  /** The character at index i of a NUL-terminated string; NUL at and beyond its end. */
  function At(s: string, i: nat): char
  {
    if i < |s| then s[i] else '\0'
  }

  /** The white-space class of the C locale. */
  predicate IsSpace(c: char)
  {
    c == ' ' || c == '\t' || c == '\n' || c == '\U{000B}' || c == '\U{000C}' || c == '\r'
  }

  /**
   * Characters skipped before the number. The narrow instantiation also skips
   * U+00A0; the UTF-16 one compares a 16-bit unit with the sign-extended char
   * '\240', so it never matches.
   */
  predicate IsSkipped(c: char, wide: bool)
  {
    IsSpace(c) || (!wide && c == '\U{00A0}')
  }

  /** The digit table: 0-9, then a-z and A-Z as 10..35; 99 for everything else. */
  function CharVal(c: char): nat
  {
    if '0' <= c <= '9' then c as int - '0' as int
    else if 'a' <= c <= 'z' then c as int - 'a' as int + 10
    else if 'A' <= c <= 'Z' then c as int - 'A' as int + 10
    else 99
  }

  predicate IsDigitIn(c: char, base: int) { CharVal(c) < base }

  /** The value of the digits t in the given base, most significant first (meaningful when all are digits of the base). */
  function Value(t: string, base: nat): nat
  {
    if |t| == 0 then 0 else Value(t[..|t| - 1], base) * base + CharVal(t[|t| - 1])
  }

  /** The first index from i on whose character is not skipped. */
  function SkipSpace(s: string, i: nat, wide: bool): (j: nat)
    requires i <= |s|
    ensures i <= j <= |s| && !IsSkipped(At(s, j), wide)
    ensures forall k :: i <= k < j ==> IsSkipped(s[k], wide)
    decreases |s| - i
  {
    if IsSkipped(At(s, i), wide) then SkipSpace(s, i + 1, wide) else i
  }

  /** Sign, start of the digits and effective base after the white space, sign and base prefix. */
  datatype Prefix = Prefix(neg: bool, start: nat, base: int)

  function ParsePrefix(s: string, base: int, wide: bool): (p: Prefix)
    ensures p.start <= |s|
  {
    var i0 := SkipSpace(s, 0, wide);
    var neg := At(s, i0) == '-';
    var i1 := if At(s, i0) == '-' || At(s, i0) == '+' then i0 + 1 else i0;
    if (base == 0 || base == 16) && At(s, i1) == '0' && (At(s, i1 + 1) == 'x' || At(s, i1 + 1) == 'X') then
      Prefix(neg, i1 + 2, 16)
    else if (base == 0 || base == 8) && At(s, i1) == '0' then Prefix(neg, i1 + 1, 8)
    else if base == 0 then Prefix(neg, i1, 10)
    else Prefix(neg, i1, base)
  }

  /** Where the digit loop stops and with what magnitude: broke means the next digit would pass L. */
  datatype ScanResult = ScanResult(v: int, end: nat, broke: bool)

  function Scan(s: string, i: nat, base: int, L: int, v: int): (r: ScanResult)
    requires 2 <= base <= 36 && i <= |s| && 0 <= v <= L
    ensures i <= r.end <= |s| && 0 <= r.v <= L
    decreases |s| - i
  {
    if i == |s| || !IsDigitIn(s[i], base) then ScanResult(v, i, false)
    else if v * base + CharVal(s[i]) > L then ScanResult(v, i, true)
    else Scan(s, i + 1, base, L, v * base + CharVal(s[i]))
  }

  /** What TstrtoNum returns, where endptr then points (None: left untouched), and whether it set ERANGE. */
  datatype Parsed = Parsed(value: int, end: Option<nat>, erange: bool)

  /**
   * The final step of the source as written: an overflow sets the accumulator
   * to MAX, which a positive number then negates and a negative one keeps.
   */
  function FinishAsWritten(neg: bool, r: ScanResult, w: IntWidth): Parsed
  {
    var ret := if r.broke then MaxOf(w) else -r.v;
    if neg then Parsed(ret, Some(r.end), r.broke)
    else if ret < -MaxOf(w) then Parsed(MaxOf(w), Some(r.end), true)
    else Parsed(-ret, Some(r.end), r.broke)
  }

  /** The corrected final step: an overflow saturates to MIN or MAX by the sign, as strtol does. */
  function Finish(neg: bool, r: ScanResult, w: IntWidth): Parsed
  {
    if r.broke then Parsed(if neg then MinOf(w) else MaxOf(w), Some(r.end), true)
    else if neg then Parsed(-r.v, Some(r.end), false)
    else if r.v > MaxOf(w) then Parsed(MaxOf(w), Some(r.end), true)
    else Parsed(r.v, Some(r.end), false)
  }

  function StrToNumAsWritten(s: string, base: int, w: IntWidth, wide: bool): Parsed
  {
    var p := ParsePrefix(s, base, wide);
    if p.base < 2 || 36 < p.base then Parsed(0, None, true)
    else FinishAsWritten(p.neg, Scan(s, p.start, p.base, Lim(w), 0), w)
  }

  function StrToNum(s: string, base: int, w: IntWidth, wide: bool): Parsed
  {
    var p := ParsePrefix(s, base, wide);
    if p.base < 2 || 36 < p.base then Parsed(0, None, true)
    else Finish(p.neg, Scan(s, p.start, p.base, Lim(w), 0), w)
  }

  /** The digit loop stops before a digit that would take the magnitude past the width's limit. */
  predicate Overflows(s: string, base: int, w: IntWidth, wide: bool)
  {
    var p := ParsePrefix(s, base, wide);
    2 <= p.base <= 36 && Scan(s, p.start, p.base, Lim(w), 0).broke
  }

  /**
   * The parse as written and as corrected agree exactly when the digit loop
   * does not overflow; on an overflow the one as written returns MAX for a
   * negative number and -MAX for a positive one.
   */
  lemma AsWrittenAgrees(s: string, base: int, w: IntWidth, wide: bool)
    ensures StrToNumAsWritten(s, base, w, wide) == StrToNum(s, base, w, wide) <==> !Overflows(s, base, w, wide)
    ensures !StrToNum(s, base, w, wide).erange ==> StrToNumAsWritten(s, base, w, wide) == StrToNum(s, base, w, wide)
    ensures Overflows(s, base, w, wide) ==>
      StrToNumAsWritten(s, base, w, wide).value == (if ParsePrefix(s, base, wide).neg then MaxOf(w) else -MaxOf(w))
      && StrToNumAsWritten(s, base, w, wide).erange
  {
    var p := ParsePrefix(s, base, wide);
    if Overflows(s, base, w, wide) {
      assert MaxOf(w) != MinOf(w) && MaxOf(w) != -MaxOf(w);
    }
  }

  /** The value lies in the width's range, whatever the text, as written and as corrected. */
  lemma StrToNumInRange(s: string, base: int, w: IntWidth, wide: bool)
    ensures MinOf(w) <= StrToNum(s, base, w, wide).value <= MaxOf(w)
    ensures MinOf(w) <= StrToNumAsWritten(s, base, w, wide).value <= MaxOf(w)
  {
  }

  /** A digit of the effective base follows the white space, sign and base prefix. */
  predicate HasNumber(s: string, base: int, wide: bool)
  {
    var p := ParsePrefix(s, base, wide);
    IsDigitIn(At(s, p.start), p.base)
  }

  /** Where TstrtoNum leaves endptr: after the digits, or after the white space, sign and prefix when there are none. */
  function EndPtrAsWritten(s: string, base: int, w: IntWidth, wide: bool): nat
  {
    var p := StrToNumAsWritten(s, base, w, wide);
    if p.end.Some? then p.end.value else 0
  }

  /** strtol's convention, which the callers test for: endptr back at the start when no digit was read. */
  function EndPtr(s: string, base: int, w: IntWidth, wide: bool): nat
  {
    if HasNumber(s, base, wide) then EndPtrAsWritten(s, base, w, wide) else 0
  }

  /** With a digit to read, the parse ends past the start of the text. */
  lemma EndPtrAdvances(s: string, base: int, w: IntWidth, wide: bool)
    requires base == 10 || base == 16
    ensures HasNumber(s, base, wide) ==> EndPtr(s, base, w, wide) > 0
  {
    var pre := ParsePrefix(s, base, wide);
    assert pre.base == base;
  }

  lemma {:induction false} MulMono(x: int, y: int, b: int)
    requires 0 <= x <= y && 0 <= b
    ensures x * b <= y * b && b * x <= b * y
  {
    assert y * b - x * b == (y - x) * b;
  }

  /** The source's overflow test on the negative accumulator, with C's truncating division. */
  lemma {:induction false} OverflowTest(v: int, d: int, base: int, L: int)
    requires 2 <= base && 0 <= d < base && 0 <= v <= L
    ensures var lim := -(L / base); var limDigit := base * lim + L;
      (-v <= lim && (-v < lim || d > limDigit)) <==> v * base + d > L
  {
    var q, m := L / base, L % base;
    assert L == base * q + m && 0 <= m < base;
    assert base * -q + L == m;
    OverflowCases(v, d, base, q, m, L);
  }

  /** OverflowTest with the quotient and remainder named. */
  lemma {:induction false} OverflowCases(v: int, d: int, base: int, q: int, m: int, L: int)
    requires 2 <= base && 0 <= d < base && 0 <= v && 0 <= q && L == base * q + m && 0 <= m < base
    ensures (-v <= -q && (-v < -q || d > m)) <==> v * base + d > L
  {
    if v > q {
      MulMono(q + 1, v, base);
      assert (q + 1) * base == base * q + base;
    } else if v < q {
      MulMono(v, q - 1, base);
      assert (q - 1) * base == base * q - base;
    } else {
      assert v * base == base * q;
    }
  }

  lemma {:induction false} ScanAfterSkip(s: string, i0: nat, i: nat, base: int, L: int, v: int)
    requires 2 <= base <= 36 && i0 <= i <= |s| && 0 <= v <= L
    requires i < |s| && IsDigitIn(s[i], base) && v * base + CharVal(s[i]) <= L
    ensures Scan(s, i, base, L, v) == Scan(s, i + 1, base, L, v * base + CharVal(s[i]))
  {
  }

  lemma {:induction false} NegStep(ret: int, b: int, d: int)
    ensures ret * b - d == -((-ret) * b + d)
  {
  }

  /** Lines 44-69: white space, sign and base prefix. */
  method SkipPrefix(s: string, base: int, wide: bool) returns (neg: bool, i: nat, b: int)
    ensures Prefix(neg, i, b) == ParsePrefix(s, base, wide)
  {
    i := 0;
    while IsSkipped(At(s, i), wide)
      invariant i <= |s| && SkipSpace(s, i, wide) == SkipSpace(s, 0, wide)
      decreases |s| - i
    {
      i := i + 1;
    }
    neg := false;
    if At(s, i) == '-' {
      neg := true;
      i := i + 1;
    } else if At(s, i) == '+' {
      i := i + 1;
    }
    b := base;
    if (b == 0 || b == 16) && At(s, i) == '0' && (At(s, i + 1) == 'x' || At(s, i + 1) == 'X') {
      b := 16;
      i := i + 2;
    } else if (b == 0 || b == 8) && At(s, i) == '0' {
      b := 8;
      i := i + 1;
    } else if b == 0 {
      b := 10;
    }
  }

  /** Lines 76-97: the digit loop, accumulating the negated value and stopping before an overflow. */
  method ScanDigits(s: string, start: nat, b: int, L: int) returns (r: ScanResult)
    requires 2 <= b <= 36 && start <= |s| && L >= 0
    ensures r == Scan(s, start, b, L, 0)
  {
    var lim := -(L / b);
    var limDigit := b * lim + L;
    var ret := 0;
    var i := start;
    while At(s, i) as int < 256 && CharVal(At(s, i)) < b
      invariant start <= i <= |s| && -L <= ret <= 0
      invariant Scan(s, start, b, L, 0) == Scan(s, i, b, L, -ret)
      decreases |s| - i
    {
      var digit := CharVal(s[i]);
      OverflowTest(-ret, digit, b, L);
      if ret <= lim && (ret < lim || digit > limDigit) {
        return ScanResult(-ret, i, true);
      }
      ScanAfterSkip(s, start, i, b, L, -ret);
      NegStep(ret, b, digit);
      MulMono(0, -ret, b);
      assert 0 <= (-ret) * b + digit <= L;
      ret := ret * b - digit;
      i := i + 1;
    }
    r := ScanResult(-ret, i, false);
  }

  /**
   * The parse, the way the source walks the pointer: loops over white space
   * and digits, and on an overflow the accumulator set to MAX.
   */
  method TstrtoNum(s: string, base: int, w: IntWidth, wide: bool) returns (p: Parsed)
    ensures p == StrToNumAsWritten(s, base, w, wide)
  {
    var neg, i, b := SkipPrefix(s, base, wide);
    if b < 2 || 36 < b {
      return Parsed(0, None, true);
    }
    var r := ScanDigits(s, i, b, Lim(w));
    var ret := -r.v;
    if r.broke {
      ret := MaxOf(w);
    }
    if !neg {
      if ret < -MaxOf(w) {
        return Parsed(MaxOf(w), Some(r.end), true);
      }
      ret := -ret;
    }
    p := Parsed(ret, Some(r.end), r.broke);
  }

  // ---------------------------------------------------------------------------
  // Properties of the parse

  /** The value of the digits s[i..k], read by index. */
  function RangeValue(s: string, i: nat, k: nat, base: nat): nat
    requires i <= k <= |s|
    decreases k - i
  {
    if k == i then 0 else RangeValue(s, i, k - 1, base) * base + CharVal(s[k - 1])
  }

  lemma {:induction false} RangeValueIsValue(s: string, i: nat, k: nat, base: nat)
    requires i <= k <= |s|
    ensures Value(s[i..k], base) == RangeValue(s, i, k, base)
    decreases k - i
  {
    if k > i {
      RangeValueIsValue(s, i, k - 1, base);
      assert s[i..k][..k - i - 1] == s[i..k - 1];
    }
  }

  /** A shorter prefix of a run of digits is worth no more. */
  lemma {:induction false} RangeMono(s: string, i: nat, k: nat, j: nat, base: int)
    requires 2 <= base && i <= k <= j <= |s|
    ensures RangeValue(s, i, k, base) <= RangeValue(s, i, j, base)
    decreases j - k
  {
    if k < j {
      RangeMono(s, i, k, j - 1, base);
      MulMono(1, base, RangeValue(s, i, j - 1, base));
    }
  }

  /** Over a run of digits whose value stays within L, the loop reads the whole run. */
  lemma {:induction false} ScanRun(s: string, i: nat, j: nat, k: nat, base: int, L: int)
    requires 2 <= base <= 36 && i <= k <= j <= |s|
    requires forall m :: i <= m < j ==> IsDigitIn(s[m], base)
    requires j == |s| || !IsDigitIn(s[j], base)
    requires RangeValue(s, i, j, base) <= L
    ensures RangeValue(s, i, k, base) <= L
    ensures Scan(s, k, base, L, RangeValue(s, i, k, base)) == ScanResult(RangeValue(s, i, j, base), j, false)
    decreases j - k
  {
    RangeMono(s, i, k, j, base);
    if k < j {
      RangeMono(s, i, k + 1, j, base);
      ScanStepRange(s, i, k, base, L);
      ScanRun(s, i, j, k + 1, base, L);
    } else {
      ScanStops(s, k, base, L, RangeValue(s, i, k, base));
    }
  }

  /** One digit of a run that keeps the value within L: the loop takes it. */
  lemma {:induction false} ScanStepRange(s: string, i: nat, k: nat, base: int, L: int)
    requires 2 <= base <= 36 && i <= k < |s| && IsDigitIn(s[k], base)
    requires forall m :: i <= m < k ==> IsDigitIn(s[m], base)
    requires 0 <= RangeValue(s, i, k, base) <= L && RangeValue(s, i, k + 1, base) <= L
    ensures Scan(s, k, base, L, RangeValue(s, i, k, base)) == Scan(s, k + 1, base, L, RangeValue(s, i, k + 1, base))
  {
  }

  lemma {:induction false} ScanStops(s: string, i: nat, base: int, L: int, v: int)
    requires 2 <= base <= 36 && i <= |s| && 0 <= v <= L
    requires i == |s| || !IsDigitIn(s[i], base)
    ensures Scan(s, i, base, L, v) == ScanResult(v, i, false)
  {
  }

  /**
   * The meaning of the parse: an optional sign followed by decimal digits that
   * end the string reads as their signed value, provided it fits; the endpoint
   * is the end of the string.
   */
  lemma {:induction false} DecimalMeaning(sign: string, t: string, w: IntWidth, wide: bool)
    requires sign == "" || sign == "-"
    requires |t| > 0 && forall k :: 0 <= k < |t| ==> '0' <= t[k] <= '9'
    requires var m := Value(t, 10); if sign == "-" then m <= Lim(w) else m <= MaxOf(w)
    ensures StrToNum(sign + t, 10, w, wide)
      == Parsed(if sign == "-" then -(Value(t, 10) as int) else Value(t, 10), Some(|sign + t|), false)
  {
    var s, i := sign + t, |sign|;
    DecimalPrefix(sign, t, wide);
    RangeValueIsValue(s, i, |s|, 10);
    ScanRun(s, i, |s|, i, 10, Lim(w));
  }

  /** No white space or base prefix before the digits: just the optional sign. */
  lemma {:induction false} DecimalPrefix(sign: string, t: string, wide: bool)
    requires sign == "" || sign == "-"
    requires |t| > 0 && forall k :: 0 <= k < |t| ==> '0' <= t[k] <= '9'
    ensures var s := sign + t;
      ParsePrefix(s, 10, wide) == Prefix(sign == "-", |sign|, 10)
      && (forall m :: |sign| <= m < |s| ==> IsDigitIn(s[m], 10)) && s[|sign|..|s|] == t
  {
    var s, i := sign + t, |sign|;
    assert !IsSkipped(At(s, 0), wide);
    assert SkipSpace(s, 0, wide) == 0;
    assert s[i..|s|] == t;
    forall m | i <= m < |s| ensures IsDigitIn(s[m], 10) { assert s[m] == t[m - i]; }
  }

  /** "-" followed by the digits of |MIN| parses to MIN exactly, without ERANGE. */
  lemma {:induction false} MinParsesExactly(t: string, w: IntWidth, wide: bool)
    requires |t| > 0 && (forall k :: 0 <= k < |t| ==> '0' <= t[k] <= '9') && Value(t, 10) == Lim(w)
    ensures StrToNum("-" + t, 10, w, wide) == Parsed(MinOf(w), Some(|t| + 1), false)
  {
    DecimalMeaning("-", t, w, wide);
  }

  /** A base outside 2..36 sets ERANGE, returns 0 and leaves endptr alone. */
  lemma {:induction false} BadBase(s: string, base: int, w: IntWidth, wide: bool)
    requires base == 1 || base < 0 || base > 36
    ensures StrToNum(s, base, w, wide) == Parsed(0, None, true)
  {
  }

  /** Eleven nines at o: the loop reads nine of them and stops before the tenth. */
  lemma {:induction false} NinesScan(s: string, o: nat)
    requires |s| == o + 11 && forall k :: o <= k < |s| ==> s[k] == '9'
    ensures Scan(s, o, 10, Lim(W32), 0) == ScanResult(999999999, o + 9, true)
  {
    var L := Lim(W32);
    assert Scan(s, o, 10, L, 0) == Scan(s, o + 1, 10, L, 9);
    assert Scan(s, o + 1, 10, L, 9) == Scan(s, o + 2, 10, L, 99);
    assert Scan(s, o + 2, 10, L, 99) == Scan(s, o + 3, 10, L, 999);
    assert Scan(s, o + 3, 10, L, 999) == Scan(s, o + 4, 10, L, 9999);
    assert Scan(s, o + 4, 10, L, 9999) == Scan(s, o + 5, 10, L, 99999);
    assert Scan(s, o + 5, 10, L, 99999) == Scan(s, o + 6, 10, L, 999999);
    assert Scan(s, o + 6, 10, L, 999999) == Scan(s, o + 7, 10, L, 9999999);
    assert Scan(s, o + 7, 10, L, 9999999) == Scan(s, o + 8, 10, L, 99999999);
    assert Scan(s, o + 8, 10, L, 99999999) == Scan(s, o + 9, 10, L, 999999999);
  }

  /**
   * The overflow of the source as written: eleven nines read as -MAX, and
   * minus eleven nines as +MAX; the corrected parse gives MAX and MIN.
   */
  lemma {:induction false} OverflowAsWritten(sign: string, t: string, wide: bool)
    requires sign == "" || sign == "-"
    requires t == "99999999999"
    ensures StrToNumAsWritten(sign + t, 10, W32, wide)
      == Parsed(if sign == "" then -MaxOf(W32) else MaxOf(W32), Some(|sign| + 9), true)
    ensures StrToNum(sign + t, 10, W32, wide)
      == Parsed(if sign == "" then MaxOf(W32) else MinOf(W32), Some(|sign| + 9), true)
  {
    NinesParse(sign, t, wide);
  }

  /** The prefix and the digit loop on an optional minus and eleven nines. */
  lemma {:induction false} NinesParse(sign: string, t: string, wide: bool)
    requires sign == "" || sign == "-"
    requires t == "99999999999"
    ensures ParsePrefix(sign + t, 10, wide) == Prefix(sign == "-", |sign|, 10)
    ensures Scan(sign + t, |sign|, 10, Lim(W32), 0) == ScanResult(999999999, |sign| + 9, true)
  {
    var s := sign + t;
    assert s[|sign|] == '9';
    assert SkipSpace(s, 0, wide) == 0;
    forall k | |sign| <= k < |s| ensures s[k] == '9' { assert s[k] == t[k - |sign|]; }
    NinesScan(s, |sign|);
  }

  /** A corrected parse that overflows saturates: MIN for a negative number, MAX otherwise. */
  lemma {:induction false} OverflowSaturates(s: string, base: int, w: IntWidth, wide: bool)
    requires var p := ParsePrefix(s, base, wide);
      2 <= p.base <= 36 && Scan(s, p.start, p.base, Lim(w), 0).broke
    ensures var p := ParsePrefix(s, base, wide);
      StrToNum(s, base, w, wide).value == (if p.neg then MinOf(w) else MaxOf(w))
    ensures StrToNum(s, base, w, wide).erange
  {
  }

  // ---------------------------------------------------------------------------
  // Formatting

  function DigitChar(d: nat): char
    requires d < 36
  {
    if d <= 9 then (d + '0' as int) as char else (d - 10 + 'a' as int) as char
  }

  lemma {:induction false} DivShrinks(u: nat, radix: nat)
    requires 2 <= radix
    ensures 0 <= u / radix <= u && (u > 0 ==> u / radix < u)
  {
    var q := u / radix;
    assert radix * q + u % radix == u;
    MulMono(1, radix, q);
  }

  /** The digits of u in the radix, least significant first, as utowcs produces them. */
  function LSDigits(u: nat, radix: nat): (r: string)
    requires 2 <= radix <= 36
    ensures |r| > 0
    decreases u
  {
    DivShrinks(u, radix);
    [DigitChar(u % radix)] + (if u / radix == 0 then [] else LSDigits(u / radix, radix))
  }

  function Reverse(s: string): (r: string)
    ensures |r| == |s|
  {
    if s == [] then [] else Reverse(s[1..]) + [s[0]]
  }

  lemma {:induction false} ReverseAt(s: string, k: nat)
    requires k < |s|
    ensures Reverse(s)[k] == s[|s| - 1 - k]
  {
    if k < |s| - 1 { ReverseAt(s[1..], k); }
  }

  lemma {:induction false} LSDigitsStep(u: nat, radix: nat)
    requires 2 <= radix <= 36
    ensures LSDigits(u, radix) == [DigitChar(u % radix)] + (if u / radix == 0 then [] else LSDigits(u / radix, radix))
  {
  }

  /** The digits of u in the radix, most significant first. */
  function Digits(u: nat, radix: nat): (r: string)
    requires 2 <= radix <= 36
    ensures |r| > 0
  {
    Reverse(LSDigits(u, radix))
  }

  lemma {:induction false} DigitsStep(u: nat, radix: nat)
    requires 2 <= radix <= 36
    ensures Digits(u, radix) == (if u / radix == 0 then [] else Digits(u / radix, radix)) + [DigitChar(u % radix)]
  {
    var t := if u / radix == 0 then [] else LSDigits(u / radix, radix);
    assert LSDigits(u, radix) == [DigitChar(u % radix)] + t;
    assert ([DigitChar(u % radix)] + t)[1..] == t;
  }

  lemma {:induction false} DigitCharVal(d: nat)
    requires d < 36
    ensures CharVal(DigitChar(d)) == d && '0' <= DigitChar(d) <= 'z'
  {
  }

  /** Every character produced is a digit of the radix. */
  lemma {:induction false} DigitsIn(u: nat, radix: nat)
    requires 2 <= radix <= 36
    ensures forall k :: 0 <= k < |Digits(u, radix)| ==> IsDigitIn(Digits(u, radix)[k], radix)
    decreases u
  {
    var d := Digits(u, radix);
    var q, m := u / radix, u % radix;
    DigitsStep(u, radix);
    DigitCharVal(m);
    DivShrinks(u, radix);
    if q != 0 {
      var e := Digits(q, radix);
      DigitsIn(q, radix);
      assert d == e + [DigitChar(m)];
      forall k | 0 <= k < |d| ensures IsDigitIn(d[k], radix) {
        if k < |e| { assert d[k] == e[k]; } else { assert d[k] == DigitChar(m); }
      }
    }
  }

  /** The digits produced for u read back as u in the same radix. */
  lemma {:induction false} DigitsValue(u: nat, radix: nat)
    requires 2 <= radix <= 36
    ensures forall k :: 0 <= k < |Digits(u, radix)| ==> IsDigitIn(Digits(u, radix)[k], radix)
    ensures Value(Digits(u, radix), radix) == u
    decreases u
  {
    DigitsIn(u, radix);
    var d := Digits(u, radix);
    var q, m := u / radix, u % radix;
    assert q * radix + m == u;
    DigitsStep(u, radix);
    DivShrinks(u, radix);
    if q == 0 {
      assert d[..0] == [];
    } else {
      var e := Digits(q, radix);
      DigitsValue(q, radix);
      assert d[..|d| - 1] == e;
    }
    DigitCharVal(m);
  }

  lemma {:induction false} AllDecimal(d: string)
    requires forall k :: 0 <= k < |d| ==> IsDigitIn(d[k], 10)
    ensures forall k :: 0 <= k < |d| ==> '0' <= d[k] <= '9'
  {
  }

  /** The decimal digits of u are '0'..'9'. */
  lemma {:induction false} DecimalChars(u: nat)
    ensures forall k :: 0 <= k < |Digits(u, 10)| ==> '0' <= Digits(u, 10)[k] <= '9'
  {
    DigitsIn(u, 10);
    AllDecimal(Digits(u, 10));
  }

  lemma {:induction false} DecimalDigits(u: nat)
    ensures forall k :: 0 <= k < |Digits(u, 10)| ==> '0' <= Digits(u, 10)[k] <= '9'
    ensures Value(Digits(u, 10), 10) == u
  {
    DigitsValue(u, 10);
    AllDecimal(Digits(u, 10));
  }

  /** In-place std::reverse of buf[lo..hi]. */
  method ReverseRange(buf: array<char>, lo: nat, hi: nat)
    requires lo <= hi <= buf.Length
    modifies buf
    ensures buf[lo..hi] == Reverse(old(buf[lo..hi]))
    ensures forall k :: 0 <= k < buf.Length && !(lo <= k < hi) ==> buf[k] == old(buf[k])
  {
    ghost var was := buf[lo..hi];
    var i, j := lo, hi;
    while i + 1 < j
      invariant lo <= i && j <= hi && i - lo == hi - j && (i <= j || i == j + 1)
      invariant forall k :: lo <= k < i ==> buf[k] == was[hi - 1 - k]
      invariant forall k :: j <= k < hi ==> buf[k] == was[hi - 1 - k]
      invariant forall k :: i <= k < j ==> buf[k] == was[k - lo]
      invariant forall k :: 0 <= k < buf.Length && !(lo <= k < hi) ==> buf[k] == old(buf[k])
      decreases j - i
    {
      buf[i], buf[j - 1] := buf[j - 1], buf[i];
      i, j := i + 1, j - 1;
    }
    assert forall k :: lo <= k < hi ==> buf[k] == was[hi - 1 - k];
    ReversedPointwise(buf[lo..hi], was);
  }

  lemma {:induction false} ReversedPointwise(a: string, was: string)
    requires |a| == |was| && forall k :: 0 <= k < |a| ==> a[k] == was[|a| - 1 - k]
    ensures a == Reverse(was)
  {
    forall k | 0 <= k < |a| ensures a[k] == Reverse(was)[k] {
      ReverseAt(was, k);
    }
  }

  /**
   * The digit loop of utowcs: puts the digits of uval, least significant first,
   * at buf[off..], failing when the next one would land on lim.
   */
  method PutDigits(uval: nat, buf: array<char>, off: nat, lim: nat, radix: int) returns (ok: bool, ptr: nat)
    requires 2 <= radix <= 36 && off <= lim < buf.Length
    modifies buf
    ensures ok <==> |LSDigits(uval, radix)| <= lim - off
    ensures ok ==> ptr == off + |LSDigits(uval, radix)| && buf[off..ptr] == LSDigits(uval, radix)
    ensures off <= ptr <= lim
    ensures forall k :: 0 <= k < buf.Length && !(off <= k < ptr) ==> buf[k] == old(buf[k])
  {
    ptr := off;
    var u: nat := uval;
    ghost var all := LSDigits(uval, radix);
    while true
      invariant off <= ptr <= lim && ptr - off < |all|
      invariant all[ptr - off..] == LSDigits(u, radix)
      invariant buf[off..ptr] == all[..ptr - off]
      invariant forall k :: 0 <= k < buf.Length && !(off <= k < ptr) ==> buf[k] == old(buf[k])
      decreases u
    {
      DivShrinks(u, radix);
      var digit := u % radix;
      var next: nat := u / radix;
      var c := DigitChar(digit);
      LSDigitsStep(u, radix);
      ghost var rest := if next == 0 then [] else LSDigits(next, radix);
      assert all[ptr - off..] == [c] + rest;
      if ptr >= lim {
        return false, ptr;
      }
      ghost var prev := buf[off..ptr];
      buf[ptr] := c;
      assert buf[off..ptr + 1] == prev + [c];
      TakeOneMore(all, ptr - off, c, rest);
      ptr := ptr + 1;
      u := next;
      if u == 0 {
        assert all == all[..ptr - off];
        return true, ptr;
      }
    }
  }

  lemma {:induction false} TakeOneMore(all: string, n: nat, c: char, rest: string)
    requires n <= |all| && all[n..] == [c] + rest
    ensures all[..n + 1] == all[..n] + [c] && all[n + 1..] == rest
  {
    assert all[n] == c;
  }

  /**
   * utowcs: writes the digits of uval into buf[off..off+size) followed by a NUL,
   * or returns EINVAL for a bad radix or when fewer than digits+1 places fit. On
   * EINVAL the places before the failing one may already hold digits.
   */
  method Utowcs(uval: nat, buf: array<char>, off: nat, size: nat, radix: int) returns (err: int)
    requires off + size <= buf.Length
    modifies buf
    ensures err == 0 || err == EINVAL
    ensures err == 0 <==> 2 <= radix <= 36 && |Digits(uval, radix)| < size
    ensures err == 0 ==> 2 <= radix <= 36 && off + |Digits(uval, radix)| < off + size
    ensures err == 0 ==> buf[off..off + |Digits(uval, radix)|] == Digits(uval, radix)
    ensures err == 0 ==> buf[off + |Digits(uval, radix)|] == '\0'
    ensures err == 0 ==> forall k :: 0 <= k < buf.Length && !(off <= k <= off + |Digits(uval, radix)|) ==> buf[k] == old(buf[k])
    ensures forall k :: 0 <= k < buf.Length && !(off <= k < off + size) ==> buf[k] == old(buf[k])
  {
    if radix < 2 || radix > 36 {
      return EINVAL;
    }
    if size == 0 {
      // the limit pointer buffer + size - 1 lies before the buffer: the first put fails
      return EINVAL;
    }
    var ok, ptr := PutDigits(uval, buf, off, off + size - 1, radix);
    if !ok {
      return EINVAL;
    }
    buf[ptr] := '\0';
    ReverseRange(buf, off, ptr);
    assert Digits(uval, radix) == buf[off..ptr];
    err := 0;
  }

  /** The two's-complement image of v in the width's unsigned type. */
  function Unsigned(v: int, w: IntWidth): (u: nat)
    requires MinOf(w) <= v <= MaxOf(w)
    ensures u < 2 * Lim(w)
    ensures v >= 0 ==> u == v
  {
    if v >= 0 then v else v + 2 * Lim(w)
  }

  /** The text itowcs writes: a sign only in radix 10, otherwise the unsigned image. */
  function IntText(v: int, w: IntWidth, radix: nat): string
    requires MinOf(w) <= v <= MaxOf(w) && 2 <= radix <= 36
  {
    if v < 0 && radix == 10 then "-" + Digits(-v, 10) else Digits(Unsigned(v, w), radix)
  }

  /**
   * itowcs: the text of value in buf[off..off+size) with a final NUL, or
   * EINVAL for a bad radix or a buffer too short for text and NUL.
   */
  method Itowcs(value: int, w: IntWidth, buf: array<char>, off: nat, size: nat, radix: int) returns (err: int)
    requires MinOf(w) <= value <= MaxOf(w)
    requires off + size <= buf.Length
    modifies buf
    ensures err == 0 || err == EINVAL
    ensures err == 0 <==> 2 <= radix <= 36 && |IntText(value, w, radix)| < size
    ensures err == 0 ==>
      2 <= radix <= 36 && off + |IntText(value, w, radix)| < off + size
      && buf[off..off + |IntText(value, w, radix)|] == IntText(value, w, radix)
      && buf[off + |IntText(value, w, radix)|] == '\0'
    ensures forall k :: 0 <= k < buf.Length && !(off <= k < off + size) ==> buf[k] == old(buf[k])
  {
    var uval := Unsigned(value, w);
    if value < 0 && radix == 10 {
      if size < 2 {
        return EINVAL;
      }
      err := PutSigned(-value, buf, off, size);
      assert IntText(value, w, radix) == "-" + Digits(-value, 10);
    } else {
      err := Utowcs(uval, buf, off, size, radix);
      if err == 0 {
        assert IntText(value, w, radix) == Digits(uval, radix);
      }
    }
  }

  /** The negative branch of itowcs: a minus sign, then the digits of the magnitude m and a NUL. */
  method PutSigned(m: nat, buf: array<char>, off: nat, size: nat) returns (err: int)
    requires 2 <= size && off + size <= buf.Length
    modifies buf
    ensures err == 0 || err == EINVAL
    ensures err == 0 <==> 1 + |Digits(m, 10)| < size
    ensures err == 0 ==>
      buf[off..off + 1 + |Digits(m, 10)|] == "-" + Digits(m, 10) && buf[off + 1 + |Digits(m, 10)|] == '\0'
    ensures forall k :: 0 <= k < buf.Length && !(off <= k < off + size) ==> buf[k] == old(buf[k])
  {
    buf[off] := '-';
    err := Utowcs(m, buf, off + 1, size - 1, 10);
    if err == 0 {
      SignThenDigits(buf[..], off, Digits(m, 10));
    }
  }

  lemma {:induction false} SignThenDigits(a: string, off: nat, d: string)
    requires off + 1 + |d| <= |a| && a[off] == '-' && a[off + 1..off + 1 + |d|] == d
    ensures a[off..off + 1 + |d|] == "-" + d
  {
    assert a[off..off + 1 + |d|] == [a[off]] + a[off + 1..off + 1 + |d|];
  }

  /**
   * What sh_itostr writes, sh_strtoi reads back: the same value, the whole
   * text, no ERANGE, as written and as corrected.
   */
  lemma {:induction false} DecimalRoundTrip(v: int, w: IntWidth, wide: bool)
    requires MinOf(w) <= v <= MaxOf(w)
    ensures StrToNum(IntText(v, w, 10), 10, w, wide) == Parsed(v, Some(|IntText(v, w, 10)|), false)
    ensures StrToNumAsWritten(IntText(v, w, 10), 10, w, wide) == Parsed(v, Some(|IntText(v, w, 10)|), false)
  {
    var sign, m := SignedText(v, w);
    SignedParse(sign, m, w, wide);
  }

  /** An optional minus before the decimal digits of m parses back, as written and as corrected, when it fits. */
  lemma {:induction false} SignedParse(sign: string, m: nat, w: IntWidth, wide: bool)
    requires sign == "" || sign == "-"
    requires if sign == "-" then m <= Lim(w) else m <= MaxOf(w)
    ensures var s := sign + Digits(m, 10); var r := Parsed(if sign == "-" then -(m as int) else m, Some(|s|), false);
      StrToNum(s, 10, w, wide) == r && StrToNumAsWritten(s, 10, w, wide) == r
  {
    DecimalDigits(m);
    DecimalMeaning(sign, Digits(m, 10), w, wide);
    AsWrittenAgrees(sign + Digits(m, 10), 10, w, wide);
  }

  /** The decimal text is the sign of v, if any, before the digits of its magnitude. */
  lemma {:induction false} SignedText(v: int, w: IntWidth) returns (sign: string, m: nat)
    requires MinOf(w) <= v <= MaxOf(w)
    ensures sign == (if v < 0 then "-" else "") && m == (if v < 0 then -v else v)
    ensures IntText(v, w, 10) == sign + Digits(m, 10)
    ensures if sign == "-" then m <= Lim(w) else m <= MaxOf(w)
  {
    sign := if v < 0 then "-" else "";
    m := if v < 0 then -v else v;
    assert v >= 0 ==> sign + Digits(m, 10) == Digits(m, 10);
  }

  function Pow10(k: nat): (p: nat)
    ensures p >= 1
  {
    if k == 0 then 1 else Pow10(k - 1) * 10
  }

  lemma {:induction false} Pow10Of20()
    ensures Pow10(20) == 100_000_000_000_000_000_000
  {
    assert Pow10(5) == 100_000;
    assert Pow10(10) == 10_000_000_000;
    assert Pow10(15) == 1_000_000_000_000_000;
  }

  /** A number below 10^k has at most k decimal digits. */
  lemma {:induction false} DecimalLength(u: nat, k: nat)
    requires 1 <= k && u < Pow10(k)
    ensures |LSDigits(u, 10)| <= k
    decreases k
  {
    LSDigitsStep(u, 10);
    var q, r := u / 10, u % 10;
    if q != 0 {
      assert u == 10 * q + r;
      assert k >= 2;
      assert q < Pow10(k - 1);
      DecimalLength(q, k - 1);
    }
  }

  /** The decimal text of a 32- or 64-bit value is short and free of NUL. */
  lemma {:induction false} IntTextShort(v: int, w: IntWidth)
    requires MinOf(w) <= v <= MaxOf(w)
    ensures |IntText(v, w, 10)| <= 21
    ensures forall k :: 0 <= k < |IntText(v, w, 10)| ==> IntText(v, w, 10)[k] != '\0'
  {
    var sign, m := SignedText(v, w);
    Pow10Of20();
    DecimalLength(m, 20);
    DecimalChars(m);
    SignedChars(sign, Digits(m, 10));
  }

  /** A decimal text has a digit right after its optional sign. */
  lemma DecimalHasNumber(v: int, w: IntWidth, wide: bool)
    requires MinOf(w) <= v <= MaxOf(w)
    ensures HasNumber(IntText(v, w, 10), 10, wide)
  {
    var sign, m := SignedText(v, w);
    var t := Digits(m, 10);
    DecimalChars(m);
    DecimalPrefix(sign, t, wide);
    assert (sign + t)[|sign|] == t[0];
  }

  /** Decimal text holds only digits and a minus sign, the minus sign only first. */
  lemma DecimalAscii(v: int, w: IntWidth)
    requires MinOf(w) <= v <= MaxOf(w)
    ensures forall i :: 0 <= i < |IntText(v, w, 10)| ==> IntText(v, w, 10)[i] == '-' || '0' <= IntText(v, w, 10)[i] <= '9'
    ensures forall i :: 1 <= i < |IntText(v, w, 10)| ==> '0' <= IntText(v, w, 10)[i] <= '9'
  {
    var sign, m := SignedText(v, w);
    DecimalChars(m);
    SignedChars(sign, Digits(m, 10));
  }

  /** An optional minus before decimal digits: no NUL, digits after the first character. */
  lemma {:induction false} SignedChars(sign: string, t: string)
    requires sign == "" || sign == "-"
    requires forall k :: 0 <= k < |t| ==> '0' <= t[k] <= '9'
    ensures forall i :: 0 <= i < |sign + t| ==> (sign + t)[i] == '-' || '0' <= (sign + t)[i] <= '9'
    ensures forall i :: 1 <= i < |sign + t| ==> '0' <= (sign + t)[i] <= '9'
    ensures forall i :: 0 <= i < |sign + t| ==> (sign + t)[i] != '\0'
  {
    forall i | 0 <= i < |sign + t|
      ensures (sign + t)[i] == '-' || '0' <= (sign + t)[i] <= '9'
      ensures i >= 1 ==> '0' <= (sign + t)[i] <= '9'
    {
      if i >= |sign| {
        assert (sign + t)[i] == t[i - |sign|];
      }
    }
  }

  /** A 32-bit value has the same decimal text in either width. */
  lemma DecimalSameWidth(v: int)
    requires MinOf(W32) <= v <= MaxOf(W32)
    ensures IntText(v, W64, 10) == IntText(v, W32, 10)
  {
  }
}
