// Field_Num over the integer types: Byte (unsigned), Int16, Int32 and Int64.
// The value is stored little-endian, followed by a null flag byte.

module FieldNum {
  import opened Bytes
  import opened FieldTypes
  import opened Fields
  import opened StringHelper
  import SrcLib
  import Records
  import opened Wrappers

  datatype Kind = KByte | KInt16 | KInt32 | KInt64

  function TypeOf(k: Kind): (ft: FieldType)
    ensures IsNumLayout(ft)
  {
    match k
    case KByte => Byte
    case KInt16 => Int16
    case KInt32 => Int32
    case KInt64 => Int64
  }

  /** sizeof(T_Num). */
  function Size(k: Kind): (n: nat)
    ensures n == NumWidth(TypeOf(k)) && (n == 1 || n == 2 || n == 4 || n == 8)
  {
    match k
    case KByte => 1
    case KInt16 => 2
    case KInt32 => 4
    case KInt64 => 8
  }

  lemma HalfValues()
    ensures Half(1) == 0x80 && Half(2) == 0x8000 && Half(4) == 0x8000_0000 && Half(8) == 0x8000_0000_0000_0000
  {
    assert Pow256(1) == 0x100;
    assert Pow256(3) == 0x100_0000;
    assert Pow256(7) == 0x100_0000_0000_0000;
  }

  /** numeric_limits<T_Num>::min() and max(). */
  function Lo(k: Kind): int
  {
    if k == KByte then 0 else -Half(Size(k))
  }

  function Hi(k: Kind): int
  {
    if k == KByte then 255 else Half(Size(k)) - 1
  }

  predicate InRange(k: Kind, v: int)
  {
    Lo(k) <= v <= Hi(k)
  }

  /** The width the value is parsed and printed in: int64_t for Int64, int for the others. */
  function Width(k: Kind): IntWidth
  {
    if k == KInt64 then W64 else W32
  }

  lemma RangeWithinWidth(k: Kind, v: int)
    requires InRange(k, v)
    ensures MinOf(Width(k)) <= v <= MaxOf(Width(k))
    ensures MinOf(W64) <= v <= MaxOf(W64)
    ensures k != KInt64 ==> MinOf(W32) <= v <= MaxOf(W32)
  {
    HalfValues();
  }

  /** Every int fits an Int32 and an Int64, every int64_t an Int64. */
  lemma WideKinds(v: int)
    ensures MinOf(W32) <= v <= MaxOf(W32) ==> InRange(KInt32, v) && InRange(KInt64, v)
    ensures MinOf(W64) <= v <= MaxOf(W64) ==> InRange(KInt64, v)
  {
    HalfValues();
  }

  // ---------------------------------------------------------------------------
  // Storage

  /** The value bytes of v: its two's-complement image, least significant byte first. */
  function Encode(k: Kind, v: int): (d: seq<byte>)
    requires InRange(k, v)
    ensures |d| == Size(k)
  {
    HalfValues();
    var u := if k == KByte then v else ToUnsigned(v, Size(k));
    ToLE(u, Size(k))
  }

  /** The value that value bytes hold: unsigned for Byte, two's complement otherwise. */
  function Decode(k: Kind, d: seq<byte>): (v: int)
    requires |d| == Size(k)
    ensures InRange(k, v)
  {
    HalfValues();
    var u := FromLE(d);
    if k == KByte then u else ToSigned(u, Size(k))
  }

  lemma DecodeEncode(k: Kind, v: int)
    requires InRange(k, v)
    ensures Decode(k, Encode(k, v)) == v
  {
    HalfValues();
    var u := if k == KByte then v else ToUnsigned(v, Size(k));
    FromToLE(u, Size(k));
    if k != KByte {
      SignedRoundTrip(v, Size(k));
    }
  }

  lemma EncodeDecode(k: Kind, d: seq<byte>)
    requires |d| == Size(k)
    ensures Encode(k, Decode(k, d)) == d
  {
    HalfValues();
    ToFromLE(d);
  }

  /** GetVal: null, reading 0, when the flag byte after the value is set. */
  function GetVal(k: Kind, b: seq<byte>): (v: Val<int>)
    requires |b| == Size(k) + 1
    ensures v.isNull <==> b[Size(k)] != 0
    ensures v.isNull ==> v.value == 0
    ensures !v.isNull ==> InRange(k, v.value) && Encode(k, v.value) == b[..Size(k)]
  {
    EncodeDecode(k, b[..Size(k)]);
    if b[Size(k)] != 0 then Val(true, 0) else Val(false, Decode(k, b[..Size(k)]))
  }

  /** SetVal: the value's bytes and a clear flag. */
  function SetVal(k: Kind, v: int): (b: seq<byte>)
    requires InRange(k, v)
    ensures |b| == Size(k) + 1 && b[Size(k)] == 0
    ensures GetVal(k, b) == Val(false, v)
  {
    DecodeEncode(k, v);
    var b := Encode(k, v) + [0];
    assert b[..Size(k)] == Encode(k, v);
    b
  }

  /** SetNull: zero value bytes and the flag 1. */
  function NullBytes(k: Kind): (b: seq<byte>)
    ensures |b| == Size(k) + 1 && b[..Size(k)] == Records.Zeros(Size(k)) && b[Size(k)] == 1
    ensures GetVal(k, b).isNull
  {
    var b := Records.Zeros(Size(k)) + [1];
    assert b[..Size(k)] == Records.Zeros(Size(k));
    b
  }

  /** A non-null field holds exactly the bytes SetVal writes for its value. */
  lemma StoredBytes(k: Kind, b: seq<byte>)
    requires |b| == Size(k) + 1 && !GetVal(k, b).isNull
    ensures SetVal(k, GetVal(k, b).value) == b
  {
    assert b == b[..Size(k)] + [b[Size(k)]];
  }

  /** static_cast<T_Num>: the value modulo 2^(8 sizeof), read unsigned for Byte and signed otherwise. */
  function Cast(k: Kind, v: int): (r: int)
    ensures InRange(k, r)
    ensures (r - v) % Pow256(Size(k)) == 0
    ensures InRange(k, v) ==> r == v
  {
    CastRange(k, v);
    var n := Size(k);
    var m := v % Pow256(n);
    if k == KByte then m else ToSigned(m, n)
  }

  /** The low bytes of v, read signed except for a Byte, lie in the kind's range, and are v when it does. */
  lemma CastRange(k: Kind, v: int)
    ensures var n := Size(k); var m := v % Pow256(n);
      m < Pow256(n) && var r := if k == KByte then m else ToSigned(m, n);
      InRange(k, r) && (r - v) % Pow256(n) == 0 && (InRange(k, v) ==> r == v)
  {
    HalfValues();
    var n := Size(k);
    var p := Pow256(n);
    var m := v % p;
    assert p == 2 * Half(n);
    ModOf(v, p);
    if InRange(k, v) {
      ModSmall(v, p);
    }
  }

  lemma ModOf(v: int, p: int)
    requires p > 0
    ensures 0 <= v % p < p && (v % p - v) % p == 0 && (v % p - p - v) % p == 0
  {
    var q := v / p;
    assert v % p - v == -q * p;
    assert v % p - p - v == -(q + 1) * p;
    MultipleMod(-q, p);
    MultipleMod(-(q + 1), p);
  }

  /** A multiple of p leaves no remainder. */
  lemma MultipleMod(t: int, p: int)
    requires p > 0
    ensures (t * p) % p == 0
  {
    var r := (t * p) % p;
    var q := (t * p) / p;
    assert t * p == q * p + r;
    assert r == (t - q) * p;
    if t - q >= 1 {
      assert false;
    } else if t - q <= -1 {
      assert false;
    }
  }

  lemma ModSmall(v: int, p: int)
    requires p > 0 && -p <= v < p
    ensures v % p == (if v >= 0 then v else v + p)
  {
  }

  /** Whatever a field holds lies in the range of the width it is read and printed in. */
  lemma ValueWithinWidth(k: Kind, b: seq<byte>)
    requires |b| == Size(k) + 1
    ensures MinOf(Width(k)) <= GetVal(k, b).value <= MaxOf(Width(k))
    ensures MinOf(W64) <= GetVal(k, b).value <= MaxOf(W64)
    ensures k != KInt64 ==> MinOf(W32) <= GetVal(k, b).value <= MaxOf(W32)
  {
    HalfValues();
  }

  // ---------------------------------------------------------------------------
  // Getters

  function GetAsBool(k: Kind, b: seq<byte>): (v: Val<bool>)
    requires |b| == Size(k) + 1
    ensures v.isNull == GetVal(k, b).isNull
    ensures v.value <==> GetVal(k, b).value != 0
  {
    var x := GetVal(k, b);
    Val(x.isNull, x.value != 0)
  }

  /** GetAsInt32: an Int64 outside the int range reports that it does not fit and reads as null. */
  function GetAsInt32(k: Kind, b: seq<byte>): (g: Got<int>)
    requires |b| == Size(k) + 1
    ensures var x := GetVal(k, b);
      if MinOf(W32) <= x.value <= MaxOf(W32) then g == Got(x, [])
      else k == KInt64 && g == Got(Val(true, 0), [DoesNotFitType(x.value, Int32)])
    ensures MinOf(W32) <= g.val.value <= MaxOf(W32)
  {
    var x := GetVal(k, b);
    ValueWithinWidth(k, b);
    if k == KInt64 && !(MinOf(W32) <= x.value <= MaxOf(W32)) then Got(Val(true, 0), [DoesNotFitType(x.value, Int32)])
    else Got(x, [])
  }

  /** GetAsInt64: every value fits. */
  function GetAsInt64(k: Kind, b: seq<byte>): (v: Val<int>)
    requires |b| == Size(k) + 1
    ensures v == GetVal(k, b) && MinOf(W64) <= v.value <= MaxOf(W64)
  {
    var x := GetVal(k, b);
    ValueWithinWidth(k, b);
    x
  }

  /** GetAsAString: the decimal text of the value, or a null empty string. */
  function GetAsAString(k: Kind, b: seq<byte>): (v: Val<string>)
    requires |b| == Size(k) + 1
    ensures v.isNull == GetVal(k, b).isNull
    ensures v.isNull ==> v.value == []
    ensures !v.isNull ==> (MinOf(Width(k)) <= GetVal(k, b).value <= MaxOf(Width(k)) &&
      v.value == IntText(GetVal(k, b).value, Width(k), 10))
  {
    var x := GetVal(k, b);
    ValueWithinWidth(k, b);
    if x.isNull then Val(true, []) else Val(false, IntText(x.value, Width(k), 10))
  }

  function GetAsWString(k: Kind, b: seq<byte>): (v: Val<seq<u16>>)
    requires |b| == Size(k) + 1
    ensures v.isNull == GetVal(k, b).isNull
    ensures v.value == SrcLib.Widened(GetAsAString(k, b).value)
  {
    var a := GetAsAString(k, b);
    Val(a.isNull, SrcLib.Widened(a.value))
  }

  // ---------------------------------------------------------------------------
  // Setters from numbers

  /** SetFromInt32: a value outside a narrower type reports that it does not fit and stores null. */
  function SetFromInt32(k: Kind, n: int): (e: Effect)
    requires MinOf(W32) <= n <= MaxOf(W32)
    ensures e.store.Bytes? && |e.store.b| == Size(k) + 1
    ensures GetVal(k, e.store.b) == if InRange(k, n) then Val(false, n) else Val(true, 0)
    ensures e.msgs == if InRange(k, n) then [] else [DoesNotFitType(n, TypeOf(k))]
  {
    WideKinds(n);
    if Size(k) < 4 && !InRange(k, n) then Effect(Bytes(NullBytes(k)), [DoesNotFitType(n, TypeOf(k))])
    else Effect(Bytes(SetVal(k, Cast(k, n))), [])
  }

  function SetFromInt64(k: Kind, n: int): (e: Effect)
    requires MinOf(W64) <= n <= MaxOf(W64)
    ensures e.store.Bytes? && |e.store.b| == Size(k) + 1
    ensures GetVal(k, e.store.b) == if InRange(k, n) then Val(false, n) else Val(true, 0)
    ensures e.msgs == if InRange(k, n) then [] else [DoesNotFitType(n, TypeOf(k))]
  {
    WideKinds(n);
    if Size(k) < 8 && !InRange(k, n) then Effect(Bytes(NullBytes(k)), [DoesNotFitType(n, TypeOf(k))])
    else Effect(Bytes(SetVal(k, Cast(k, n))), [])
  }

  /** What a number setter stores, the getters read back. */
  lemma NumberRoundTrip(k: Kind, b: seq<byte>)
    requires |b| == Size(k) + 1 && !GetVal(k, b).isNull
    ensures SetFromInt64(k, GetAsInt64(k, b).value) == Effect(Bytes(b), [])
    ensures k != KInt64 ==> SetFromInt32(k, GetAsInt32(k, b).val.value) == Effect(Bytes(b), [])
  {
    var v := GetVal(k, b).value;
    RangeWithinWidth(k, v);
    StoredBytes(k, b);
  }

  // ---------------------------------------------------------------------------
  // Setters from text

  function TextLen(t: Text): nat
  {
    match t
    case Narrow(s) => |s|
    case Wide(w) => |w|
  }

  /** The text as the parser reads it. */
  function Chars(t: Text): string
  {
    match t
    case Narrow(s) => s
    case Wide(w) => View(w)
  }

  /** The text a message quotes: the input up to its first NUL. */
  function Quoted(t: Text): Text
  {
    match t
    case Narrow(s) => Narrow(SrcLib.CStr(s))
    case Wide(w) => Wide(w[..SrcLib.WLen(w)])
  }

  /**
   * sh_strtoi / sh_strtoi64 in base 10 on the text, an overflow saturating.
   * TstrtoNum as written gives another value on overflow, but it also sets
   * ERANGE, which makes the field null either way.
   */
  function Parse(k: Kind, t: Text): Parsed
  {
    StrToNum(Chars(t), 10, Width(k), t.Wide?)
  }

  /** Where TstrtoNum leaves endptr. */
  function EndAsWritten(k: Kind, t: Text): nat
  {
    EndPtrAsWritten(Chars(t), 10, Width(k), t.Wide?)
  }

  /** A digit follows the white space and sign. */
  predicate HasDigits(t: Text)
  {
    HasNumber(Chars(t), 10, t.Wide?)
  }

  /** Where strtol would leave endptr, which is what CheckStringConvError expects. */
  function End(k: Kind, t: Text): nat
  {
    EndPtr(Chars(t), 10, Width(k), t.Wide?)
  }

  /** The report of an overflow, which comes before any other. */
  function RangeReport(k: Kind, t: Text): seq<Msg>
  {
    if Parse(k, t).erange then [DoesNotFitInt(Quoted(t), k == KInt64)] else []
  }

  /**
   * CheckStringConvError after SetVal of the cast value, given where the
   * parse ended: ERANGE stores null; no number at all (or an empty text)
   * stores null; otherwise text left over is reported and the value kept.
   */
  function CheckStringConvError(k: Kind, t: Text, end: nat): (e: Effect)
    ensures e.store.Bytes? && |e.store.b| == Size(k) + 1
    ensures end == TextLen(t) || TextLen(t) == 0 ==> e.msgs == RangeReport(k, t)
    ensures 0 == end < TextLen(t) ==> e.msgs == RangeReport(k, t) + [NotANumber(Quoted(t))]
    ensures 0 < end < TextLen(t) ==> (e.msgs == RangeReport(k, t) +
      [if StringHelper.At(Chars(t), end) == ',' then StoppedAtComma(Quoted(t)) else NotFullyConverted(Quoted(t))])
  {
    var n := TextLen(t);
    var p := Parse(k, t);
    var q := Quoted(t);
    var range := if p.erange then [DoesNotFitInt(q, k == KInt64)] else [];
    var partial := end != n || n == 0;
    var nothing := partial && (end == 0 || n == 0);
    var rest :=
      if !partial then []
      else if nothing then (if n > 0 then [NotANumber(q)] else [])
      else if StringHelper.At(Chars(t), end) == ',' then [StoppedAtComma(q)]
      else [NotFullyConverted(q)];
    Effect(Bytes(if p.erange || nothing then NullBytes(k) else SetVal(k, Cast(k, p.value))), range + rest)
  }

  /**
   * SetFromString as written: the end TstrtoNum reports goes to the check,
   * so only an empty text, ERANGE or text left over after the number makes
   * the field null or sends a message.
   */
  function SetFromStringAsWritten(k: Kind, t: Text): (e: Effect)
    ensures e.store.Bytes? && |e.store.b| == Size(k) + 1
    ensures TextLen(t) == 0 ==> e == Effect(Bytes(NullBytes(k)), [])
    ensures GetVal(k, e.store.b).isNull <==> TextLen(t) == 0 || EndAsWritten(k, t) == 0 || Parse(k, t).erange
    ensures !GetVal(k, e.store.b).isNull ==> GetVal(k, e.store.b).value == Cast(k, Parse(k, t).value)
    ensures EndAsWritten(k, t) == TextLen(t) ==> e.msgs == RangeReport(k, t)
    ensures 0 == EndAsWritten(k, t) < TextLen(t) ==> e.msgs == RangeReport(k, t) + [NotANumber(Quoted(t))]
    ensures 0 < EndAsWritten(k, t) < TextLen(t) ==> (e.msgs == RangeReport(k, t) +
      [if StringHelper.At(Chars(t), EndAsWritten(k, t)) == ',' then StoppedAtComma(Quoted(t)) else NotFullyConverted(Quoted(t))])
  {
    CheckStringConvError(k, t, EndAsWritten(k, t))
  }

  /** SetFromString with the end where strtol would put it, so that text without digits reads as not a number. */
  function SetFromString(k: Kind, t: Text): (e: Effect)
    ensures e.store.Bytes? && |e.store.b| == Size(k) + 1
    ensures TextLen(t) == 0 ==> e == Effect(Bytes(NullBytes(k)), [])
    ensures GetVal(k, e.store.b).isNull <==> TextLen(t) == 0 || !HasDigits(t) || Parse(k, t).erange
    ensures !GetVal(k, e.store.b).isNull ==> GetVal(k, e.store.b).value == Cast(k, Parse(k, t).value)
    ensures TextLen(t) > 0 && !HasDigits(t) ==> e.msgs == RangeReport(k, t) + [NotANumber(Quoted(t))]
    ensures End(k, t) == TextLen(t) ==> e.msgs == RangeReport(k, t)
    ensures 0 < End(k, t) < TextLen(t) ==> (e.msgs == RangeReport(k, t) +
      [if StringHelper.At(Chars(t), End(k, t)) == ',' then StoppedAtComma(Quoted(t)) else NotFullyConverted(Quoted(t))])
  {
    EndPtrAdvances(Chars(t), 10, Width(k), t.Wide?);
    CheckStringConvError(k, t, End(k, t))
  }

  /** The two agree on every text that holds a digit where the number starts. */
  lemma CorrectionOnlyWithoutDigits(k: Kind, t: Text)
    requires HasDigits(t)
    ensures SetFromString(k, t) == SetFromStringAsWritten(k, t)
  {
  }

  /**
   * As written, white space alone or a lone sign read as a stored 0 with no
   * message, since TstrtoNum's end then lies past them and matches the length.
   */
  lemma NoDigitsAsWritten(k: Kind)
    ensures SetFromStringAsWritten(k, Narrow(" ")) == Effect(Bytes(SetVal(k, 0)), [])
    ensures SetFromStringAsWritten(k, Narrow("-")) == Effect(Bytes(SetVal(k, 0)), [])
    ensures SetFromString(k, Narrow(" ")) == Effect(Bytes(NullBytes(k)), [NotANumber(Narrow(" "))])
    ensures SetFromString(k, Narrow("-")) == Effect(Bytes(NullBytes(k)), [NotANumber(Narrow("-"))])
  {
    NoDigitsText(k, " ");
    NoDigitsText(k, "-");
  }

  lemma NoDigitsText(k: Kind, s: string)
    requires s == " " || s == "-"
    ensures SetFromStringAsWritten(k, Narrow(s)) == Effect(Bytes(SetVal(k, 0)), [])
    ensures SetFromString(k, Narrow(s)) == Effect(Bytes(NullBytes(k)), [NotANumber(Narrow(s))])
  {
    HalfValues();
    LoneSpaceOrSign(k, s);
  }

  /** A single blank or sign: the parse reads 0, ends after it, and finds no digit. */
  lemma LoneSpaceOrSign(k: Kind, s: string)
    requires s == " " || s == "-"
    ensures Parse(k, Narrow(s)) == Parsed(0, Some(1), false)
    ensures EndAsWritten(k, Narrow(s)) == 1 && End(k, Narrow(s)) == 0
    ensures !HasDigits(Narrow(s))
    ensures Quoted(Narrow(s)) == Narrow(s)
    ensures Cast(k, 0) == 0
  {
    HalfValues();
    assert SkipSpace(s, 1, false) == 1;
    if s == " " {
      assert SkipSpace(s, 0, false) == 1;
    } else {
      assert SkipSpace(s, 0, false) == 0;
    }
    SrcLib.CLenOfNoNul(s);
  }

  /** The text GetAsAString gives, in either width, SetFromString stores back unchanged and without a message. */
  lemma TextRoundTrip(k: Kind, v: int)
    requires InRange(k, v)
    ensures MinOf(Width(k)) <= v <= MaxOf(Width(k))
    ensures SetFromString(k, Narrow(IntText(v, Width(k), 10))) == Effect(Bytes(SetVal(k, v)), [])
    ensures SetFromString(k, Wide(SrcLib.Widened(IntText(v, Width(k), 10)))) == Effect(Bytes(SetVal(k, v)), [])
    ensures SetFromStringAsWritten(k, Narrow(IntText(v, Width(k), 10))) == Effect(Bytes(SetVal(k, v)), [])
    ensures SetFromStringAsWritten(k, Wide(SrcLib.Widened(IntText(v, Width(k), 10)))) == Effect(Bytes(SetVal(k, v)), [])
  {
    RangeWithinWidth(k, v);
    NarrowTextBack(k, v);
    WideTextBack(k, v);
    CorrectionOnlyWithoutDigits(k, Narrow(IntText(v, Width(k), 10)));
    CorrectionOnlyWithoutDigits(k, Wide(SrcLib.Widened(IntText(v, Width(k), 10))));
  }

  lemma NarrowTextBack(k: Kind, v: int)
    requires InRange(k, v) && MinOf(Width(k)) <= v <= MaxOf(Width(k))
    ensures SetFromString(k, Narrow(IntText(v, Width(k), 10))) == Effect(Bytes(SetVal(k, v)), [])
    ensures HasDigits(Narrow(IntText(v, Width(k), 10)))
  {
    DecimalRoundTrip(v, Width(k), false);
    DecimalHasNumber(v, Width(k), false);
  }

  lemma WideTextBack(k: Kind, v: int)
    requires InRange(k, v) && MinOf(Width(k)) <= v <= MaxOf(Width(k))
    ensures SetFromString(k, Wide(SrcLib.Widened(IntText(v, Width(k), 10)))) == Effect(Bytes(SetVal(k, v)), [])
    ensures HasDigits(Wide(SrcLib.Widened(IntText(v, Width(k), 10))))
  {
    var s := IntText(v, Width(k), 10);
    DecimalAscii(v, Width(k));
    ViewWidened(s);
    DecimalRoundTrip(v, Width(k), true);
    DecimalHasNumber(v, Width(k), true);
  }

  /** Byte and Int16 do no range check on text: the parsed int is cast, silently, where SetFromInt32 would refuse it. */
  lemma TextNarrowedSilently(k: Kind, v: int)
    requires (k == KByte || k == KInt16) && MinOf(W32) <= v <= MaxOf(W32) && !InRange(k, v)
    ensures SetFromStringAsWritten(k, Narrow(IntText(v, W32, 10))) == Effect(Bytes(SetVal(k, Cast(k, v))), [])
    ensures SetFromInt32(k, v) == Effect(Bytes(NullBytes(k)), [DoesNotFitType(v, TypeOf(k))])
  {
    DecimalRoundTrip(v, W32, false);
    DecimalHasNumber(v, W32, false);
    CorrectionOnlyWithoutDigits(k, Narrow(IntText(v, W32, 10)));
  }

  /** For instance "300" in a Byte field stores 44. */
  lemma ThreeHundredInAByte()
    ensures Cast(KByte, 300) == 44
  {
    assert Pow256(1) == 256;
  }
}
