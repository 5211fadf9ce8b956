// Field_Bool: one byte, bit 0 the value and bit 1 the null flag.

module FieldBool {
  import opened Bytes
  import opened Fields
  import StringHelper
  import SrcLib

  /** The byte SetNull writes. */
  const NullByte: byte := 2

  /** GetVal: null when bit 1 is set, and then false; otherwise bit 0. */
  function GetVal(b: byte): (v: Val<bool>)
    ensures v.isNull <==> b % 4 >= 2
    ensures v.isNull ==> !v.value
    ensures !v.isNull ==> (v.value <==> b % 2 == 1)
  {
    if (b / 2) % 2 == 1 then Val(true, false) else Val(false, b % 2 == 1)
  }

  /** SetVal: the byte of a value, its null flag clear. */
  function SetVal(x: bool): (b: byte)
    ensures b < 2 && (b == 1 <==> x)
  {
    if x then 1 else 0
  }

  /** What SetVal and SetNull write, GetVal reads back. */
  lemma RoundTrip(x: bool)
    ensures GetVal(SetVal(x)) == Val(false, x)
    ensures GetVal(NullByte) == Val(true, false)
  {
  }

  /** iswdigit: the ten ASCII digits. */
  predicate IsWDigit(c: u16)
  {
    '0' as int <= c <= '9' as int
  }

  /** towupper in the C locale: ASCII letters only. */
  function ToWUpper(c: u16): u16
  {
    if 'a' as int <= c <= 'z' as int then c - 32 else c
  }

  /** TestChar: whether a character reads as true. */
  function TestChar(c: u16): (r: bool)
    ensures r <==> ('1' as int <= c <= '9' as int || c == 't' as int || c == 'T' as int)
  {
    (c != '0' as int && IsWDigit(c)) || ToWUpper(c) == 'T' as int
  }

  /** A char of a narrow string passed as a U16unit: the signed char is sign-extended. */
  function CharUnit(c: char): (u: u16)
    ensures (c as int) % 256 < 128 ==> u == (c as int) % 256
  {
    var b := (c as int) % 256;
    if b < 128 then b else b + 0xff00
  }

  /** TestChar of a narrow string's first character: true exactly for 1-9, t and T. */
  lemma NarrowTestChar(c: char)
    ensures TestChar(CharUnit(c)) <==> ((c as int) % 256 in {'1' as int, '2' as int, '3' as int, '4' as int, '5' as int, '6' as int, '7' as int, '8' as int, '9' as int, 't' as int, 'T' as int})
  {
  }

  // ---------------------------------------------------------------------------
  // The conversions

  function GetAsInt32(b: byte): (v: Val<int>)
    ensures v.isNull == GetVal(b).isNull
    ensures v.value == (if GetVal(b).value then 1 else 0)
  {
    var x := GetVal(b);
    Val(x.isNull, if x.value then 1 else 0)
  }

  /** The text of a value. */
  function BoolText(x: bool): string
  {
    if x then "True" else "False"
  }

  /** GetAsAString: "True" or "False", or a null empty string. */
  function GetAsAString(b: byte): (v: Val<string>)
    ensures v.isNull == GetVal(b).isNull
    ensures v.isNull ==> v.value == []
    ensures !v.isNull ==> v.value == BoolText(GetVal(b).value)
  {
    var x := GetVal(b);
    if x.isNull then Val(true, []) else Val(false, BoolText(x.value))
  }

  function GetAsWString(b: byte): (v: Val<seq<u16>>)
    ensures v.isNull == GetVal(b).isNull
    ensures v.value == SrcLib.Widened(GetAsAString(b).value)
  {
    var a := GetAsAString(b);
    Val(a.isNull, SrcLib.Widened(a.value))
  }

  /** SetFromInt32 and SetFromInt64: any non-zero value is true. */
  function SetFromInt(n: int): (b: byte)
    ensures GetVal(b) == Val(false, n != 0)
  {
    SetVal(n != 0)
  }

  /** SetFromString of narrow text: only its first character counts, NUL when it is empty. */
  function SetFromAString(s: string): (b: byte)
    ensures GetVal(b) == Val(false, TestChar(CharUnit(StringHelper.At(s, 0))))
  {
    SetVal(TestChar(CharUnit(StringHelper.At(s, 0))))
  }

  function SetFromWString(w: seq<u16>): (b: byte)
    ensures GetVal(b) == Val(false, TestChar(SrcLib.WAt(w, 0)))
  {
    SetVal(TestChar(SrcLib.WAt(w, 0)))
  }

  /** The text a Bool gives, in either width, sets it back to the same value, and so does its number. */
  lemma ConversionsRoundTrip(b: byte)
    requires !GetVal(b).isNull
    ensures GetVal(SetFromAString(GetAsAString(b).value)) == GetVal(b)
    ensures GetVal(SetFromWString(GetAsWString(b).value)) == GetVal(b)
    ensures GetVal(SetFromInt(GetAsInt32(b).value)) == GetVal(b)
  {
    var t := GetAsAString(b).value;
    assert StringHelper.At(t, 0) == (if GetVal(b).value then 'T' else 'F');
    assert SrcLib.WAt(GetAsWString(b).value, 0) == (if GetVal(b).value then 'T' as int else 'F' as int);
  }
}
