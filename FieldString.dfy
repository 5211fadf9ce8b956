// T_Field_String over its four instantiations. String and WString keep
// their characters in the record, followed by a null flag byte; V_String and
// V_WString keep them in the var data behind a slot. A character is a byte,
// or for the W types a little-endian UTF-16 unit; both are held here as
// units, a narrow unit being below 256.

module FieldString {
  import opened Wrappers
  import opened Bytes
  import opened FieldTypes
  import opened Fields
  import opened StringHelper
  import SrcLib
  import FieldBool

  /** Which of the four: UTF-16 or narrow characters, var data or fixed. */
  datatype Kind = Kind(wide: bool, isVar: bool)

  function TypeOf(k: Kind): (ft: FieldType)
    ensures CharWidth(ft) == Width(k) && IsVarLength(ft) == k.isVar
  {
    if k.wide then (if k.isVar then V_WString else WString)
    else if k.isVar then V_String else String
  }

  /** sizeof(TChar). */
  function Width(k: Kind): (w: nat)
    ensures w == 1 || w == 2
  {
    if k.wide then 2 else 1
  }

  function Min(a: nat, b: nat): nat { if a <= b then a else b }

  // ---------------------------------------------------------------------------
  // Characters as bytes

  /** The bytes n characters take: twice n for UTF-16. */
  function Span(wide: bool, n: nat): nat
  {
    if wide then 2 * n else n
  }

  /** The units, each as its low byte, or as two little-endian bytes for UTF-16. */
  function EncodeUnits(u: seq<u16>, wide: bool): (b: seq<byte>)
    ensures |b| == Span(wide, |u|)
  {
    if u == [] then [] else ToLE(u[0], if wide then 2 else 1) + EncodeUnits(u[1..], wide)
  }

  /** The unit at the start of b. */
  function FirstUnit(b: seq<byte>, wide: bool): (x: u16)
    requires |b| >= Span(wide, 1)
    ensures !wide ==> x == b[0]
  {
    if wide then (b[0] as int) + 256 * (b[1] as int) else b[0]
  }

  /** The units in b; a last odd byte of UTF-16 is dropped. */
  function DecodeUnits(b: seq<byte>, wide: bool): (u: seq<u16>)
    ensures |u| == if wide then |b| / 2 else |b|
    ensures !wide ==> forall i :: 0 <= i < |u| ==> u[i] == b[i]
    decreases |b|
  {
    if |b| < Span(wide, 1) then []
    else [FirstUnit(b, wide)] + DecodeUnits(b[Span(wide, 1)..], wide)
  }

  /** Units a width can hold: every unit, or for narrow ones those below 256. */
  predicate UnitsFit(u: seq<u16>, wide: bool)
  {
    wide || forall i :: 0 <= i < |u| ==> u[i] < 256
  }

  lemma {:induction false} UnitBytes(x: u16, wide: bool)
    requires wide || x < 256
    ensures FirstUnit(ToLE(x, if wide then 2 else 1), wide) == x
    ensures ToLE(x, if wide then 2 else 1) == if wide then [x % 256, x / 256] else [x]
  {
    var t := ToLE(x, if wide then 2 else 1);
    if wide {
      assert t == [x % 256] + ToLE(x / 256, 1);
      assert ToLE(x / 256, 1) == [(x / 256) % 256] + ToLE(x / 256 / 256, 0);
    } else {
      assert t == [x % 256] + ToLE(x / 256, 0);
    }
  }

  lemma {:induction false} DecodeEncode(u: seq<u16>, wide: bool)
    requires UnitsFit(u, wide)
    ensures DecodeUnits(EncodeUnits(u, wide), wide) == u
    decreases |u|
  {
    if u != [] {
      var b := EncodeUnits(u, wide);
      var h := ToLE(u[0], if wide then 2 else 1);
      assert b == h + EncodeUnits(u[1..], wide);
      assert b[Span(wide, 1)..] == EncodeUnits(u[1..], wide);
      UnitBytes(u[0], wide);
      assert FirstUnit(b, wide) == FirstUnit(h, wide);
      assert UnitsFit(u[1..], wide) by {
        assert forall i :: 1 <= i < |u| ==> u[1..][i - 1] == u[i];
      }
      DecodeEncode(u[1..], wide);
    }
  }

  /** The bytes the first unit of b is stored as are b's first bytes. */
  lemma FirstUnitBytes(b: seq<byte>, wide: bool)
    requires |b| >= Span(wide, 1)
    ensures ToLE(FirstUnit(b, wide), if wide then 2 else 1) == b[..Span(wide, 1)]
  {
    var x := FirstUnit(b, wide);
    UnitBytes(x, wide);
    if wide {
      assert x % 256 == b[0] && x / 256 == b[1];
    }
  }

  lemma {:induction false} EncodeDecode(b: seq<byte>, wide: bool)
    requires !wide || |b| % 2 == 0
    ensures EncodeUnits(DecodeUnits(b, wide), wide) == b
    decreases |b|
  {
    if |b| >= Span(wide, 1) {
      var n := Span(wide, 1);
      var u := DecodeUnits(b, wide);
      var x := FirstUnit(b, wide);
      assert u[0] == x && u[1..] == DecodeUnits(b[n..], wide);
      FirstUnitBytes(b, wide);
      EncodeDecode(b[n..], wide);
      assert EncodeUnits(u, wide) == b[..n] + EncodeUnits(u[1..], wide);
      assert b == b[..n] + b[n..];
    } else {
      assert b == [];
    }
  }

  lemma {:induction false} DecodeAppend(a: seq<byte>, c: seq<byte>, wide: bool)
    requires !wide || |a| % 2 == 0
    ensures DecodeUnits(a + c, wide) == DecodeUnits(a, wide) + DecodeUnits(c, wide)
    decreases |a|
  {
    if |a| >= Span(wide, 1) {
      var n := Span(wide, 1);
      assert (a + c)[n..] == a[n..] + c;
      assert FirstUnit(a + c, wide) == FirstUnit(a, wide);
      DecodeAppend(a[n..], c, wide);
    } else {
      assert a == [];
      assert a + c == c;
    }
  }

  /** The units before the first NUL: what a C string of them holds. */
  function CUnits(u: seq<u16>): (r: seq<u16>)
    ensures |r| <= |u| && r == u[..|r|]
    ensures forall i :: 0 <= i < |r| ==> r[i] != 0
  {
    u[..SrcLib.WLen(u)]
  }

  /** A NUL ends the C string, whatever follows it. */
  lemma CUnitsCut(x: seq<u16>, y: seq<u16>)
    ensures CUnits(x + [0] + y) == CUnits(x)
  {
    var z := x + [0] + y;
    var n := SrcLib.WLen(x);
    assert z[n] == 0;
    assert forall i :: 0 <= i < n ==> z[i] == x[i];
    assert z[..n] == x[..n];
  }

  /** Units without a NUL are their own C string. */
  lemma CUnitsWhole(u: seq<u16>)
    requires forall i :: 0 <= i < |u| ==> u[i] != 0
    ensures CUnits(u) == u
  {
  }

  // ---------------------------------------------------------------------------
  // Field_String_GetSet and Field_V_String_GetSet

  /** c is what a field of this kind and size holds: the characters and the flag, or a slot. */
  predicate Holds(k: Kind, size: nat, c: Content)
  {
    if k.isVar then c.Slot? else c.Bytes? && |c.b| == Span(k.wide, size) + 1
  }

  /** GetNull: the flag byte after the characters is set, or the slot holds null. */
  predicate GetNull(k: Kind, size: nat, c: Content)
    requires Holds(k, size, c)
  {
    if k.isVar then c.v.None? else c.b[Span(k.wide, size)] != 0
  }

  /**
   * GetVal: null, or the characters; in the record, those before the first
   * NUL (the flag byte ends them at the latest); in the var data, all of the
   * value, a last odd byte of a UTF-16 one dropped.
   */
  function GetVal(k: Kind, size: nat, c: Content): (v: Val<seq<u16>>)
    requires Holds(k, size, c)
    ensures v.isNull <==> GetNull(k, size, c)
    ensures v.isNull ==> v.value == []
    ensures !k.isVar ==> |v.value| <= size && forall i :: 0 <= i < |v.value| ==> v.value[i] != 0
    ensures UnitsFit(v.value, k.wide)
  {
    var n := Span(k.wide, size);
    if k.isVar then
      if c.v.None? then Val(true, []) else Val(false, DecodeUnits(c.v.value, k.wide))
    else if c.b[n] != 0 then Val(true, [])
    else Val(false, CUnits(DecodeUnits(c.b[..n], k.wide)))
  }

  /** GetAsBlob: the record bytes of the characters, or the var-data value; nothing for a null. */
  function GetAsBlob(k: Kind, size: nat, c: Content): (v: Val<seq<byte>>)
    requires Holds(k, size, c)
    ensures v.isNull <==> GetNull(k, size, c)
    ensures v.isNull ==> v.value == []
    ensures !v.isNull && !k.isVar ==> v.value == c.b[..Span(k.wide, size)]
    ensures !v.isNull && k.isVar ==> Some(v.value) == c.v
  {
    if GetNull(k, size, c) then Val(true, [])
    else if k.isVar then Val(false, c.v.value)
    else Val(false, c.b[..Span(k.wide, size)])
  }

  /** The characters SetVal copies into the record: all of them and a NUL when they are fewer than size, otherwise the first size. */
  function Written(size: nat, u: seq<u16>): (r: seq<u16>)
    ensures |r| <= size
    ensures |u| < size ==> r == u + [0]
    ensures |u| >= size ==> r == u[..size]
  {
    if |u| < size then u + [0] else u[..size]
  }

  /**
   * SetVal into the record: the flag byte cleared, the written characters
   * copied over the start, and the bytes between them left as they were.
   */
  function WriteFixed(k: Kind, size: nat, b: seq<byte>, u: seq<u16>): (r: seq<byte>)
    requires |b| == Span(k.wide, size) + 1
    ensures |r| == |b| && r[Span(k.wide, size)] == 0
    ensures var n := Span(k.wide, |Written(size, u)|);
      n <= Span(k.wide, size) && r[..n] == EncodeUnits(Written(size, u), k.wide)
      && r[n..Span(k.wide, size)] == b[n..Span(k.wide, size)]
  {
    var p := EncodeUnits(Written(size, u), k.wide);
    var m := Span(k.wide, size);
    var r := p + b[|p|..m] + [0];
    assert r[..|p|] == p && r[|p|..m] == b[|p|..m];
    r
  }

  /** The characters a message quotes: those before the first NUL, in the field's width. */
  function Quote(k: Kind, u: seq<u16>): Text
  {
    if k.wide then Wide(CUnits(u)) else Narrow(SrcLib.Narrowed(CUnits(u)))
  }

  /** What the truncation notice quotes: the input, or for a var field of more than 100 characters its first 97 and "...". */
  function TruncText(k: Kind, size: nat, u: seq<u16>): seq<u16>
  {
    if k.isVar && size > 100 && |u| >= 97 then u[..97] + ['.' as int, '.' as int, '.' as int] else u
  }

  /**
   * SetVal: at most size characters, flagged not null; more are reported as
   * truncated. In the record the rest of the field is left as it was after a
   * terminating NUL; in the var data the value is exactly the characters kept.
   */
  function SetVal(k: Kind, size: nat, c: Content, u: seq<u16>): (e: Effect)
    requires Holds(k, size, c)
    ensures Holds(k, size, e.store)
    ensures e.msgs == (if |u| > size then [Truncated(Quote(k, TruncText(k, size, u)))] else [])
    ensures k.isVar ==> e.store == Slot(Some(EncodeUnits(u[..Min(size, |u|)], k.wide)))
    ensures !k.isVar ==> e.store == Bytes(WriteFixed(k, size, c.b, u))
  {
    var msgs := if |u| > size then [Truncated(Quote(k, TruncText(k, size, u)))] else [];
    if k.isVar then Effect(Slot(Some(EncodeUnits(u[..Min(size, |u|)], k.wide))), msgs)
    else Effect(Bytes(WriteFixed(k, size, c.b, u)), msgs)
  }

  /** SetNull: the flag byte set and the characters kept, or the slot made null. */
  function SetNull(k: Kind, size: nat, c: Content): (r: Content)
    requires Holds(k, size, c)
    ensures Holds(k, size, r) && GetNull(k, size, r)
    ensures !k.isVar ==> r.b[..Span(k.wide, size)] == c.b[..Span(k.wide, size)] && r.b[Span(k.wide, size)] == 1
  {
    if k.isVar then Slot(None)
    else
      var r := c.b[..Span(k.wide, size)] + [1];
      assert r[..Span(k.wide, size)] == c.b[..Span(k.wide, size)];
      Bytes(r)
  }

  /** What SetVal stores, GetVal reads back: the characters kept, in the record up to a NUL among them. */
  lemma SetThenGet(k: Kind, size: nat, c: Content, u: seq<u16>)
    requires Holds(k, size, c) && UnitsFit(u, k.wide)
    ensures GetVal(k, size, SetVal(k, size, c, u).store) ==
      Val(false, if k.isVar then u[..Min(size, |u|)] else CUnits(u[..Min(size, |u|)]))
  {
    if k.isVar {
      DecodeEncode(u[..Min(size, |u|)], k.wide);
    } else {
      FixedSetThenGet(k, size, c, u);
    }
  }

  /** The record bytes SetVal writes decode to the written characters, then whatever the rest of the field held. */
  lemma FixedDecoded(k: Kind, size: nat, c: Content, u: seq<u16>)
    requires Holds(k, size, c) && !k.isVar && UnitsFit(u, k.wide)
    ensures var r := WriteFixed(k, size, c.b, u); var m := Span(k.wide, size); var n := Span(k.wide, |Written(size, u)|);
      n <= m && DecodeUnits(r[..m], k.wide) == Written(size, u) + DecodeUnits(r[n..m], k.wide)
  {
    var m := Span(k.wide, size);
    var wr := Written(size, u);
    var r := WriteFixed(k, size, c.b, u);
    var n := Span(k.wide, |wr|);
    assert UnitsFit(wr, k.wide);
    DecodeEncode(wr, k.wide);
    assert r[..m] == r[..n] + r[n..m];
    DecodeAppend(r[..n], r[n..m], k.wide);
  }

  /** In the record, GetVal reads back the characters up to the first NUL among those kept. */
  lemma FixedSetThenGet(k: Kind, size: nat, c: Content, u: seq<u16>)
    requires Holds(k, size, c) && !k.isVar && UnitsFit(u, k.wide)
    ensures GetVal(k, size, SetVal(k, size, c, u).store) == Val(false, CUnits(u[..Min(size, |u|)]))
  {
    var m := Span(k.wide, size);
    var r := WriteFixed(k, size, c.b, u);
    var n := Span(k.wide, |Written(size, u)|);
    FixedDecoded(k, size, c, u);
    var rest := DecodeUnits(r[n..m], k.wide);
    assert |u| >= size ==> rest == [] by {
      if |u| >= size {
        assert r[n..m] == [];
      }
    }
    WrittenCut(size, u, rest);
    assert GetVal(k, size, SetVal(k, size, c, u).store) == Val(false, CUnits(DecodeUnits(r[..m], k.wide)));
  }

  /** The C string of the written characters and what follows them is that of the characters kept. */
  lemma WrittenCut(size: nat, u: seq<u16>, rest: seq<u16>)
    requires |u| >= size ==> rest == []
    ensures CUnits(Written(size, u) + rest) == CUnits(u[..Min(size, |u|)])
  {
    if |u| < size {
      assert Written(size, u) + rest == u + [0] + rest;
      CUnitsCut(u, rest);
      assert u[..Min(size, |u|)] == u;
    } else {
      assert Written(size, u) + rest == u[..size];
    }
  }

  /** SetNull makes the field read as null, and so does nothing but set its flag. */
  lemma NullRead(k: Kind, size: nat, c: Content)
    requires Holds(k, size, c)
    ensures GetVal(k, size, SetNull(k, size, c)) == Val(true, [])
    ensures GetAsBlob(k, size, SetNull(k, size, c)) == Val(true, [])
  {
  }

  // ---------------------------------------------------------------------------
  // Narrowing

  /** Every unit is Latin-1, so narrowing loses nothing. */
  predicate AllLatin(u: seq<u16>)
  {
    forall i :: 0 <= i < |u| ==> u[i] < 256
  }

  /** Latin-1 units narrowed and widened again are themselves. */
  lemma LatinUnits(u: seq<u16>)
    requires AllLatin(u)
    ensures SrcLib.Widened(SrcLib.Narrowed(u)) == u
  {
    var r := SrcLib.Widened(SrcLib.Narrowed(u));
    forall i | 0 <= i < |u| ensures r[i] == u[i] {
      assert SrcLib.Narrowed(u)[i] == u[i] as char;
    }
  }

  /**
   * DoConvertString into an AString: each unit from 256 on becomes '?', and
   * when there was one the value is reported as not fully converted.
   */
  function DoConvertString(u: seq<u16>): (r: (string, seq<Msg>))
    ensures |r.0| == |u|
    ensures r.1 == (if AllLatin(u) then [] else [WideToNarrow(CUnits(u))])
  {
    (SrcLib.Narrowed(u), if AllLatin(u) then [] else [WideToNarrow(CUnits(u))])
  }

  /** The character loop of DoConvertString. */
  method NarrowLoop(u: seq<u16>) returns (s: string, lossy: bool)
    ensures (s, if lossy then [WideToNarrow(CUnits(u))] else []) == DoConvertString(u)
  {
    var buf := new char[|u|](_ => '\0');
    lossy := false;
    for x := 0 to |u|
      invariant forall i :: 0 <= i < x ==> buf[i] == SrcLib.NarrowUnit(u[i])
      invariant lossy <==> exists i :: 0 <= i < x && u[i] >= 256
    {
      if u[x] >= 256 {
        buf[x] := '?';
        lossy := true;
      } else {
        buf[x] := u[x] as char;
      }
    }
    s := buf[..];
    assert s == SrcLib.Narrowed(u);
  }

  // ---------------------------------------------------------------------------
  // Getters

  /** GetVal1stChar: the first byte of the value (NUL for an empty one), for a UTF-16 field the low byte of its first unit. */
  function FirstByte(k: Kind, size: nat, c: Content): (v: Val<byte>)
    requires Holds(k, size, c)
    ensures v.isNull <==> GetNull(k, size, c)
  {
    if GetNull(k, size, c) then Val(true, 0)
    else if k.isVar then Val(false, if |c.v.value| > 0 then c.v.value[0] else 0)
    else Val(false, c.b[0])
  }

  /** GetAsBool: Field_Bool::TestChar of that byte as a sign-extended char. */
  function GetAsBool(k: Kind, size: nat, c: Content): (v: Val<bool>)
    requires Holds(k, size, c)
    ensures v.isNull <==> GetNull(k, size, c)
    ensures v.isNull ==> !v.value
  {
    var b := FirstByte(k, size, c);
    Val(b.isNull, !b.isNull && FieldBool.TestChar(FieldBool.CharUnit(b.value as char)))
  }

  /** When the value's first character is ASCII, GetAsBool is TestChar of it, NUL for an empty value. */
  lemma BoolOfFirstChar(k: Kind, size: nat, c: Content)
    requires Holds(k, size, c) && !GetNull(k, size, c)
    requires k.isVar && k.wide ==> |c.v.value| % 2 == 0
    requires SrcLib.WAt(GetVal(k, size, c).value, 0) < 128
    ensures GetAsBool(k, size, c).value == FieldBool.TestChar(SrcLib.WAt(GetVal(k, size, c).value, 0))
  {
    if k.isVar {
      VarFirstByte(k, size, c);
    } else {
      FixedFirstByte(k, size, c);
    }
  }

  /** In the var data, the first byte is the low byte of the first unit read. */
  lemma VarFirstByte(k: Kind, size: nat, c: Content)
    requires Holds(k, size, c) && !GetNull(k, size, c) && k.isVar
    requires k.wide ==> |c.v.value| % 2 == 0
    requires SrcLib.WAt(GetVal(k, size, c).value, 0) < 128
    ensures FirstByte(k, size, c).value == SrcLib.WAt(GetVal(k, size, c).value, 0)
  {
    var v := c.v.value;
    if |v| >= Span(k.wide, 1) {
      assert GetVal(k, size, c).value[0] == FirstUnit(v, k.wide);
    }
  }

  /** In the record, the first byte is the low byte of the first unit, NUL when the characters are empty. */
  lemma FixedFirstByte(k: Kind, size: nat, c: Content)
    requires Holds(k, size, c) && !GetNull(k, size, c) && !k.isVar
    requires SrcLib.WAt(GetVal(k, size, c).value, 0) < 128
    ensures FirstByte(k, size, c).value == SrcLib.WAt(GetVal(k, size, c).value, 0)
  {
    var m := Span(k.wide, size);
    var d := DecodeUnits(c.b[..m], k.wide);
    if |d| > 0 {
      assert d[0] == FirstUnit(c.b[..m], k.wide);
      if d[0] != 0 {
        assert GetVal(k, size, c).value[0] == d[0];
      }
    }
  }

  /** The characters as the number parsers read them. */
  function Chars(k: Kind, u: seq<u16>): (s: string)
    ensures |s| == |u|
  {
    if k.wide then View(u) else SrcLib.Narrowed(u)
  }

  /** The base the integer getters pass: 16 when the text starts with 0x or 0X, else 10. */
  function BaseOf(s: string): (b: int)
    ensures b == 10 || b == 16
  {
    if StringHelper.At(s, 0) == '0' && (StringHelper.At(s, 1) == 'x' || StringHelper.At(s, 1) == 'X') then 16 else 10
  }

  /**
   * CheckNumberConvError: whether the value reads as null, and what is
   * reported, for n characters whose parse ended at end. ERANGE reports that
   * the text does not fit; no number (or no text) reads as null; text left
   * over is reported and the value kept.
   */
  function CheckNumberConvError(q: Text, s: string, n: nat, erange: bool, end: nat, w64: bool): (r: (bool, seq<Msg>))
    ensures r.0 <==> erange || n == 0 || end == 0
    ensures erange ==> r.1 == [DoesNotFitInt(q, w64)]
    ensures !erange && (n == 0 || end == n) ==> r.1 == []
    ensures !erange && n > 0 && end == 0 ==> r.1 == [NotANumber(q)]
    ensures !erange && n > 0 && 0 < end && end != n ==>
      r.1 == [if StringHelper.At(s, end) == ',' then StoppedAtComma(q) else LostInformation(q)]
  {
    if erange then (true, [DoesNotFitInt(q, w64)])
    else if end != n || n == 0 then
      if end == 0 || n == 0 then (true, if n > 0 then [NotANumber(q)] else [])
      else if StringHelper.At(s, end) == ',' then (false, [StoppedAtComma(q)])
      else (false, [LostInformation(q)])
    else (false, [])
  }

  /**
   * glibc strtol on a narrow C string, into a 64-bit long: C-locale white
   * space, a sign, 0x in base 16, then digits, saturating with ERANGE; with
   * no digit endptr is the start, except that a 0x with no hex digit after it
   * reads as its 0. (After an overflow endptr lies at the first digit that
   * did not fit; CheckNumberConvError does not look at it then.)
   */
  function Strtol(s: string, base: int): (p: Parsed)
    requires base == 10 || base == 16
    ensures p.end.Some? && MinOf(W64) <= p.value <= MaxOf(W64)
    ensures p.end.value == 0 ==> p == Parsed(0, Some(0), false)
  {
    var pre := ParsePrefix(s, base, true);
    StrToNumInRange(s, base, W64, true);
    EndPtrAdvances(s, base, W64, true);
    if HasNumber(s, base, true) then StrToNum(s, base, W64, true)
    else if base == 16 && pre.start >= 1 && (StringHelper.At(s, pre.start - 1) == 'x' || StringHelper.At(s, pre.start - 1) == 'X') then
      Parsed(0, Some(pre.start - 1), false)
    else Parsed(0, Some(0), false)
  }

  /** A long assigned to an int: its low 32 bits, read signed. */
  function ToInt(v: int): (r: int)
    ensures MinOf(W32) <= r <= MaxOf(W32)
    ensures (r - v) % 0x1_0000_0000 == 0
    ensures MinOf(W32) <= v <= MaxOf(W32) ==> r == v
  {
    assert Pow256(4) == 0x1_0000_0000;
    var m := v % 0x1_0000_0000;
    assert (m - v) % 0x1_0000_0000 == 0;
    ToSigned(m, 4)
  }

  /** A getter's result from its value, the parse and where the parse ended. */
  function Convert(k: Kind, u: seq<u16>, value: int, erange: bool, end: nat, w64: bool): Got<int>
  {
    var r := CheckNumberConvError(Quote(k, u), Chars(k, u), |u|, erange, end, w64);
    Got(Val(r.0, value), r.1)
  }

  /** The narrow GetAsInt32 as written: strtol's long is assigned to an int, wrapping silently outside the int range. */
  function NarrowInt32AsWritten(k: Kind, u: seq<u16>): Got<int>
  {
    var s := Chars(k, u);
    var p := Strtol(s, BaseOf(s));
    Convert(k, u, ToInt(p.value), p.erange, p.end.value, false)
  }

  /** The narrow GetAsInt32 corrected: a long outside the int range is treated like ERANGE. */
  function NarrowInt32(k: Kind, u: seq<u16>): Got<int>
  {
    var s := Chars(k, u);
    var p := Strtol(s, BaseOf(s));
    Convert(k, u, ToInt(p.value), p.erange || !(MinOf(W32) <= p.value <= MaxOf(W32)), p.end.value, false)
  }

  /**
   * sh_strtoi / sh_strtoi64 on the characters: the value and endptr as
   * TstrtoNum leaves them, or saturated and where strtol would leave it.
   */
  function ViaTstrtoNum(k: Kind, u: seq<u16>, w: IntWidth, asWritten: bool): (g: Got<int>)
    ensures MinOf(w) <= g.val.value <= MaxOf(w)
  {
    var s := Chars(k, u);
    var base := BaseOf(s);
    StrToNumInRange(s, base, w, k.wide);
    var p := if asWritten then StrToNumAsWritten(s, base, w, k.wide) else StrToNum(s, base, w, k.wide);
    var end := if asWritten then EndPtrAsWritten(s, base, w, k.wide) else EndPtr(s, base, w, k.wide);
    Convert(k, u, p.value, p.erange, end, w == W64)
  }

  /** GetAsInt32 as written: strtol for narrow fields, sh_strtoi for UTF-16 ones. */
  function GetAsInt32AsWritten(k: Kind, size: nat, c: Content): (g: Got<int>)
    requires Holds(k, size, c)
    ensures GetNull(k, size, c) ==> g == Got(Val(true, 0), [])
    ensures MinOf(W32) <= g.val.value <= MaxOf(W32)
  {
    var v := GetVal(k, size, c);
    if v.isNull then Got(Val(true, 0), [])
    else if k.wide then ViaTstrtoNum(k, v.value, W32, true)
    else NarrowInt32AsWritten(k, v.value)
  }

  /**
   * GetAsInt32 with both endpoint corrections: a narrow number outside the
   * int range, and a text without digits, read as null and are reported.
   */
  function GetAsInt32(k: Kind, size: nat, c: Content): (g: Got<int>)
    requires Holds(k, size, c)
    ensures GetNull(k, size, c) ==> g == Got(Val(true, 0), [])
    ensures MinOf(W32) <= g.val.value <= MaxOf(W32)
  {
    var v := GetVal(k, size, c);
    if v.isNull then Got(Val(true, 0), [])
    else if k.wide then
      StrToNumInRange(Chars(k, v.value), BaseOf(Chars(k, v.value)), W32, true);
      ViaTstrtoNum(k, v.value, W32, false)
    else NarrowInt32(k, v.value)
  }

  /** GetAsInt64 as written: sh_strtoi64 in either width. */
  function GetAsInt64AsWritten(k: Kind, size: nat, c: Content): (g: Got<int>)
    requires Holds(k, size, c)
    ensures GetNull(k, size, c) ==> g == Got(Val(true, 0), [])
    ensures MinOf(W64) <= g.val.value <= MaxOf(W64)
  {
    var v := GetVal(k, size, c);
    if v.isNull then Got(Val(true, 0), []) else ViaTstrtoNum(k, v.value, W64, true)
  }

  /** GetAsInt64: sh_strtoi64 in either width, endptr corrected. */
  function GetAsInt64(k: Kind, size: nat, c: Content): (g: Got<int>)
    requires Holds(k, size, c)
    ensures GetNull(k, size, c) ==> g == Got(Val(true, 0), [])
    ensures MinOf(W64) <= g.val.value <= MaxOf(W64)
  {
    var v := GetVal(k, size, c);
    if v.isNull then Got(Val(true, 0), [])
    else
      StrToNumInRange(Chars(k, v.value), BaseOf(Chars(k, v.value)), W64, k.wide);
      ViaTstrtoNum(k, v.value, W64, false)
  }

  /** GetAsAString: a narrow value as it is; a UTF-16 one through DoConvertString. */
  function GetAsAString(k: Kind, size: nat, c: Content): (g: Got<string>)
    requires Holds(k, size, c)
    ensures g.val.isNull <==> GetNull(k, size, c)
    ensures g.val.value == SrcLib.Narrowed(GetVal(k, size, c).value)
    ensures g.msgs != [] <==> k.wide && !AllLatin(GetVal(k, size, c).value)
  {
    var v := GetVal(k, size, c);
    if !k.wide then Got(Val(v.isNull, SrcLib.Narrowed(v.value)), [])
    else
      var d := DoConvertString(v.value);
      Got(Val(v.isNull, d.0), d.1)
  }

  /** GetAsWString: a UTF-16 value as it is; a narrow one widened, empty when it starts with NUL. */
  function GetAsWString(k: Kind, size: nat, c: Content): (v: Val<seq<u16>>)
    requires Holds(k, size, c)
    ensures v.isNull <==> GetNull(k, size, c)
    ensures k.wide ==> v == GetVal(k, size, c)
    ensures !k.wide ==> v.value == (if SrcLib.WAt(GetVal(k, size, c).value, 0) == 0 then [] else GetVal(k, size, c).value)
  {
    var v := GetVal(k, size, c);
    if k.wide then v
    else
      LatinUnits(v.value);
      Val(v.isNull, if SrcLib.WAt(v.value, 0) == 0 then [] else SrcLib.Widened(SrcLib.Narrowed(v.value)))
  }

  /** GetAsSpatialBlob without the GeoJSON codec: always null, after the narrowing GetAsAString reports. */
  function GetAsSpatialBlob(k: Kind, size: nat, c: Content): (g: Got<seq<byte>>)
    requires Holds(k, size, c)
    ensures g.val.isNull && g.val.value == []
    ensures g.msgs == GetAsAString(k, size, c).msgs
  {
    Got(Val(true, []), GetAsAString(k, size, c).msgs)
  }

  // ---------------------------------------------------------------------------
  // Setters

  /**
   * The characters a field stores for a text and what converting it
   * reports: narrow text byte by byte, UTF-16 text as it is into a UTF-16
   * field, and into a narrow field through DoConvertString.
   */
  function UnitsOf(k: Kind, t: Text): (r: (seq<u16>, seq<Msg>))
    ensures UnitsFit(r.0, k.wide)
    ensures |r.0| == TextLen(t)
  {
    match t
    case Narrow(s) => (SrcLib.Widened(s), [])
    case Wide(w) =>
      if k.wide then (w, [])
      else
        var d := DoConvertString(w);
        (SrcLib.Widened(d.0), d.1)
  }

  function TextLen(t: Text): nat
  {
    match t
    case Narrow(s) => |s|
    case Wide(w) => |w|
  }

  /** SetFromString in either width: the conversion's report, then SetVal's. */
  function SetFromString(k: Kind, size: nat, c: Content, t: Text): (e: Effect)
    requires Holds(k, size, c)
    ensures Holds(k, size, e.store)
    ensures e == (var r := UnitsOf(k, t); var f := SetVal(k, size, c, r.0); Effect(f.store, r.1 + f.msgs))
  {
    var r := UnitsOf(k, t);
    var f := SetVal(k, size, c, r.0);
    Effect(f.store, r.1 + f.msgs)
  }

  /** SetFromInt32: the decimal text of the value. */
  function SetFromInt32(k: Kind, size: nat, c: Content, v: int): (e: Effect)
    requires Holds(k, size, c) && MinOf(W32) <= v <= MaxOf(W32)
    ensures Holds(k, size, e.store)
  {
    SetVal(k, size, c, SrcLib.Widened(IntText(v, W32, 10)))
  }

  function SetFromInt64(k: Kind, size: nat, c: Content, v: int): (e: Effect)
    requires Holds(k, size, c) && MinOf(W64) <= v <= MaxOf(W64)
    ensures Holds(k, size, e.store)
  {
    SetVal(k, size, c, SrcLib.Widened(IntText(v, W64, 10)))
  }

  /**
   * SetFromBlob: the bytes as characters (an odd last byte of UTF-16
   * dropped). A blob without a pointer stores null in the var data, and an
   * empty string in the record.
   */
  function SetFromBlob(k: Kind, size: nat, c: Content, blob: Option<seq<byte>>): (e: Effect)
    requires Holds(k, size, c)
    ensures Holds(k, size, e.store)
    ensures blob.None? && k.isVar ==> e == Effect(Slot(None), [])
  {
    if blob.None? then
      if k.isVar then Effect(Slot(None), []) else SetVal(k, size, c, [])
    else SetVal(k, size, c, DecodeUnits(blob.value, k.wide))
  }

  /** SetFromSpatialBlob without the GeoJSON codec: SetNull. */
  function SetFromSpatialBlob(k: Kind, size: nat, c: Content): (e: Effect)
    requires Holds(k, size, c)
    ensures e == Effect(SetNull(k, size, c), [])
  {
    Effect(SetNull(k, size, c), [])
  }

  // ---------------------------------------------------------------------------
  // Round trips

  /** Narrow text widened byte by byte holds no NUL unit when the text holds no NUL. */
  lemma WidenedNoNul(s: string)
    requires SrcLib.NoNul(s) && forall i :: 0 <= i < |s| ==> s[i] as int < 256
    ensures forall i :: 0 <= i < |SrcLib.Widened(s)| ==> SrcLib.Widened(s)[i] != 0
    ensures AllLatin(SrcLib.Widened(s)) && SrcLib.Narrowed(SrcLib.Widened(s)) == s
  {
    SrcLib.LatinRoundTrip(s);
  }

  /** Narrow text without NUL that fits is stored without a message and read back unchanged, in either width. */
  lemma NarrowTextRoundTrip(k: Kind, size: nat, c: Content, s: string)
    requires Holds(k, size, c) && |s| <= size
    requires SrcLib.NoNul(s) && forall i :: 0 <= i < |s| ==> s[i] as int < 256
    ensures SetFromString(k, size, c, Narrow(s)).msgs == []
    ensures GetAsAString(k, size, SetFromString(k, size, c, Narrow(s)).store) == Got(Val(false, s), [])
  {
    var u := SrcLib.Widened(s);
    WidenedNoNul(s);
    var e := SetFromString(k, size, c, Narrow(s));
    assert e.store == SetVal(k, size, c, u).store && e.msgs == [] by {
      assert UnitsOf(k, Narrow(s)) == (u, []);
    }
    assert GetVal(k, size, e.store) == Val(false, u) by {
      SetThenGet(k, size, c, u);
      CUnitsWhole(u);
      assert u[..Min(size, |u|)] == u;
    }
  }

  /** UTF-16 text without NUL that fits a UTF-16 field is read back unchanged. */
  lemma WideTextRoundTrip(k: Kind, size: nat, c: Content, w: seq<u16>)
    requires Holds(k, size, c) && k.wide && |w| <= size
    requires forall i :: 0 <= i < |w| ==> w[i] != 0
    ensures SetFromString(k, size, c, Wide(w)).msgs == []
    ensures GetAsWString(k, size, SetFromString(k, size, c, Wide(w)).store) == Val(false, w)
  {
    SetThenGet(k, size, c, w);
    CUnitsWhole(w);
    assert w[..Min(size, |w|)] == w;
  }

  /**
   * UTF-16 text put into a narrow field: every unit from 256 on is stored as
   * '?', which is reported once; what it reads back as UTF-16 is the text
   * exactly when there was no such unit.
   */
  lemma WideIntoNarrow(k: Kind, size: nat, c: Content, w: seq<u16>)
    requires Holds(k, size, c) && !k.wide && |w| <= size
    requires forall i :: 0 <= i < |w| ==> w[i] != 0
    ensures SetFromString(k, size, c, Wide(w)).msgs == (if AllLatin(w) then [] else [WideToNarrow(w)])
    ensures GetAsAString(k, size, SetFromString(k, size, c, Wide(w)).store) == Got(Val(false, SrcLib.Narrowed(w)), [])
    ensures GetAsWString(k, size, SetFromString(k, size, c, Wide(w)).store).value == w <==> AllLatin(w)
  {
    var n := SrcLib.Narrowed(w);
    var u := SrcLib.Widened(n);
    assert forall i :: 0 <= i < |n| ==> n[i] as int < 256 && n[i] != '\0';
    WidenedNoNul(n);
    CUnitsWhole(w);
    SetThenGet(k, size, c, u);
    CUnitsWhole(u);
    assert u[..Min(size, |u|)] == u;
    SrcLib.NarrowLossless(w);
    LatinUnits(u);
  }

  /** The decimal text of a value, as units: no NUL, only digits and a sign, and read in base 10. */
  lemma DecimalUnits(v: int, w: IntWidth)
    requires MinOf(w) <= v <= MaxOf(w)
    ensures var t := IntText(v, w, 10); var u := SrcLib.Widened(t);
      CUnits(u) == u && AllLatin(u) && SrcLib.Narrowed(u) == t && View(u) == t && BaseOf(t) == 10 && |t| > 0
  {
    var t := IntText(v, w, 10);
    var u := SrcLib.Widened(t);
    DecimalAscii(v, w);
    IntTextShort(v, w);
    WidenedNoNul(t);
    CUnitsWhole(u);
    ViewWidened(t);
    DecimalHasNumber(v, w, true);
  }

  /** The parse of a decimal text: the value, to the end, without ERANGE, in either width and either character set. */
  lemma DecimalParse(v: int, w: IntWidth, wide: bool)
    requires MinOf(w) <= v <= MaxOf(w)
    ensures var t := IntText(v, w, 10);
      StrToNum(t, 10, w, wide) == Parsed(v, Some(|t|), false)
      && StrToNumAsWritten(t, 10, w, wide) == Parsed(v, Some(|t|), false)
      && EndPtr(t, 10, w, wide) == |t| && EndPtrAsWritten(t, 10, w, wide) == |t|
  {
    DecimalRoundTrip(v, w, wide);
    DecimalHasNumber(v, w, wide);
  }

  /** SetFromInt32 with room for the text: GetAsInt32 and GetAsInt64 read the same value back, without a message. */
  lemma Int32RoundTrip(k: Kind, size: nat, c: Content, v: int)
    requires Holds(k, size, c) && MinOf(W32) <= v <= MaxOf(W32) && |IntText(v, W32, 10)| <= size
    ensures SetFromInt32(k, size, c, v).msgs == []
    ensures GetAsInt32(k, size, SetFromInt32(k, size, c, v).store) == Got(Val(false, v), [])
    ensures GetAsInt64(k, size, SetFromInt32(k, size, c, v).store) == Got(Val(false, v), [])
    ensures GetAsInt32AsWritten(k, size, SetFromInt32(k, size, c, v).store) == Got(Val(false, v), [])
    ensures GetAsInt64AsWritten(k, size, SetFromInt32(k, size, c, v).store) == Got(Val(false, v), [])
  {
    var t := IntText(v, W32, 10);
    var u := SrcLib.Widened(t);
    DecimalUnits(v, W32);
    SetThenGet(k, size, c, u);
    assert u[..Min(size, |u|)] == u;
    var e := SetFromInt32(k, size, c, v).store;
    assert GetVal(k, size, e) == Val(false, u);
    HeldInt32(k, size, e, v);
    HeldInt32Wide(k, size, e, v);
  }

  /** A field holding the decimal text of an int reads it back as an int. */
  lemma HeldInt32(k: Kind, size: nat, e: Content, v: int)
    requires Holds(k, size, e) && MinOf(W32) <= v <= MaxOf(W32)
    requires GetVal(k, size, e) == Val(false, SrcLib.Widened(IntText(v, W32, 10)))
    ensures GetAsInt32(k, size, e) == Got(Val(false, v), [])
    ensures GetAsInt32AsWritten(k, size, e) == Got(Val(false, v), [])
  {
    var t := IntText(v, W32, 10);
    DecimalUnits(v, W32);
    assert Chars(k, SrcLib.Widened(t)) == t;
    DecimalSameWidth(v);
    if k.wide {
      DecimalParse(v, W32, true);
    } else {
      DecimalParse(v, W64, true);
    }
  }

  /** ... and as a 64-bit integer. */
  lemma HeldInt32Wide(k: Kind, size: nat, e: Content, v: int)
    requires Holds(k, size, e) && MinOf(W32) <= v <= MaxOf(W32)
    requires GetVal(k, size, e) == Val(false, SrcLib.Widened(IntText(v, W32, 10)))
    ensures GetAsInt64(k, size, e) == Got(Val(false, v), [])
    ensures GetAsInt64AsWritten(k, size, e) == Got(Val(false, v), [])
  {
    var t := IntText(v, W32, 10);
    DecimalUnits(v, W32);
    assert Chars(k, SrcLib.Widened(t)) == t;
    DecimalSameWidth(v);
    DecimalParse(v, W64, k.wide);
  }

  /** SetFromInt64 with room for the text: GetAsInt64 reads the same value back, without a message. */
  lemma Int64RoundTrip(k: Kind, size: nat, c: Content, v: int)
    requires Holds(k, size, c) && MinOf(W64) <= v <= MaxOf(W64) && |IntText(v, W64, 10)| <= size
    ensures SetFromInt64(k, size, c, v).msgs == []
    ensures GetAsInt64(k, size, SetFromInt64(k, size, c, v).store) == Got(Val(false, v), [])
    ensures GetAsInt64AsWritten(k, size, SetFromInt64(k, size, c, v).store) == Got(Val(false, v), [])
  {
    var t := IntText(v, W64, 10);
    var u := SrcLib.Widened(t);
    DecimalUnits(v, W64);
    SetThenGet(k, size, c, u);
    assert u[..Min(size, |u|)] == u;
    assert Chars(k, u) == t;
    DecimalParse(v, W64, k.wide);
  }

  /**
   * As written, the decimal text of a 64-bit value outside the int range
   * reads from a narrow field as an int silently wrapped to its low 32 bits;
   * corrected, it reads as null with the report that it does not fit.
   */
  lemma NarrowWrapsAsWritten(k: Kind, size: nat, c: Content, v: int)
    requires Holds(k, size, c) && !k.wide
    requires MinOf(W64) <= v <= MaxOf(W64) && !(MinOf(W32) <= v <= MaxOf(W32)) && |IntText(v, W64, 10)| <= size
    ensures GetAsInt32AsWritten(k, size, SetFromInt64(k, size, c, v).store) == Got(Val(false, ToInt(v)), [])
    ensures GetAsInt32(k, size, SetFromInt64(k, size, c, v).store) ==
      Got(Val(true, ToInt(v)), [DoesNotFitInt(Narrow(IntText(v, W64, 10)), false)])
  {
    var t := IntText(v, W64, 10);
    var u := SrcLib.Widened(t);
    DecimalUnits(v, W64);
    SetThenGet(k, size, c, u);
    assert u[..Min(size, |u|)] == u;
    assert Chars(k, u) == t;
    DecimalParse(v, W64, true);
  }

  /** For instance 4294967297 reads as 1 and 2147483648 as -2147483648. */
  lemma WrapExamples()
    ensures ToInt(4294967297) == 1 && ToInt(2147483648) == -2147483648
  {
  }

  /** A blob read from a field and set into one of the same kind and size reproduces the first field's content. */
  lemma BlobRoundTrip(k: Kind, size: nat, c: Content, d: Content)
    requires Holds(k, size, c) && Holds(k, size, d) && !GetNull(k, size, c)
    requires k.isVar ==> |c.v.value| <= Span(k.wide, size) && (k.wide ==> |c.v.value| % 2 == 0)
    ensures SetFromBlob(k, size, d, Some(GetAsBlob(k, size, c).value)) == Effect(c, [])
  {
    if k.isVar {
      VarBlobRoundTrip(k, size, c, d);
    } else {
      FixedBlobRoundTrip(k, size, c, d);
    }
  }

  lemma VarBlobRoundTrip(k: Kind, size: nat, c: Content, d: Content)
    requires Holds(k, size, c) && Holds(k, size, d) && !GetNull(k, size, c) && k.isVar
    requires |c.v.value| <= Span(k.wide, size) && (k.wide ==> |c.v.value| % 2 == 0)
    ensures SetFromBlob(k, size, d, Some(c.v.value)) == Effect(c, [])
  {
    var b := c.v.value;
    var u := DecodeUnits(b, k.wide);
    EncodeDecode(b, k.wide);
    assert u[..Min(size, |u|)] == u;
  }

  lemma FixedBlobRoundTrip(k: Kind, size: nat, c: Content, d: Content)
    requires Holds(k, size, c) && Holds(k, size, d) && !GetNull(k, size, c) && !k.isVar
    ensures SetFromBlob(k, size, d, Some(c.b[..Span(k.wide, size)])) == Effect(c, [])
  {
    var b := c.b[..Span(k.wide, size)];
    var u := DecodeUnits(b, k.wide);
    EncodeDecode(b, k.wide);
    assert |u| == size && Written(size, u) == u;
    assert c.b == b + [0];
  }

  /** A single blank set into a UTF-16 field reads back as that blank. */
  lemma BlankStored(k: Kind, size: nat, c: Content)
    requires Holds(k, size, c) && k.wide && size >= 1
    ensures var e := SetFromString(k, size, c, Wide([' ' as int])).store;
      GetVal(k, size, e) == Val(false, [' ' as int]) && Chars(k, [' ' as int]) == " "
  {
    var u: seq<u16> := [' ' as int];
    SetThenGet(k, size, c, u);
    CUnitsWhole(u);
    assert u[..Min(size, |u|)] == u;
    var t := Chars(k, u);
    assert t == " " by { assert t[0] == UnitChar(' ' as int); }
  }

  /**
   * As written, a UTF-16 field holding a single blank reads as the int 0
   * without a message, since sh_strtoi leaves endptr past the blank; with
   * strtol's endpoint it reads as null and is reported as not a number.
   */
  lemma BlankAsWritten(k: Kind, size: nat, c: Content)
    requires Holds(k, size, c) && k.wide && size >= 1
    ensures var e := SetFromString(k, size, c, Wide([' ' as int])).store;
      GetAsInt32AsWritten(k, size, e) == Got(Val(false, 0), [])
      && GetAsInt32(k, size, e) == Got(Val(true, 0), [NotANumber(Wide([' ' as int]))])
  {
    BlankStored(k, size, c);
    var e := SetFromString(k, size, c, Wide([' ' as int])).store;
    BlankReadAsWritten(k, size, e);
    BlankRead(k, size, e);
  }

  lemma BlankReadAsWritten(k: Kind, size: nat, e: Content)
    requires Holds(k, size, e) && k.wide && GetVal(k, size, e) == Val(false, [' ' as int]) && Chars(k, [' ' as int]) == " "
    ensures GetAsInt32AsWritten(k, size, e) == Got(Val(false, 0), [])
  {
    assert SkipSpace(" ", 1, true) == 1;
    assert SkipSpace(" ", 0, true) == 1;
  }

  lemma BlankRead(k: Kind, size: nat, e: Content)
    requires Holds(k, size, e) && k.wide && GetVal(k, size, e) == Val(false, [' ' as int]) && Chars(k, [' ' as int]) == " "
    ensures GetAsInt32(k, size, e) == Got(Val(true, 0), [NotANumber(Wide([' ' as int]))])
  {
    CUnitsWhole([' ' as int]);
    var t := Chars(k, [' ' as int]);
    assert SkipSpace(t, 1, true) == 1;
    assert SkipSpace(t, 0, true) == 1;
  }

  // ---------------------------------------------------------------------------
  // Text left after the number

  /** The texts the examples below read: "12" and then a character that is no digit. */
  predicate TwelveThen(s: string)
  {
    s == "12abc" || s == "12,5"
  }

  /** The digit loop over "12" followed by a non-digit stops there with 12. */
  lemma ScanTwelve(s: string, w: IntWidth)
    requires TwelveThen(s)
    ensures Scan(s, 0, 10, Lim(w), 0) == ScanResult(12, 2, false)
  {
    assert s[0] == '1' && s[1] == '2' && !IsDigitIn(s[2], 10);
    assert Scan(s, 2, 10, Lim(w), 12) == ScanResult(12, 2, false);
    assert Scan(s, 1, 10, Lim(w), 1) == Scan(s, 2, 10, Lim(w), 12);
  }

  /** Every parse of such a text reads 12 and stops before its third character, without ERANGE. */
  lemma ParseTwelve(s: string, w: IntWidth, wide: bool)
    requires TwelveThen(s)
    ensures BaseOf(s) == 10
    ensures StrToNum(s, 10, w, wide) == Parsed(12, Some(2), false)
    ensures StrToNumAsWritten(s, 10, w, wide) == Parsed(12, Some(2), false)
    ensures EndPtr(s, 10, w, wide) == 2 && EndPtrAsWritten(s, 10, w, wide) == 2
    ensures Strtol(s, 10) == Parsed(12, Some(2), false)
  {
    assert SkipSpace(s, 0, wide) == 0;
    assert SkipSpace(s, 0, true) == 0;
    ScanTwelve(s, w);
    ScanTwelve(s, W64);
  }

  /** The characters of such a text, in either width: no NUL, Latin-1, read back as the text. */
  lemma TwelveUnits(k: Kind, s: string)
    requires TwelveThen(s)
    ensures var u := SrcLib.Widened(s);
      CUnits(u) == u && Chars(k, u) == s && |u| == |s|
      && Quote(k, u) == if k.wide then Wide(u) else Narrow(s)
  {
    var u := SrcLib.Widened(s);
    WidenedNoNul(s);
    CUnitsWhole(u);
    ViewWidened(s);
  }

  /**
   * Text left after the number keeps the value and is reported, in either
   * width and through either integer getter, as written and corrected:
   * "12abc" reads as 12 with the report that information was lost, "12,5"
   * as 12 with the report that the conversion stopped at a comma.
   */
  lemma TrailingText(k: Kind, size: nat, e: Content, s: string)
    requires Holds(k, size, e) && TwelveThen(s)
    requires GetVal(k, size, e) == Val(false, SrcLib.Widened(s))
    ensures var q := if k.wide then Wide(SrcLib.Widened(s)) else Narrow(s);
      var m := if s == "12abc" then LostInformation(q) else StoppedAtComma(q);
      GetAsInt32(k, size, e) == Got(Val(false, 12), [m])
      && GetAsInt32AsWritten(k, size, e) == Got(Val(false, 12), [m])
      && GetAsInt64(k, size, e) == Got(Val(false, 12), [m])
      && GetAsInt64AsWritten(k, size, e) == Got(Val(false, 12), [m])
  {
    TwelveUnits(k, s);
    ParseTwelve(s, W32, k.wide);
    ParseTwelve(s, W64, k.wide);
    assert StringHelper.At(s, 2) == s[2];
  }
}
