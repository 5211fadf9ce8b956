// Field_Date, Field_Time and Field_DateTime: narrow fixed strings of 10, 8
// and 19 characters. A text is cut to the field's size and stored; what was
// stored is then checked, and the field is made null, with a message, when
// the check fails. Numbers and bools are refused.

module FieldDateTime {
  import opened Bytes
  import opened FieldTypes
  import opened Fields
  import DateTimeValidate
  import SrcLib
  import FieldString

  const Storage: FieldString.Kind := FieldString.Kind(false, false)

  predicate IsDateType(ft: FieldType)
  {
    ft == Date || ft == Time || ft == DateTime
  }

  /** The field sizes the constructors give: "YYYY-MM-DD", "HH:MM:SS" and both with a space between. */
  function Size(ft: FieldType): (n: nat)
    requires IsDateType(ft)
    ensures ft == Date ==> n == 10
    ensures ft == Time ==> n == 8
    ensures ft == DateTime ==> n == 19
  {
    match ft
    case Date => 10
    case Time => 8
    case DateTime => 19
  }

  /** Validate of each kind, on the text the field holds. */
  function Validate(ft: FieldType, v: string): bool
    requires IsDateType(ft)
  {
    match ft
    case Date => DateTimeValidate.ValidateDate(v)
    case Time => DateTimeValidate.ValidateTime(v)
    case DateTime => DateTimeValidate.ValidateDateTime(v)
  }

  predicate Holds(ft: FieldType, c: Content)
    requires IsDateType(ft)
  {
    FieldString.Holds(Storage, Size(ft), c)
  }

  /**
   * Field_DateTime_Base::SetFromString: the text cut to the field's size is
   * stored by the String storage, and when what the field then reads back
   * fails Validate the field is made null and the text is reported as it
   * was given (up to its first NUL).
   */
  function StoreBase(ft: FieldType, c: Content, s: string): (e: Effect)
    requires IsDateType(ft) && Holds(ft, c)
    ensures Holds(ft, e.store)
  {
    var size := Size(ft);
    var w := FieldString.SetVal(Storage, size, c, SrcLib.Widened(s[..FieldString.Min(|s|, size)]));
    var v := FieldString.GetAsAString(Storage, size, w.store).val.value;
    if Validate(ft, v) then w
    else Effect(FieldString.SetNull(Storage, size, w.store), w.msgs + [InvalidDateTime(SrcLib.CStr(s), ft)])
  }

  /**
   * What the kinds hand to the base: a Time given 19 characters whose first
   * ten are a valid date keeps what follows the eleventh; a DateTime given 10
   * characters gets " 00:00:00" after them (copied as a C string).
   */
  function Adjusted(ft: FieldType, s: string): string
    requires IsDateType(ft)
  {
    match ft
    case Date => s
    case Time => if |s| == 19 && DateTimeValidate.ValidateDate(s[..10]) then s[11..] else s
    case DateTime => if |s| == 10 then SrcLib.CStr(s) + " 00:00:00" else s
  }

  /** SetFromString of narrow text: the kind's adjustment, then the base. */
  function SetFromString(ft: FieldType, c: Content, s: string): (e: Effect)
    requires IsDateType(ft) && Holds(ft, c)
    ensures Holds(ft, e.store)
  {
    StoreBase(ft, c, Adjusted(ft, s))
  }

  /**
   * SetFromString of UTF-16 text: narrowed by DoConvertString, which reports
   * any unit from 256 on, then the narrow setter of the kind.
   */
  function SetFromWString(ft: FieldType, c: Content, w: seq<u16>): (e: Effect)
    requires IsDateType(ft) && Holds(ft, c)
    ensures Holds(ft, e.store)
    ensures e.store == SetFromString(ft, c, SrcLib.Narrowed(w)).store
    ensures e.msgs == FieldString.DoConvertString(w).1 + SetFromString(ft, c, SrcLib.Narrowed(w)).msgs
  {
    var d := FieldString.DoConvertString(w);
    var e := SetFromString(ft, c, d.0);
    Effect(e.store, d.1 + e.msgs)
  }

  /** SetNull: the flag byte of the String storage. */
  function SetNull(ft: FieldType, c: Content): (r: Content)
    requires IsDateType(ft) && Holds(ft, c)
    ensures Holds(ft, r) && FieldString.GetNull(Storage, Size(ft), r)
  {
    FieldString.SetNull(Storage, Size(ft), c)
  }

  /** What the refused setters throw. */
  const NoBool: string := "Date/Time fields do not support Conversion from Bool"
  const NoInt32: string := "Date/Time fields do not support Conversion from Int32"
  const NoInt64: string := "Date/Time fields do not support Conversion from Int64"
  const NoDouble: string := "Date/Time fields do not support Conversion from Double"

  // ---------------------------------------------------------------------------
  // What the field holds afterwards

  /** Narrow text the field can copy and read back unchanged: no NUL and no character from 256 on. */
  predicate Plain(s: string)
  {
    SrcLib.NoNul(s) && forall i :: 0 <= i < |s| ==> s[i] as int < 256
  }

  /** The text the base stores: the adjusted input cut to the field's size. */
  function Kept(ft: FieldType, s: string): (k: string)
    requires IsDateType(ft)
    ensures |k| <= Size(ft)
  {
    var a := Adjusted(ft, s);
    a[..FieldString.Min(|a|, Size(ft))]
  }

  /** The adjusted text of plain text is plain. */
  lemma AdjustedPlain(ft: FieldType, s: string)
    requires IsDateType(ft) && Plain(s)
    ensures Plain(Adjusted(ft, s)) && Plain(Kept(ft, s))
  {
    var a := Adjusted(ft, s);
    if ft == DateTime && |s| == 10 {
      SrcLib.CLenOfNoNul(s);
      assert SrcLib.CStr(s) == s;
      PlainJoin(s, " 00:00:00");
    } else if ft == Time && |s| == 19 && DateTimeValidate.ValidateDate(s[..10]) {
      PlainSlice(s, 11, |s|);
    }
    PlainSlice(a, 0, FieldString.Min(|a|, Size(ft)));
  }

  lemma PlainJoin(a: string, b: string)
    requires Plain(a) && Plain(b)
    ensures Plain(a + b)
  {
  }

  lemma PlainSlice(a: string, i: nat, j: nat)
    requires Plain(a) && i <= j <= |a|
    ensures Plain(a[i..j])
  {
  }

  /**
   * The field is null after SetFromString exactly when the text it kept
   * fails its kind's check; otherwise it reads back as that text without a
   * message, and a failure reports the adjusted input whole.
   */
  lemma SetFromStringMeaning(ft: FieldType, c: Content, s: string)
    requires IsDateType(ft) && Holds(ft, c) && Plain(s)
    ensures var e := SetFromString(ft, c, s); var k := Kept(ft, s);
      (FieldString.GetNull(Storage, Size(ft), e.store) <==> !Validate(ft, k))
      && (Validate(ft, k) ==> FieldString.GetAsAString(Storage, Size(ft), e.store) == Got(Val(false, k), []) && e.msgs == [])
      && (!Validate(ft, k) ==> e.msgs == [InvalidDateTime(Adjusted(ft, s), ft)])
  {
    var size := Size(ft);
    var a := Adjusted(ft, s);
    var k := Kept(ft, s);
    AdjustedPlain(ft, s);
    SrcLib.CLenOfNoNul(a);
    FieldString.NarrowTextRoundTrip(Storage, size, c, k);
    var f := FieldString.SetFromString(Storage, size, c, Narrow(k));
    var w := FieldString.SetVal(Storage, size, c, SrcLib.Widened(k));
    assert f.store == w.store && w.msgs == [];
  }

  /** A Date is set exactly when the first ten characters are a valid date; anything after them is dropped silently. */
  lemma DateAccepts(c: Content, s: string)
    requires Holds(Date, c) && Plain(s)
    ensures var e := SetFromString(Date, c, s);
      (!FieldString.GetNull(Storage, 10, e.store) <==> |s| >= 10 && DateTimeValidate.ValidateDate(s[..10]))
      && (|s| >= 10 && DateTimeValidate.ValidateDate(s[..10]) ==>
        FieldString.GetAsAString(Storage, 10, e.store).val.value == s[..10] && e.msgs == [])
  {
    SetFromStringMeaning(Date, c, s);
  }

  /** A valid date followed by midnight is a valid date-time. */
  lemma MidnightValid(d: string)
    requires |d| == 10
    ensures DateTimeValidate.ValidateDateTime(d + " 00:00:00") == DateTimeValidate.ValidateDate(d)
  {
    var t := d + " 00:00:00";
    var m := "00:00:00";
    assert t[..10] == d && t[10] == ' ' && t[11..] == m;
    DateTimeValidate.ValidateTimeMeaning(m);
    assert m[..2] == "00" && m[3..5] == "00" && m[6..] == "00";
    assert DateTimeValidate.DecimalValue("00") == 0 by {
      assert "00"[..1] == "0";
      assert "0"[..0] == "";
    }
  }

  /**
   * A DateTime given a bare date stores it with " 00:00:00", and is set
   * exactly when the date is valid; any other text is set exactly when its
   * first 19 characters are a valid date-time.
   */
  lemma DateTimeAccepts(c: Content, s: string)
    requires Holds(DateTime, c) && Plain(s)
    ensures var e := SetFromString(DateTime, c, s);
      (|s| == 10 ==>
        (!FieldString.GetNull(Storage, 19, e.store) <==> DateTimeValidate.ValidateDate(s))
        && (DateTimeValidate.ValidateDate(s) ==> FieldString.GetAsAString(Storage, 19, e.store).val.value == s + " 00:00:00"))
      && (|s| != 10 ==>
        (!FieldString.GetNull(Storage, 19, e.store) <==> |s| >= 19 && DateTimeValidate.ValidateDateTime(s[..19]))
        && (|s| >= 19 && DateTimeValidate.ValidateDateTime(s[..19]) ==>
          FieldString.GetAsAString(Storage, 19, e.store).val.value == s[..19]))
  {
    if |s| == 10 {
      BareDateAccepted(c, s);
    } else {
      DateTimeCut(c, s);
    }
  }

  /** DateTimeAccepts for a bare date. */
  lemma BareDateAccepted(c: Content, s: string)
    requires Holds(DateTime, c) && Plain(s) && |s| == 10
    ensures var e := SetFromString(DateTime, c, s);
      (!FieldString.GetNull(Storage, 19, e.store) <==> DateTimeValidate.ValidateDate(s))
      && (DateTimeValidate.ValidateDate(s) ==> FieldString.GetAsAString(Storage, 19, e.store).val.value == s + " 00:00:00")
  {
    SetFromStringMeaning(DateTime, c, s);
    SrcLib.CLenOfNoNul(s);
    var t := s + " 00:00:00";
    assert Kept(DateTime, s) == t;
    MidnightValid(s);
  }

  /** DateTimeAccepts for any other text. */
  lemma DateTimeCut(c: Content, s: string)
    requires Holds(DateTime, c) && Plain(s) && |s| != 10
    ensures var e := SetFromString(DateTime, c, s);
      (!FieldString.GetNull(Storage, 19, e.store) <==> |s| >= 19 && DateTimeValidate.ValidateDateTime(s[..19]))
      && (|s| >= 19 && DateTimeValidate.ValidateDateTime(s[..19]) ==>
        FieldString.GetAsAString(Storage, 19, e.store).val.value == s[..19])
  {
    SetFromStringMeaning(DateTime, c, s);
    DateTimeValidate.ValidateDateTimeMeaning(Kept(DateTime, s));
  }

  /**
   * A Time given a valid date, any character and 8 more keeps those 8, and
   * is set exactly when they are a valid time; any other text is set exactly
   * when its first 8 characters are a valid time.
   */
  lemma TimeAccepts(c: Content, s: string)
    requires Holds(Time, c) && Plain(s)
    ensures var e := SetFromString(Time, c, s); var dated := |s| == 19 && DateTimeValidate.ValidateDate(s[..10]);
      (dated ==>
        (!FieldString.GetNull(Storage, 8, e.store) <==> DateTimeValidate.ValidateTime(s[11..]))
        && (DateTimeValidate.ValidateTime(s[11..]) ==> FieldString.GetAsAString(Storage, 8, e.store).val.value == s[11..]))
      && (!dated ==>
        (!FieldString.GetNull(Storage, 8, e.store) <==> |s| >= 8 && DateTimeValidate.ValidateTime(s[..8]))
        && (|s| >= 8 && DateTimeValidate.ValidateTime(s[..8]) ==>
          FieldString.GetAsAString(Storage, 8, e.store).val.value == s[..8]))
  {
    SetFromStringMeaning(Time, c, s);
    if |s| == 19 && DateTimeValidate.ValidateDate(s[..10]) {
      assert Kept(Time, s) == s[11..];
    }
  }
}
