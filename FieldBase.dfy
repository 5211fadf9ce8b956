// FieldBase: what every field type shares. The null-flagged values a getter
// yields, the conversion errors getters and setters report, a field's place
// in the record and what it holds there, the one path by which a setter's
// result reaches the record, and the per-field error sink with its limit.

module Fields {
  import opened Wrappers
  import opened Bytes
  import opened FieldTypes
  import opened FieldSchemas
  import opened Records
  import opened VarData
  import SrcLib

  // ---------------------------------------------------------------------------
  // Values and messages

  /** TFieldVal: a value and whether the field was null (the value is then the type's default). */
  datatype Val<T> = Val(isNull: bool, value: T)

  /** The text a message quotes: narrow characters or UTF-16 units. */
  datatype Text = Narrow(s: string) | Wide(w: seq<u16>)

  /**
   * The conversion errors, one constructor per message of the source; the
   * comment gives the message with @1.. for the arguments.
   */
  datatype Msg =
    | Truncated(t: Text)                       // "@1" was truncated
    | DoesNotFitType(n: int, ft: FieldType)    // @1 does not fit in the type @2
    | DoesNotFitInt(t: Text, w64: bool)        // @1 does not fit in an Int32. / an Int64.
    | NotANumber(t: Text)                      // @1 is not a number.
    | StoppedAtComma(t: Text)                  // @1 stopped converting at a comma. It might be invalid.
    | NotFullyConverted(t: Text)               // @1 was not fully converted
    | LostInformation(t: Text)                 // @1 lost information in translation
    | WideToNarrow(w: seq<u16>)                // "@1" could not be fully converted from a WString to a String.
    | InvalidFixedDecimal(s: string)           // "@1" is not a valid FixedDecimal. FixedDecimal values must be of the form: -nnn.nn
    | TooManyDecimals(s: string)               // "@1" has too many digits after the decimal and was truncated.
    | TooLongForFixedDecimal(s: string)        // "@1" was too long to fit in this FixedDecimal
    | NotInFixedDecimal(s: string, size: nat, scale: int)  // "@1" does not fit in Fixed Decimal @2.@3
    | InvalidDateTime(s: string, ft: FieldType)  // "@1" is not a valid @2

  /** A UTF-16 unit as the number parser sees it: itself, or U+FFFD for a surrogate, which is neither a digit nor a space. */
  function UnitChar(u: u16): (c: char)
    ensures u < 0xD800 ==> c as int == u
  {
    if 0xD800 <= u < 0xE000 then '\U{FFFD}' else u as char
  }

  /** UTF-16 text as characters, unit by unit. */
  function View(w: seq<u16>): (s: string)
    ensures |s| == |w|
    ensures forall i :: 0 <= i < |w| && w[i] < 0xD800 ==> s[i] as int == w[i]
  {
    seq(|w|, i requires 0 <= i < |w| => UnitChar(w[i]))
  }

  /** Latin-1 text widened reads as itself. */
  lemma ViewWidened(s: string)
    requires forall i :: 0 <= i < |s| ==> s[i] as int < 256
    ensures View(SrcLib.Widened(s)) == s
  {
    var v := View(SrcLib.Widened(s));
    forall i | 0 <= i < |s| ensures v[i] == s[i] {
      assert SrcLib.Widened(s)[i] == s[i] as int;
    }
  }

  /** What a getter yields: the value and the conversion errors it reported, in order. */
  datatype Got<T> = Got(val: Val<T>, msgs: seq<Msg>)

  // ---------------------------------------------------------------------------
  // Layout

  /** A field of a RecordInfo: its schema, its offset in the record and the bytes of the fixed part it occupies. */
  datatype Field = Field(schema: FieldSchema, offset: nat, rawSize: nat, isVarLength: bool)

  /** Bytes per character of the string types: two for the UTF-16 ones. */
  function CharWidth(ft: FieldType): (w: nat)
    ensures w == 1 || w == 2
    ensures w == 2 <==> ft == WString || ft == V_WString
  {
    if ft == WString || ft == V_WString then 2 else 1
  }

  /** The types a T_Field_String implements, whose GetMaxBytes counts characters times their width. */
  predicate IsStringStorage(ft: FieldType)
  {
    ft == String || ft == WString || ft == V_String || ft == V_WString
    || ft == FixedDecimal || ft == Date || ft == Time || ft == DateTime
  }

  /** GetMaxBytes: the size, times the character width for the string types, as a 32-bit unsigned. */
  function GetMaxBytes(s: FieldSchema): (n: uint)
    ensures !IsStringStorage(s.ft) ==> n == s.size
    ensures IsStringStorage(s.ft) && s.size * CharWidth(s.ft) < 0x1_0000_0000 ==> n == s.size * CharWidth(s.ft)
  {
    if IsStringStorage(s.ft) then (s.size * CharWidth(s.ft)) % 0x1_0000_0000 else s.size
  }

  /** The types whose value lives in the var data behind a four-byte slot. */
  predicate IsVarLength(ft: FieldType)
  {
    ft == V_String || ft == V_WString || ft == Blob || ft == SpatialObj
  }

  /** The width in bytes of the numeric types' value, before their null flag. */
  function NumWidth(ft: FieldType): nat
  {
    match ft
    case Byte => 1
    case Int16 => 2
    case Int32 => 4
    case Int64 => 8
    case Float => 4
    case Double => 8
    case _ => 0
  }

  predicate IsNumLayout(ft: FieldType)
  {
    ft == Byte || ft == Int16 || ft == Int32 || ft == Int64 || ft == Float || ft == Double
  }

  /**
   * m_nRawSize as the constructors compute it: one byte for a Bool, the value
   * and a null flag for numbers, the characters and a flag for fixed strings,
   * a slot for var data. The product is taken in 64 bits, converted to int and
   * stored unsigned, so a fixed string's size wraps modulo 2^32.
   */
  function RawSizeAsWritten(ft: FieldType, size: uint): nat
  {
    if ft == Bool then 1
    else if IsNumLayout(ft) then NumWidth(ft) + 1
    else if IsVarLength(ft) then 4
    else (size * CharWidth(ft) + 1) % 0x1_0000_0000
  }

  /** The raw size the layout needs: the same without the wrap-around. */
  function RawSize(ft: FieldType, size: uint): (n: nat)
    ensures n >= 1
    ensures n == RawSizeAsWritten(ft, size) <==> (IsVarLength(ft) || ft == Bool || IsNumLayout(ft) || size * CharWidth(ft) + 1 < 0x1_0000_0000)
  {
    if ft == Bool then 1
    else if IsNumLayout(ft) then NumWidth(ft) + 1
    else if IsVarLength(ft) then 4
    else size * CharWidth(ft) + 1
  }

  /** The wrap-around gives a String of 0xffffffff characters no bytes at all, and a WString of 2^31 characters one. */
  lemma RawSizeWraps()
    ensures RawSizeAsWritten(String, 0xffff_ffff) == 0 && RawSize(String, 0xffff_ffff) == 0x1_0000_0000
    ensures RawSizeAsWritten(WString, 0x8000_0000) == 1 && RawSize(WString, 0x8000_0000) == 0x1_0000_0001
  {
  }

  /** A field's bytes in the fixed part of a record buffer; a var field's slot and value are readable too. */
  predicate InRecord(f: Field, rec: seq<byte>)
  {
    f.offset + f.rawSize <= |rec| && (f.isVarLength ==> f.rawSize == 4 && Readable(rec, f.offset))
  }

  // ---------------------------------------------------------------------------
  // Contents

  /** What a field holds: the raw bytes of a fixed field, or the value of a var field's slot (None for null). */
  datatype Content = Bytes(b: seq<byte>) | Slot(v: Option<seq<byte>>)

  /** c is something f can hold. */
  predicate Fits(f: Field, c: Content)
  {
    match c
    case Bytes(b) => !f.isVarLength && |b| == f.rawSize
    case Slot(v) => f.isVarLength && (v.Some? ==> |v.value| <= MaxFieldLength)
  }

  /** A setter's result: what the field is to hold, and the conversion errors it reported, in order. */
  datatype Effect = Effect(store: Content, msgs: seq<Msg>)

  /** The contents of f in a record buffer. */
  function ContentOf(f: Field, rec: seq<byte>): (c: Content)
    requires InRecord(f, rec)
    ensures c.Bytes? <==> !f.isVarLength
    ensures c.Bytes? ==> |c.b| == f.rawSize && c.b == rec[f.offset..f.offset + f.rawSize]
    ensures c.Slot? ==> c.v == GetVarDataValue(rec, f.offset)
  {
    if f.isVarLength then Slot(GetVarDataValue(rec, f.offset))
    else Bytes(rec[f.offset..f.offset + f.rawSize])
  }

  /** The buffer GetRecord leaves: the var-data length word brought up to date when it was stale. */
  function Synced(rec: seq<byte>, fixed: nat, hasVar: bool, cur: nat, unset: bool): seq<byte>
    requires fixed + 4 <= |rec| && cur < 0x1_0000_0000
  {
    if unset && hasVar then WriteU32(rec, fixed, cur) else rec
  }

  /**
   * The first used bytes of rec0 are kept in rec, except f's own bytes and
   * the var-data length word after the fixed part, which GetRecord brings
   * up to date.
   */
  predicate KeptOutside(f: Field, fixed: nat, used: nat, rec0: seq<byte>, rec: seq<byte>)
  {
    used <= |rec0| && used <= |rec| &&
    forall i :: 0 <= i < used && !(f.offset <= i < f.offset + f.rawSize) && !(fixed <= i < fixed + 4) ==> rec[i] == rec0[i]
  }

  /**
   * Writes what a setter computed into the record: a fixed field's bytes in
   * place (after GetRecord), a var field's value through SetVarDataValue.
   * Only the latter can fail, with "Record too big".
   */
  method Apply(f: Field, r: Records.Record, c: Content) returns (ok: bool)
    requires r.Valid() && f.offset + f.rawSize <= r.fixedSize && Fits(f, c)
    requires f.isVarLength ==> r.containsVarData && f.rawSize == 4
    modifies r
    ensures r.fixedSize == old(r.fixedSize) && r.containsVarData == old(r.containsVarData)
    ensures ok ==> r.Valid() && InRecord(f, r.rec) && ContentOf(f, r.rec) == c
    ensures c.Bytes? ==> ok && r.curVarDataSize == old(r.curVarDataSize)
    ensures c.Bytes? && old(r.containsVarData) ==>
      old(r.fixedSize + 4 <= |r.rec|) && old(r.curVarDataSize) < 0x1_0000_0000 &&
      r.rec == Splice(Synced(old(r.rec), r.fixedSize, r.containsVarData, r.curVarDataSize, old(r.varDataLenUnset)), f.offset, c.b)
    ensures c.Bytes? && !old(r.containsVarData) ==> r.rec == Splice(old(r.rec), f.offset, c.b)
    ensures c.Slot? ==> (ok <==> (c.v.None? || |c.v.value| <= 3 ||
      old(r.fixedSize + 4 + r.curVarDataSize) + |c.v.value| + |LenPrefix(|c.v.value|)| <= MaxFieldLength))
    ensures !ok ==> r.rec == old(r.rec) && r.curVarDataSize == old(r.curVarDataSize)
    ensures ok ==> r.rec[..f.offset] == old(r.rec)[..f.offset]
    ensures ok ==> KeptOutside(f, r.fixedSize, old(r.Used()), old(r.rec), r.rec)
    ensures c == Slot(None) ==> ok && r.rec == Splice(old(r.rec), f.offset, ShortSlot(None))
  {
    ghost var rec0, used := r.rec, r.Used();
    match c
    case Bytes(b) =>
      var rec := r.GetRecord();
      r.rec := Splice(rec, f.offset, b);
      BytesKept(f, r.fixedSize, used, rec0, rec, b, old(r.varDataLenUnset) && r.containsVarData, r.curVarDataSize);
      ok := true;
    case Slot(v) =>
      assert used == r.fixedSize + 4 + r.curVarDataSize;
      ok := SetVarDataValue(r, f.offset, v);
      if ok {
        SlotKept(f, r.fixedSize, used, rec0, r.rec);
      }
  }

  /** A fixed field written after GetRecord: only its bytes and perhaps the length word change. */
  lemma BytesKept(f: Field, fixed: nat, used: nat, rec0: seq<byte>, rec: seq<byte>, b: seq<byte>, synced: bool, cur: nat)
    requires used <= |rec0| && f.offset + |b| <= |rec| && |b| == f.rawSize
    requires synced ==> fixed + 4 <= |rec0| && cur < 0x1_0000_0000 && rec == WriteU32(rec0, fixed, cur)
    requires !synced ==> rec == rec0
    ensures KeptOutside(f, fixed, used, rec0, Splice(rec, f.offset, b))
  {
    if synced {
      WriteU32Outside(rec0, fixed, cur);
    }
  }

  /** A var field's slot written by SetVarDataValue: what comes before it, and the rest of the used bytes, stay. */
  lemma SlotKept(f: Field, fixed: nat, used: nat, rec0: seq<byte>, rec: seq<byte>)
    requires f.rawSize == 4 && f.offset + 4 <= used <= |rec0| && |rec0| <= |rec|
    requires rec[..f.offset] == rec0[..f.offset] && rec[f.offset + 4 .. used] == rec0[f.offset + 4 .. used]
    ensures KeptOutside(f, fixed, used, rec0, rec)
  {
    forall i | 0 <= i < used && !(f.offset <= i < f.offset + 4)
      ensures rec[i] == rec0[i]
    {
      if i < f.offset {
        assert rec[i] == rec[..f.offset][i];
      } else {
        assert rec[i] == rec[f.offset + 4 .. used][i - f.offset - 4];
      }
    }
  }

  // ---------------------------------------------------------------------------
  // Reporting conversion errors

  /** The largest unsigned, the limit an engine built with limit 0 applies. */
  const UnsignedMax: nat := 0xffff_ffff

  /** FieldConversionErrorLimit: an engine given 0 reports without limit, that is up to the largest unsigned. */
  function EffectiveLimit(n: uint): (l: nat)
    ensures 1 <= l <= UnsignedMax
    ensures n > 0 ==> l == n
  {
    if n == 0 then UnsignedMax else n
  }

  /** What an engine is given: a conversion error or the notice that the limit was reached, both naming the field. */
  datatype Output = ConversionError(field: string, msg: Msg) | LimitReached(field: string)

  /**
   * The reporting state of one field: whether it still holds an engine, the
   * engine's limit, m_nFieldConversionErrorCount and what it sent so far.
   */
  datatype Sink = Sink(attached: bool, limit: nat, count: uint, log: seq<Output>)

  /** ReportFieldConversionError: with an engine, send the error, count it, and at the limit say so and let go of the engine. */
  function Step(s: Sink, name: string, m: Msg): Sink
  {
    if !s.attached then s
    else
      var c := (s.count + 1) % 0x1_0000_0000;
      var log := s.log + [ConversionError(name, m)];
      if c == s.limit then Sink(false, s.limit, c, log + [LimitReached(name)])
      else Sink(true, s.limit, c, log)
  }

  /** The state after reporting ms one after the other. */
  function Sent(s: Sink, name: string, ms: seq<Msg>): Sink
    decreases |ms|
  {
    if ms == [] then s else Sent(Step(s, name, ms[0]), name, ms[1..])
  }

  /** The conversion errors ms as an engine receives them. */
  function Errors(name: string, ms: seq<Msg>): (o: seq<Output>)
    ensures |o| == |ms|
    ensures forall i :: 0 <= i < |ms| ==> o[i] == ConversionError(name, ms[i])
    decreases |ms|
  {
    if ms == [] then [] else [ConversionError(name, ms[0])] + Errors(name, ms[1..])
  }

  /** A field without an engine reports nothing. */
  lemma {:induction false} SilentWhenDetached(s: Sink, name: string, ms: seq<Msg>)
    requires !s.attached
    ensures Sent(s, name, ms) == s
    decreases |ms|
  {
    if ms != [] {
      SilentWhenDetached(Step(s, name, ms[0]), name, ms[1..]);
    }
  }

  /** Below the limit every error is passed on and counted. */
  lemma {:induction false} PassedBelowLimit(s: Sink, name: string, ms: seq<Msg>)
    requires s.attached && s.count + |ms| < s.limit <= UnsignedMax
    ensures Sent(s, name, ms) == Sink(true, s.limit, s.count + |ms|, s.log + Errors(name, ms))
    decreases |ms|
  {
    if ms != [] {
      var t := Step(s, name, ms[0]);
      assert t == Sink(true, s.limit, s.count + 1, s.log + [ConversionError(name, ms[0])]);
      PassedBelowLimit(t, name, ms[1..]);
      assert Errors(name, ms) == [ConversionError(name, ms[0])] + Errors(name, ms[1..]);
      Regrouped(s.log, [ConversionError(name, ms[0])], Errors(name, ms[1..]));
    }
  }

  /** The error that reaches the limit is passed on, followed by one notice, and nothing after it. */
  lemma {:induction false} StopsAtLimit(s: Sink, name: string, ms: seq<Msg>)
    requires s.attached && s.count < s.limit <= UnsignedMax && |ms| >= s.limit - s.count
    ensures Sent(s, name, ms) ==
      Sink(false, s.limit, s.limit, s.log + Errors(name, ms[..s.limit - s.count]) + [LimitReached(name)])
    decreases |ms|
  {
    var room := s.limit - s.count;
    if room == 1 {
      LastBeforeLimit(s, name, ms);
    } else {
      var t := Step(s, name, ms[0]);
      assert Sent(s, name, ms) == Sent(t, name, ms[1..]);
      StepCounts(s, name, ms[0]);
      StopsAtLimit(t, name, ms[1..]);
      LogBefore(s, t, name, ms);
    }
  }

  /** The error that reaches the limit, when it is the first one. */
  lemma LastBeforeLimit(s: Sink, name: string, ms: seq<Msg>)
    requires s.attached && s.count + 1 == s.limit <= UnsignedMax && |ms| >= 1
    ensures Sent(s, name, ms) ==
      Sink(false, s.limit, s.limit, s.log + Errors(name, ms[..1]) + [LimitReached(name)])
  {
    var t := Step(s, name, ms[0]);
    assert Sent(s, name, ms) == Sent(t, name, ms[1..]);
    StepCounts(s, name, ms[0]);
    ErrorsSplit(name, ms, 1);
    assert ms[1..][..0] == [];
    SilentWhenDetached(t, name, ms[1..]);
  }

  /** The log after one error below the limit and the errors up to it from the rest is the log with the errors up to it. */
  lemma LogBefore(s: Sink, t: Sink, name: string, ms: seq<Msg>)
    requires s.count + 1 < s.limit && |ms| >= s.limit - s.count
    requires t.count == s.count + 1 && t.log == s.log + [ConversionError(name, ms[0])]
    ensures s.log + Errors(name, ms[..s.limit - s.count]) == t.log + Errors(name, ms[1..][..s.limit - t.count])
  {
    var room := s.limit - s.count;
    ErrorsSplit(name, ms, room);
    var e := Errors(name, ms[1..][..room - 1]);
    assert s.limit - t.count == room - 1;
    Regrouped(s.log, [ConversionError(name, ms[0])], e);
  }

  lemma Regrouped(a: seq<Output>, b: seq<Output>, c: seq<Output>)
    ensures a + (b + c) == (a + b) + c
  {
  }

  /** One report below the limit: passed on and counted, and the notice when the count reaches the limit. */
  lemma StepCounts(s: Sink, name: string, m: Msg)
    requires s.attached && s.count < s.limit <= UnsignedMax
    ensures var log := s.log + [ConversionError(name, m)];
      Step(s, name, m) ==
        if s.count + 1 == s.limit then Sink(false, s.limit, s.limit, log + [LimitReached(name)])
        else Sink(true, s.limit, s.count + 1, log)
  {
    assert (s.count + 1) % 0x1_0000_0000 == s.count + 1;
  }

  /** The first room errors: the first, then room - 1 more of the rest. */
  lemma ErrorsSplit(name: string, ms: seq<Msg>, room: nat)
    requires 1 <= room <= |ms|
    ensures Errors(name, ms[..room]) == [ConversionError(name, ms[0])] + Errors(name, ms[1..][..room - 1])
  {
    assert ms[1..][..room - 1] == ms[..room][1..];
  }

  /**
   * The rate limit: a field that has reported count errors under a limit above
   * that passes on the next errors until the limit, then one notice, then nothing.
   */
  lemma RateLimit(s: Sink, name: string, ms: seq<Msg>)
    requires s.attached && s.count < s.limit <= UnsignedMax
    ensures var room := s.limit - s.count;
      Sent(s, name, ms) ==
        if |ms| < room then Sink(true, s.limit, s.count + |ms|, s.log + Errors(name, ms))
        else Sink(false, s.limit, s.limit, s.log + Errors(name, ms[..room]) + [LimitReached(name)])
  {
    if |ms| < s.limit - s.count {
      PassedBelowLimit(s, name, ms);
    } else {
      StopsAtLimit(s, name, ms);
    }
  }

  /** Any number of errors reaches the engine at most limit - count times. */
  lemma NeverPastLimit(s: Sink, name: string, ms: seq<Msg>)
    requires s.attached && s.count < s.limit <= UnsignedMax
    ensures |Sent(s, name, ms).log| <= |s.log| + (s.limit - s.count) + 1
    ensures !Sent(s, name, ms).attached <==> |ms| >= s.limit - s.count
  {
    RateLimit(s, name, ms);
  }

  /** The reporting part of a FieldBase: m_pGenericEngine (with its limit) and m_nFieldConversionErrorCount. */
  class Reporter {
    var attached: bool
    var limit: nat
    var count: uint
    /** What the engine was sent, oldest first. */
    var log: seq<Output>

    function State(): Sink
      reads this
    {
      Sink(attached, limit, count, log)
    }

    /** A new field: no engine, nothing counted. */
    constructor()
      ensures State() == Sink(false, UnsignedMax, 0, [])
    {
      attached, limit, count, log := false, UnsignedMax, 0, [];
    }

    /** RecordInfo hands the field its engine (None for none); the count is kept. */
    method Attach(engineLimit: Option<uint>)
      modifies this
      ensures attached == engineLimit.Some?
      ensures engineLimit.Some? ==> limit == EffectiveLimit(engineLimit.value)
      ensures engineLimit.None? ==> limit == old(limit)
      ensures count == old(count) && log == old(log)
    {
      attached := engineLimit.Some?;
      if engineLimit.Some? {
        limit := EffectiveLimit(engineLimit.value);
      }
    }

    /** IsReportingFieldConversionErrors. */
    function IsReporting(): (b: bool)
      reads this
      ensures b <==> State().attached
    {
      attached
    }

    /** ReportFieldConversionError on the field named name. */
    method Report(name: string, m: Msg)
      modifies this
      ensures State() == Step(old(State()), name, m)
    {
      if attached {
        log := log + [ConversionError(name, m)];
        count := (count + 1) % 0x1_0000_0000;
        if count == limit {
          log := log + [LimitReached(name)];
          attached := false;
        }
      }
    }

    /** Reports each of ms in turn. */
    method ReportAll(name: string, ms: seq<Msg>)
      modifies this
      ensures State() == Sent(old(State()), name, ms)
    {
      var i := 0;
      while i < |ms|
        invariant i <= |ms|
        invariant Sent(old(State()), name, ms) == Sent(State(), name, ms[i..])
      {
        assert ms[i..][1..] == ms[i + 1..];
        Report(name, ms[i]);
        i := i + 1;
      }
    }
  }

  // ---------------------------------------------------------------------------
  // What FieldBase throws for the types that do not override it

  function NoBlobs(ft: FieldType): string
  {
    "SetFromBlob: Field type " + GetNameFromFieldType(ft) + " doesn't support Blobs."
  }

  function NoSpatial(get: bool, ft: FieldType): string
  {
    (if get then "GetAsSpatialBlob" else "SetFromSpatialBlob") + ": Field type " + GetNameFromFieldType(ft) + " doesn't support Spatial Objects."
  }
}
