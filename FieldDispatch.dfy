// FieldBase's virtual members: each field type is implemented by one class,
// which overrides some getters and setters and inherits FieldBase's defaults
// for the rest. The defaults widen GetAsInt32, send SetFromBool through
// SetFromInt32, refuse blobs and spatial objects with an exception, and the
// TFieldVal setters make the field null for a null value. A throw is an Err
// carrying the exception's text.

module FieldDispatch {
  import opened Wrappers
  import opened Bytes
  import opened FieldTypes
  import opened FieldSchemas
  import opened Fields
  import opened StringHelper
  import Records
  import VarData
  import SrcLib
  import FieldBool
  import FieldNum
  import FieldString
  import FieldBlob
  import FieldFixedDecimal
  import FieldDateTime

  /** The class behind a field, with what its layout depends on. */
  datatype Impl =
    | BoolField
    | NumField(num: FieldNum.Kind)
    | StringField(str: FieldString.Kind, size: nat)
    | DecimalField(size: nat, scale: nat)
    | DateField(ft: FieldType)
    | BlobField(spatial: bool)

  predicate WellFormed(i: Impl)
  {
    i.DateField? ==> FieldDateTime.IsDateType(i.ft)
  }

  /**
   * The class AddField constructs for a schema, by its type. Float and
   * Double are not part of this model, Unknown has no class, and a
   * FixedDecimal's scale is taken to be non-negative.
   */
  function ImplOf(s: FieldSchema): (i: Option<Impl>)
    ensures i.Some? ==> WellFormed(i.value) && TypeOf(i.value) == s.ft
    ensures i.None? <==> s.ft == Unknown || IsFloat(s.ft) || (s.ft == FixedDecimal && s.scale < 0)
  {
    match s.ft
    case Bool => Some(BoolField)
    case Byte => Some(NumField(FieldNum.KByte))
    case Int16 => Some(NumField(FieldNum.KInt16))
    case Int32 => Some(NumField(FieldNum.KInt32))
    case Int64 => Some(NumField(FieldNum.KInt64))
    case FixedDecimal => if s.scale < 0 then None else Some(DecimalField(s.size, s.scale))
    case String => Some(StringField(FieldString.Kind(false, false), s.size))
    case WString => Some(StringField(FieldString.Kind(true, false), s.size))
    case V_String => Some(StringField(FieldString.Kind(false, true), s.size))
    case V_WString => Some(StringField(FieldString.Kind(true, true), s.size))
    case Date => Some(DateField(Date))
    case Time => Some(DateField(Time))
    case DateTime => Some(DateField(DateTime))
    case Blob => Some(BlobField(false))
    case SpatialObj => Some(BlobField(true))
    case _ => None
  }

  /** The field type a class stands for. */
  function TypeOf(i: Impl): FieldType
  {
    match i
    case BoolField => Bool
    case NumField(k) => FieldNum.TypeOf(k)
    case StringField(k, _) => FieldString.TypeOf(k)
    case DecimalField(_, _) => FixedDecimal
    case DateField(ft) => ft
    case BlobField(spatial) => FieldBlob.TypeOf(spatial)
  }

  /** The bytes of the fixed part a field of the class takes, and whether its value is in the var data. */
  function RawSizeOf(i: Impl): (n: nat)
    requires WellFormed(i)
  {
    match i
    case BoolField => 1
    case NumField(k) => FieldNum.Size(k) + 1
    case StringField(k, size) => if k.isVar then 4 else FieldString.Span(k.wide, size) + 1
    case DecimalField(size, _) => size + 1
    case DateField(ft) => FieldDateTime.Size(ft) + 1
    case BlobField(_) => 4
  }

  predicate IsVar(i: Impl)
  {
    (i.StringField? && i.str.isVar) || i.BlobField?
  }

  /** c is what a field of the class holds. */
  predicate Holds(i: Impl, c: Content)
    requires WellFormed(i)
  {
    match i
    case BoolField => c.Bytes? && |c.b| == 1
    case NumField(k) => c.Bytes? && |c.b| == FieldNum.Size(k) + 1
    case StringField(k, size) => FieldString.Holds(k, size, c)
    case DecimalField(size, _) => FieldString.Holds(FieldFixedDecimal.Storage, size, c)
    case DateField(ft) => FieldDateTime.Holds(ft, c)
    case BlobField(_) => FieldBlob.Holds(c)
  }

  /** What a class holds is what its place in the record holds: bytes of its raw size, or a slot. */
  lemma HoldsLaidOut(i: Impl, c: Content)
    requires WellFormed(i) && Holds(i, c)
    ensures c.Bytes? <==> !IsVar(i)
    ensures c.Bytes? ==> |c.b| == RawSizeOf(i)
  {
  }

  /** A field's contents read from a record buffer are something its class holds. */
  lemma ReadHolds(i: Impl, f: Field, rec: seq<byte>)
    requires WellFormed(i) && InRecord(f, rec)
    requires f.rawSize == RawSizeOf(i) && f.isVarLength == IsVar(i)
    ensures Holds(i, ContentOf(f, rec))
  {
    if f.isVarLength {
      VarData.ValueBounded(rec, f.offset);
    }
  }

  /** The content of the field's place in rec, which its class can read. */
  function ReadContent(i: Impl, f: Field, rec: seq<byte>): (c: Content)
    requires WellFormed(i) && InRecord(f, rec)
    requires f.rawSize == RawSizeOf(i) && f.isVarLength == IsVar(i)
    ensures c == ContentOf(f, rec) && Holds(i, c)
  {
    ReadHolds(i, f, rec);
    ContentOf(f, rec)
  }

  // ---------------------------------------------------------------------------
  // Getters

  /** What FieldBase's own GetAsInt32 is for a Blob: an exception from Field_Blob. */
  const BlobNoInt32: string := "Internal Error in Field_Blob::GetAsInt32: Not supported."

  function GetNull(i: Impl, c: Content): bool
    requires WellFormed(i) && Holds(i, c)
  {
    match i
    case BoolField => FieldBool.GetVal(c.b[0]).isNull
    case NumField(k) => FieldNum.GetVal(k, c.b).isNull
    case StringField(k, size) => FieldString.GetNull(k, size, c)
    case DecimalField(size, _) => FieldString.GetNull(FieldFixedDecimal.Storage, size, c)
    case DateField(ft) => FieldString.GetNull(FieldDateTime.Storage, FieldDateTime.Size(ft), c)
    case BlobField(_) => FieldBlob.GetNull(c)
  }

  function GetAsInt32(i: Impl, c: Content): (r: Result<Got<int>>)
    requires WellFormed(i) && Holds(i, c)
    ensures r.Err? <==> i.BlobField?
    ensures r.Ok? ==> MinOf(W32) <= r.value.val.value <= MaxOf(W32)
  {
    match i
    case BoolField => Ok(Got(FieldBool.GetAsInt32(c.b[0]), []))
    case NumField(k) => Ok(FieldNum.GetAsInt32(k, c.b))
    case StringField(k, size) => Ok(FieldString.GetAsInt32AsWritten(k, size, c))
    case DecimalField(size, _) => Ok(FieldString.GetAsInt32AsWritten(FieldFixedDecimal.Storage, size, c))
    case DateField(ft) => Ok(FieldString.GetAsInt32AsWritten(FieldDateTime.Storage, FieldDateTime.Size(ft), c))
    case BlobField(_) => Err(BlobNoInt32)
  }

  /** GetAsInt64: the default widens GetAsInt32, for a Bool and a Blob. */
  function GetAsInt64(i: Impl, c: Content): (r: Result<Got<int>>)
    requires WellFormed(i) && Holds(i, c)
    ensures r.Err? <==> i.BlobField?
    ensures r.Ok? ==> MinOf(W64) <= r.value.val.value <= MaxOf(W64)
  {
    match i
    case NumField(k) => Ok(Got(FieldNum.GetAsInt64(k, c.b), []))
    case StringField(k, size) => Ok(FieldString.GetAsInt64AsWritten(k, size, c))
    case DecimalField(size, _) => Ok(FieldString.GetAsInt64AsWritten(FieldFixedDecimal.Storage, size, c))
    case DateField(ft) => Ok(FieldString.GetAsInt64AsWritten(FieldDateTime.Storage, FieldDateTime.Size(ft), c))
    case _ => GetAsInt32(i, c)
  }

  /**
   * GetAsBool: a FixedDecimal looks for a digit 1 to 9 among all the bytes
   * of its storage, past the NUL that ends the value too; the default, which
   * a Blob inherits, tests GetAsInt32 against 0 and so throws.
   */
  function GetAsBool(i: Impl, c: Content): (r: Result<Got<bool>>)
    requires WellFormed(i) && Holds(i, c)
    ensures r.Err? <==> i.BlobField?
  {
    match i
    case BoolField => Ok(Got(FieldBool.GetVal(c.b[0]), []))
    case NumField(k) => Ok(Got(FieldNum.GetAsBool(k, c.b), []))
    case StringField(k, size) => Ok(Got(FieldString.GetAsBool(k, size, c), []))
    case DecimalField(size, _) =>
      var b := FieldString.GetAsBlob(FieldFixedDecimal.Storage, size, c);
      var isNull := FieldString.GetNull(FieldFixedDecimal.Storage, size, c);
      Ok(Got(Val(isNull, !isNull && FieldFixedDecimal.AnyNonZero(b.value)), []))
    case DateField(ft) => Ok(Got(FieldString.GetAsBool(FieldDateTime.Storage, FieldDateTime.Size(ft), c), []))
    case BlobField(_) => Err(BlobNoInt32)
  }

  function GetAsAString(i: Impl, c: Content): (r: Got<string>)
    requires WellFormed(i) && Holds(i, c)
  {
    match i
    case BoolField => Got(FieldBool.GetAsAString(c.b[0]), [])
    case NumField(k) => Got(FieldNum.GetAsAString(k, c.b), [])
    case StringField(k, size) => FieldString.GetAsAString(k, size, c)
    case DecimalField(size, _) => FieldString.GetAsAString(FieldFixedDecimal.Storage, size, c)
    case DateField(ft) => FieldString.GetAsAString(FieldDateTime.Storage, FieldDateTime.Size(ft), c)
    case BlobField(spatial) => Got(FieldBlob.GetAsAString(spatial, c), [])
  }

  function GetAsWString(i: Impl, c: Content): (r: Val<seq<u16>>)
    requires WellFormed(i) && Holds(i, c)
  {
    match i
    case BoolField => FieldBool.GetAsWString(c.b[0])
    case NumField(k) => FieldNum.GetAsWString(k, c.b)
    case StringField(k, size) => FieldString.GetAsWString(k, size, c)
    case DecimalField(size, _) => FieldString.GetAsWString(FieldFixedDecimal.Storage, size, c)
    case DateField(ft) => FieldString.GetAsWString(FieldDateTime.Storage, FieldDateTime.Size(ft), c)
    case BlobField(spatial) => FieldBlob.GetAsWString(spatial, c)
  }

  /** GetAsBlob: the default throws, naming the type, for a Bool and the numbers. */
  function GetAsBlob(i: Impl, c: Content): (r: Result<Val<seq<byte>>>)
    requires WellFormed(i) && Holds(i, c)
    ensures r.Err? <==> i.BoolField? || i.NumField?
    ensures r.Err? ==> r.msg == NoBlobs(TypeOf(i))
  {
    match i
    case StringField(k, size) => Ok(FieldString.GetAsBlob(k, size, c))
    case DecimalField(size, _) => Ok(FieldString.GetAsBlob(FieldFixedDecimal.Storage, size, c))
    case DateField(ft) => Ok(FieldString.GetAsBlob(FieldDateTime.Storage, FieldDateTime.Size(ft), c))
    case BlobField(_) => Ok(FieldBlob.GetAsBlob(c))
    case _ => Err(NoBlobs(TypeOf(i)))
  }

  /** GetAsSpatialBlob: the default throws for a Bool and the numbers, and Field_Blob throws for any value. */
  function GetAsSpatialBlob(i: Impl, c: Content): (r: Result<Got<seq<byte>>>)
    requires WellFormed(i) && Holds(i, c)
    ensures i.BoolField? || i.NumField? ==> r == Err(NoSpatial(true, TypeOf(i)))
  {
    match i
    case StringField(k, size) => Ok(FieldString.GetAsSpatialBlob(k, size, c))
    case DecimalField(size, _) => Ok(FieldString.GetAsSpatialBlob(FieldFixedDecimal.Storage, size, c))
    case DateField(ft) => Ok(FieldString.GetAsSpatialBlob(FieldDateTime.Storage, FieldDateTime.Size(ft), c))
    case BlobField(_) =>
      var b := FieldBlob.GetAsSpatialBlob(c);
      if b.Err? then Err(b.msg) else Ok(Got(b.value, []))
    case _ => Err(NoSpatial(true, TypeOf(i)))
  }

  // ---------------------------------------------------------------------------
  // Setters

  /** The value a setter is given: the argument of SetFromBool, SetFromInt32, and so on. */
  datatype Input =
    | FromBool(x: bool)
    | FromInt32(n: int)
    | FromInt64(n: int)
    | FromText(t: Text)
    | FromBlob(blob: seq<byte>)
    | FromSpatialBlob(blob: seq<byte>)

  /** The integers are those of their C++ types. */
  predicate InputOk(x: Input)
  {
    match x
    case FromInt32(n) => MinOf(W32) <= n <= MaxOf(W32)
    case FromInt64(n) => MinOf(W64) <= n <= MaxOf(W64)
    case _ => true
  }

  function SetNull(i: Impl, c: Content): (r: Content)
    requires WellFormed(i) && Holds(i, c)
    ensures Holds(i, r) && GetNull(i, r)
  {
    match i
    case BoolField => Bytes([FieldBool.NullByte])
    case NumField(k) => Bytes(FieldNum.NullBytes(k))
    case StringField(k, size) => FieldString.SetNull(k, size, c)
    case DecimalField(size, _) => FieldString.SetNull(FieldFixedDecimal.Storage, size, c)
    case DateField(ft) => FieldDateTime.SetNull(ft, c)
    case BlobField(_) => FieldBlob.SetNull()
  }

  /** What AddVarData throws when a value would make the record longer than a record can be. */
  const RecordTooBig: string := "Record too big:  Records are limited to 2147483647 bytes"

  /** What Field_Blob throws for a refused setter. */
  function BlobRefuses(x: Input): string
  {
    FieldBlob.NotSupported(
      match x
      case FromBool(_) => "SetFromInt32"
      case FromInt32(_) => "SetFromInt32"
      case FromInt64(_) => "SetFromInt64"
      case _ => "SetFromString")
  }

  /** What the Date/Time types throw for a number or a bool. */
  function DateRefuses(x: Input): string
  {
    match x
    case FromBool(_) => FieldDateTime.NoBool
    case FromInt32(_) => FieldDateTime.NoInt32
    case _ => FieldDateTime.NoInt64
  }

  /** Which setters a type refuses, by its type class: blobs and numbers between the binary and the other types, numbers for dates. */
  predicate Refuses(ft: FieldType, x: Input)
  {
    match x
    case FromBlob(_) => IsBoolOrInteger(ft) || ft == FixedDecimal
    case FromSpatialBlob(_) => IsBoolOrInteger(ft)
    case FromText(_) => IsBinary(ft)
    case _ => IsBinary(ft) || IsDateOrTime(ft)
  }

  /** The type classes of the type each class stands for. */
  lemma ClassOfType(i: Impl)
    requires WellFormed(i)
    ensures i.BoolField? || i.NumField? <==> IsBoolOrInteger(TypeOf(i))
    ensures i.DecimalField? <==> TypeOf(i) == FixedDecimal
    ensures i.DateField? <==> IsDateOrTime(TypeOf(i))
    ensures i.BlobField? <==> IsBinary(TypeOf(i))
  {
  }

  /** A blob longer than a record can hold, given to a Blob. */
  predicate TooBig(i: Impl, x: Input)
  {
    i.BlobField? && (x.FromBlob? || x.FromSpatialBlob?) && |x.blob| > MaxFieldLength
  }

  /** Field_Bool's setters: Bool has no blob or spatial setter of its own. */
  function SetBool(x: Input): (r: Result<Effect>)
    ensures r.Ok? ==> r.value.store.Bytes? && |r.value.store.b| == 1
    ensures r.Err? <==> x.FromBlob? || x.FromSpatialBlob?
  {
    match x
    case FromBool(b) => Ok(Effect(Bytes([FieldBool.SetVal(b)]), []))
    case FromInt32(n) => Ok(Effect(Bytes([FieldBool.SetFromInt(n)]), []))
    case FromInt64(n) => Ok(Effect(Bytes([FieldBool.SetFromInt(n)]), []))
    case FromText(Narrow(s)) => Ok(Effect(Bytes([FieldBool.SetFromAString(s)]), []))
    case FromText(Wide(w)) => Ok(Effect(Bytes([FieldBool.SetFromWString(w)]), []))
    case FromBlob(_) => Err(NoBlobs(Bool))
    case FromSpatialBlob(_) => Err(NoSpatial(false, Bool))
  }

  /** Field_Num's setters; SetFromBool is FieldBase's, through SetFromInt32. */
  function SetNum(k: FieldNum.Kind, x: Input): (r: Result<Effect>)
    requires InputOk(x)
    ensures r.Ok? ==> r.value.store.Bytes? && |r.value.store.b| == FieldNum.Size(k) + 1
    ensures r.Err? <==> x.FromBlob? || x.FromSpatialBlob?
  {
    match x
    case FromBool(b) => Ok(FieldNum.SetFromInt32(k, if b then 1 else 0))
    case FromInt32(n) => Ok(FieldNum.SetFromInt32(k, n))
    case FromInt64(n) => Ok(FieldNum.SetFromInt64(k, n))
    case FromText(t) => Ok(FieldNum.SetFromStringAsWritten(k, t))
    case FromBlob(_) => Err(NoBlobs(FieldNum.TypeOf(k)))
    case FromSpatialBlob(_) => Err(NoSpatial(false, FieldNum.TypeOf(k)))
  }

  /** The string kinds' setters; they take every value. */
  function SetString(k: FieldString.Kind, size: nat, c: Content, x: Input): (r: Result<Effect>)
    requires FieldString.Holds(k, size, c) && InputOk(x)
    ensures r.Ok? && FieldString.Holds(k, size, r.value.store)
  {
    match x
    case FromBool(b) => Ok(FieldString.SetFromInt32(k, size, c, if b then 1 else 0))
    case FromInt32(n) => Ok(FieldString.SetFromInt32(k, size, c, n))
    case FromInt64(n) => Ok(FieldString.SetFromInt64(k, size, c, n))
    case FromText(t) => Ok(FieldString.SetFromString(k, size, c, t))
    case FromBlob(b) => Ok(FieldString.SetFromBlob(k, size, c, Some(b)))
    case FromSpatialBlob(_) => Ok(FieldString.SetFromSpatialBlob(k, size, c))
  }

  /**
   * Field_FixedDecimal's setters: a bool and an Int32 go through its double
   * setter, which for a whole number writes its digits; UTF-16 text is
   * narrowed first, an empty input making the field null; a blob is refused.
   */
  function SetDecimal(size: nat, scale: nat, c: Content, x: Input): (r: Result<Effect>)
    requires FieldString.Holds(FieldFixedDecimal.Storage, size, c) && InputOk(x)
    ensures r.Ok? ==> FieldString.Holds(FieldFixedDecimal.Storage, size, r.value.store)
    ensures r.Err? <==> x.FromBlob?
  {
    match x
    case FromBool(b) => Ok(FieldFixedDecimal.StoreWhole(size, scale, c, if b then 1 else 0))
    case FromInt32(n) => Ok(FieldFixedDecimal.StoreWhole(size, scale, c, n))
    case FromInt64(n) => Ok(FieldFixedDecimal.StoreInt(size, scale, c, n))
    case FromText(Narrow(s)) => Ok(FieldFixedDecimal.Store(size, scale, c, s))
    case FromText(Wide(w)) => Ok(FieldFixedDecimal.Store(size, scale, c, FieldFixedDecimal.WideText(w)))
    case FromBlob(_) => Err(FieldFixedDecimal.SetFromBlobError)
    case FromSpatialBlob(_) => Ok(FieldString.SetFromSpatialBlob(FieldFixedDecimal.Storage, size, c))
  }

  /** The Date/Time setters: text is checked, blobs go to the String storage, the rest is refused. */
  function SetDate(ft: FieldType, c: Content, x: Input): (r: Result<Effect>)
    requires FieldDateTime.IsDateType(ft) && FieldDateTime.Holds(ft, c)
    ensures r.Ok? ==> FieldDateTime.Holds(ft, r.value.store)
    ensures r.Err? <==> x.FromBool? || x.FromInt32? || x.FromInt64?
  {
    match x
    case FromText(Narrow(s)) => Ok(FieldDateTime.SetFromString(ft, c, s))
    case FromText(Wide(w)) => Ok(FieldDateTime.SetFromWString(ft, c, w))
    case FromBlob(b) => Ok(FieldString.SetFromBlob(FieldDateTime.Storage, FieldDateTime.Size(ft), c, Some(b)))
    case FromSpatialBlob(_) => Ok(FieldString.SetFromSpatialBlob(FieldDateTime.Storage, FieldDateTime.Size(ft), c))
    case _ => Err(DateRefuses(x))
  }

  /** Field_Blob's setters: only blobs, and no longer than a record can hold. */
  function SetBlob(x: Input): (r: Result<Effect>)
    ensures r.Ok? ==> FieldBlob.Holds(r.value.store)
    ensures r.Err? <==> !(x.FromBlob? || x.FromSpatialBlob?) || |x.blob| > MaxFieldLength
  {
    match x
    case FromBlob(b) => if |b| <= MaxFieldLength then Ok(FieldBlob.SetFromBlob(b)) else Err(RecordTooBig)
    case FromSpatialBlob(b) => if |b| <= MaxFieldLength then Ok(FieldBlob.SetFromBlob(b)) else Err(RecordTooBig)
    case _ => Err(BlobRefuses(x))
  }

  /**
   * The setters, by the value they are given. A setter throws exactly when
   * the type refuses the value, or the value is a blob too long for a record.
   */
  function SetFrom(i: Impl, c: Content, x: Input): (r: Result<Effect>)
    requires WellFormed(i) && Holds(i, c) && InputOk(x)
    ensures r.Ok? ==> Holds(i, r.value.store)
    ensures r.Err? <==> Refuses(TypeOf(i), x) || TooBig(i, x)
  {
    ClassOfType(i);
    match i
    case BoolField => SetBool(x)
    case NumField(k) => SetNum(k, x)
    case StringField(k, size) => SetString(k, size, c, x)
    case DecimalField(size, scale) => SetDecimal(size, scale, c, x)
    case DateField(ft) => SetDate(ft, c, x)
    case BlobField(_) => SetBlob(x)
  }

  /** The TFieldVal setters: SetNull for a null value, the setter otherwise. */
  function SetFromVal(i: Impl, c: Content, v: Val<Input>): (r: Result<Effect>)
    requires WellFormed(i) && Holds(i, c) && InputOk(v.value)
    ensures r.Ok? ==> Holds(i, r.value.store)
  {
    if v.isNull then Ok(Effect(SetNull(i, c), [])) else SetFrom(i, c, v.value)
  }

  /**
   * The scratch text a FixedDecimal keeps after a TFieldVal setter: what its
   * setters leave in it; a null value, a refused blob and the other classes
   * leave it alone.
   */
  function Scratch(i: Impl, temp: string, v: Val<Input>): string
    requires InputOk(v.value)
  {
    if v.isNull || !i.DecimalField? then temp
    else
      var scale := i.scale;
      match v.value
      case FromBool(b) => FieldFixedDecimal.WholeText(if b then 1 else 0, scale)
      case FromInt32(n) => FieldFixedDecimal.WholeText(n, scale)
      case FromInt64(n) => FieldFixedDecimal.IntScratch(n, i.size, scale)
      case FromText(Narrow(s)) => if s == [] then temp else FieldFixedDecimal.Worked(s, scale)
      case FromText(Wide(w)) => FieldFixedDecimal.WideScratch([], w, scale)
      case _ => temp
  }

  // ---------------------------------------------------------------------------
  // Properties of the dispatch

  /** A null value makes every type null, without a message and without throwing. */
  lemma NullValueSetsNull(i: Impl, c: Content, temp: string, x: Input)
    requires WellFormed(i) && Holds(i, c) && InputOk(x)
    ensures SetFromVal(i, c, Val(true, x)) == Ok(Effect(SetNull(i, c), []))
    ensures Scratch(i, temp, Val(true, x)) == temp
    ensures GetNull(i, SetNull(i, c))
  {
    match i
    case NumField(k) =>
    case StringField(k, size) =>
    case DecimalField(size, _) =>
    case DateField(ft) =>
    case BlobField(_) =>
    case BoolField => FieldBool.RoundTrip(false);
  }

  /**
   * SetFromBool stores what SetFromInt32 stores for 1 or 0 in every type
   * but the dates, which refuse each with its own message.
   */
  lemma BoolThroughInt32(i: Impl, c: Content, temp: string, b: bool)
    requires WellFormed(i) && Holds(i, c)
    ensures var n := if b then 1 else 0;
      (!i.DateField? ==> SetFrom(i, c, FromBool(b)) == SetFrom(i, c, FromInt32(n)))
      && Scratch(i, temp, Val(false, FromBool(b))) == Scratch(i, temp, Val(false, FromInt32(n)))
  {
  }

  /** Where FieldBase's GetAsInt64 is inherited it is GetAsInt32 widened, null flag and all. */
  lemma Int64WidensInt32(i: Impl, c: Content)
    requires WellFormed(i) && Holds(i, c) && (i.BoolField? || i.BlobField?)
    ensures GetAsInt64(i, c) == GetAsInt32(i, c)
  {
  }

  /** Every getter that does not throw reads a null field as null. */
  lemma NullReadsNull(i: Impl, c: Content)
    requires WellFormed(i) && Holds(i, c) && GetNull(i, c)
    ensures GetAsBool(i, c).Ok? ==> GetAsBool(i, c).value.val.isNull
    ensures GetAsInt32(i, c).Ok? ==> GetAsInt32(i, c).value.val.isNull
    ensures GetAsInt64(i, c).Ok? ==> GetAsInt64(i, c).value.val.isNull
    ensures GetAsAString(i, c).val.isNull && GetAsWString(i, c).isNull
    ensures GetAsBlob(i, c).Ok? ==> GetAsBlob(i, c).value.isNull
  {
    match i
    case BoolField =>
    case NumField(k) =>
    case StringField(k, size) => FieldString.NullRead(k, size, c);
    case DecimalField(size, _) => FieldString.NullRead(FieldFixedDecimal.Storage, size, c);
    case DateField(ft) => FieldString.NullRead(FieldDateTime.Storage, FieldDateTime.Size(ft), c);
    case BlobField(_) =>
  }

  // ---------------------------------------------------------------------------
  // A field at its place in a record

  /**
   * A FieldBase object: its place in the record, its class, its error
   * sink, and the scratch text a FixedDecimal keeps between calls. A setter
   * computes what the field is to hold, reports the conversion errors to
   * the sink in order, then writes the record.
   */
  class FieldObj {
    const field: Field
    const impl: Impl
    const reporter: Reporter
    var scratch: string

    ghost predicate Valid()
    {
      WellFormed(impl) && field.schema.ft == TypeOf(impl)
      && field.rawSize == RawSizeOf(impl) && field.isVarLength == IsVar(impl)
    }

    constructor(f: Field, i: Impl)
      requires WellFormed(i) && f.schema.ft == TypeOf(i) && f.rawSize == RawSizeOf(i) && f.isVarLength == IsVar(i)
      ensures Valid() && field == f && impl == i
      ensures fresh(reporter) && reporter.State() == Sink(false, UnsignedMax, 0, []) && scratch == []
    {
      field := f;
      impl := i;
      reporter := new Reporter();
      scratch := [];
    }

    /** The field can be read from and written to r. */
    ghost predicate PlacedIn(r: Records.Record)
      reads r
    {
      Valid() && r.Valid() && InRecord(field, r.rec) && field.offset + field.rawSize <= r.fixedSize
      && (field.isVarLength ==> r.containsVarData)
    }

    /**
     * The TFieldVal setters on a record: a throw changes nothing; otherwise
     * the errors are reported, and the record then holds what the setter
     * computed, unless a var value would make the record too long, which
     * throws and leaves the record as it was. The scratch text is left as
     * the setter leaves it.
     */
    method Set(r: Records.Record, x: Val<Input>) returns (res: Result<bool>)
      requires PlacedIn(r) && InputOk(x.value)
      modifies this, r, reporter
      ensures r.fixedSize == old(r.fixedSize) && r.containsVarData == old(r.containsVarData)
      ensures scratch == Scratch(impl, old(scratch), x)
      ensures var e := SetFromVal(impl, ReadContent(impl, field, old(r.rec)), x);
        (e.Err? ==> res == Err(e.msg) && r.rec == old(r.rec) && reporter.State() == old(reporter.State()))
        && (e.Ok? ==> reporter.State() == Sent(old(reporter.State()), field.schema.name, e.value.msgs))
        && (e.Ok? && res.Ok? ==> PlacedIn(r) && ContentOf(field, r.rec) == e.value.store)
        && (e.Ok? && res.Err? ==> res.msg == RecordTooBig && r.rec == old(r.rec))
    {
      var c := ReadContent(impl, field, r.rec);
      var e := SetFromVal(impl, c, x);
      scratch := Scratch(impl, scratch, x);
      if e.Err? {
        return Err(e.msg);
      }
      reporter.ReportAll(field.schema.name, e.value.msgs);
      HoldsLaidOut(impl, e.value.store);
      if !Fits(field, e.value.store) {
        return Err(RecordTooBig);
      }
      var ok := Apply(field, r, e.value.store);
      if !ok {
        return Err(RecordTooBig);
      }
      return Ok(true);
    }

    /** GetAsInt32 on a record: the value, its errors reported. */
    method GetInt32(r: Records.Record) returns (res: Result<Val<int>>)
      requires PlacedIn(r)
      modifies reporter
      ensures var g := GetAsInt32(impl, ReadContent(impl, field, r.rec));
        (g.Err? ==> res == Err(g.msg) && reporter.State() == old(reporter.State()))
        && (g.Ok? ==> res == Ok(g.value.val) && reporter.State() == Sent(old(reporter.State()), field.schema.name, g.value.msgs))
    {
      var g := GetAsInt32(impl, ReadContent(impl, field, r.rec));
      if g.Err? {
        return Err(g.msg);
      }
      reporter.ReportAll(field.schema.name, g.value.msgs);
      return Ok(g.value.val);
    }

    /** GetAsAString on a record: the text, its errors reported. */
    method GetText(r: Records.Record) returns (v: Val<string>)
      requires PlacedIn(r)
      modifies reporter
      ensures var g := GetAsAString(impl, ReadContent(impl, field, r.rec));
        v == g.val && reporter.State() == Sent(old(reporter.State()), field.schema.name, g.msgs)
    {
      var g := GetAsAString(impl, ReadContent(impl, field, r.rec));
      reporter.ReportAll(field.schema.name, g.msgs);
      return g.val;
    }
  }
}
