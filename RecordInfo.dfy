// RecordInfo: the fields of a record in order, where each lies in the fixed
// part of the record buffer, the names they are given, and moving whole
// records between buffers and byte streams.

module RecordInfos {
  import opened Wrappers
  import opened Bytes
  import opened FieldTypes
  import opened FieldSchemas
  import opened Fields
  import Records
  import FieldNames
  import FieldDispatch
  import FieldString
  import FieldDateTime
  import MiniXml
  import StringHelper
  import ByteStreams

  /** GetMaxFieldsLimit. */
  const MaxFieldsLimit: nat := 32000

  /** What the engine is sent by OutputMessage: MT_Warning or MT_Error, and which notice. */
  datatype MessageType = MtWarning | MtError
  datatype Message = Message(kind: MessageType, notice: Notice)

  /** The notices RecordInfo sends: a duplicate renamed, a decimal over 258 characters, a fixed string over 16384 bytes. */
  datatype Notice = DuplicateRenamed(original: string) | PrecisionLimit | StringLimit(wide: bool)

  /**
   * The exceptions RecordInfo throws, and Thrown for one thrown by the
   * naming or the <Field> tag reading below it, with its text.
   */
  datatype Failure =
    | TooManyFields
    | ZeroLength(name: string)
    | ScaleTooLarge(name: string, scale: int16, size: uint)
    | RecordTooBig(total: nat, name: string)
    | FieldMissing(name: string)
    | Thrown(text: string)

  /** The outcome of an operation that can throw. */
  datatype Attempt<T> = Done(value: T) | Threw(failure: Failure)

  /** What ValidateFieldName returns for the naming outcome v: the name, or the exception's text. */
  function Given(v: Result<FieldNames.Outcome>): (r: Result<string>)
    ensures r.Err? <==> v.Err?
    ensures v.Err? ==> r.msg == v.msg
    ensures v.Ok? ==> r.value == v.value.name
  {
    if v.Err? then Err(v.msg) else Ok(v.value.name)
  }

  /** What a method returns when its state change is a: the value, or the exception. */
  function Returned<T>(a: Attempt<(T, Info)>): (r: Attempt<T>)
    ensures r.Threw? <==> a.Threw?
    ensures a.Threw? ==> r.failure == a.failure
    ensures a.Done? ==> r.value == a.value.0
  {
    if a.Threw? then Threw(a.failure) else Done(a.value.0)
  }

  // ---------------------------------------------------------------------------
  // Texts

  /** String(int): the decimal text of a 32-bit int. */
  function IntString(v: int): string
    requires -0x8000_0000 <= v < 0x8000_0000
  {
    StringHelper.IntText(v, StringHelper.W32, 10)
  }

  /** (int) of an unsigned: the 32-bit value read as two's complement. */
  function Signed32(u: uint): (v: int)
    ensures -0x8000_0000 <= v < 0x8000_0000
    ensures u < 0x8000_0000 ==> v == u
  {
    if u < 0x8000_0000 then u else u - 0x1_0000_0000
  }

  /** The text of a notice. */
  function NoticeText(n: Notice): string
  {
    match n
    case DuplicateRenamed(original) =>
      "There were multiple fields named \"" + original + "\".  The duplicate was renamed."
    case PrecisionLimit =>
      "Fixed Decimal fields are limited to a precision of 258 characters including the sign and decimal point."
    case StringLimit(wide) =>
      if wide then "WString fields are limited to 16384 bytes.  Use a V_WString field instead."
      else "String fields are limited to 16384 bytes.  Use a V_String field instead."
  }

  /** The text of an exception. */
  function FailureText(f: Failure): string
  {
    match f
    case TooManyFields =>
      "Number of fields is larger than the 32000 limit. Please reduce the number of fields."
    case ZeroLength(name) => "Field: \"" + name + "\" is 0 length."
    case ScaleTooLarge(name, scale, size) =>
      "Field: \"" + name + "\" has too large a scale (" + IntString(scale) + ") for the precision ("
      + IntString(Signed32(size)) + ")."
    case RecordTooBig(total, name) =>
      "Record too big:  Records are limited to 2147483647 bytes. Trying to make a record with "
      + FieldNames.Decimal(total) + " bytes, when adding field named '" + name + "'"
    case FieldMissing(name) =>
      "The field \"" + name + "\" is missing. Compare the tool configuration with the input stream."
    case Thrown(text) => text
  }

  // ---------------------------------------------------------------------------
  // The field AddField constructs

  /** The type, size and scale the constructor of a field's class gives its schema. */
  datatype Shape = Shape(ft: FieldType, size: uint, scale: int)

  /**
   * By type: one byte for a Bool, the width for numbers, the schema's size
   * for fixed strings and decimals, that size capped for var strings (a size
   * beyond what 32-bit builds allow asked for the maximum), 10, 8 and 19 for
   * dates and times, MaxFieldLength for blobs.
   */
  function ShapeOf(s: FieldSchema): (p: Shape)
    requires s.ft != Unknown
    ensures p.ft == s.ft
    ensures IsNumLayout(s.ft) ==> p.size == NumWidth(s.ft)
    ensures s.ft == V_String ==> p.size == (if s.size > 250000000 then MaxFieldLength else s.size)
    ensures s.ft == V_WString ==> p.size == (if s.size > 125000000 then MaxFieldLength / 2 else s.size)
    ensures s.ft in {FixedDecimal, String, WString} ==> p.size == s.size
    ensures FieldDateTime.IsDateType(s.ft) ==> p.size == FieldDateTime.Size(s.ft)
    ensures IsBinary(s.ft) ==> p.size == MaxFieldLength && p.scale == 0
  {
    match s.ft
    case Bool => Shape(Bool, 1, 0)
    case Byte => Shape(Byte, 1, -1)
    case Int16 => Shape(Int16, 2, -1)
    case Int32 => Shape(Int32, 4, -1)
    case Int64 => Shape(Int64, 8, -1)
    case Float => Shape(Float, 4, -1)
    case Double => Shape(Double, 8, -1)
    case FixedDecimal => Shape(FixedDecimal, s.size, s.scale)
    case String => Shape(String, s.size, -1)
    case WString => Shape(WString, s.size, -1)
    case V_String => Shape(V_String, if s.size > 250000000 then MaxFieldLength else s.size, -1)
    case V_WString => Shape(V_WString, if s.size > 125000000 then MaxFieldLength / 2 else s.size, -1)
    case Date => Shape(Date, 10, -1)
    case Time => Shape(Time, 8, -1)
    case DateTime => Shape(DateTime, 19, -1)
    case Blob => Shape(Blob, MaxFieldLength, 0)
    case SpatialObj => Shape(SpatialObj, MaxFieldLength, 0)
  }

  /** A field whose raw size and var flag are the ones its type and size give. */
  predicate Laid(f: Field)
  {
    f.rawSize == RawSize(f.schema.ft, f.schema.size) && f.isVarLength == IsVarLength(f.schema.ft)
  }

  /** The field object built for a schema, before it is named and placed. */
  function Layout(s: FieldSchema): (f: Field)
    requires s.ft != Unknown
    ensures Laid(f) && f.offset == 0
    ensures f.schema.ft == s.ft && f.schema.name == s.name
    ensures f.schema.source == s.source && f.schema.description == s.description
  {
    var p := ShapeOf(s);
    var schema := Derive(s, s.name, Some(p.ft), Some(p.size), Some(p.scale), None);
    Field(schema, 0, RawSize(p.ft, p.size), IsVarLength(p.ft))
  }

  /**
   * The layout RecordInfo allots a field is the one the field's class works
   * with: the same bytes of the fixed part, and var data exactly when the
   * class keeps its value there.
   */
  lemma LayoutMatchesClass(s: FieldSchema)
    requires FieldDispatch.ImplOf(s).Some?
    ensures var f := Layout(s); var i := FieldDispatch.ImplOf(f.schema);
      i.Some? && FieldDispatch.RawSizeOf(i.value) == f.rawSize && (FieldDispatch.IsVar(i.value) <==> f.isVarLength)
  {
    var f := Layout(s);
    assert f.schema.ft == s.ft && f.schema.size == ShapeOf(s).size && f.schema.scale == ShapeOf(s).scale;
    ClassRawSize(f.schema);
  }

  /** The raw size of a field's class is the one RawSize gives its type and size. */
  lemma ClassRawSize(t: FieldSchema)
    requires FieldDispatch.ImplOf(t).Some?
    requires FieldDateTime.IsDateType(t.ft) ==> t.size == FieldDateTime.Size(t.ft)
    ensures var i := FieldDispatch.ImplOf(t).value;
      FieldDispatch.RawSizeOf(i) == RawSize(t.ft, t.size) && (FieldDispatch.IsVar(i) <==> IsVarLength(t.ft))
  {
    if IsString(t.ft) {
      StringClassRawSize(t);
    } else if t.ft == FixedDecimal || FieldDateTime.IsDateType(t.ft) {
      TextClassRawSize(t);
    } else {
      assert t.ft in {Bool, Byte, Int16, Int32, Int64, Blob, SpatialObj};
    }
  }

  lemma StringClassRawSize(t: FieldSchema)
    requires IsString(t.ft)
    ensures var i := FieldDispatch.ImplOf(t).value;
      FieldDispatch.RawSizeOf(i) == RawSize(t.ft, t.size) && (FieldDispatch.IsVar(i) <==> IsVarLength(t.ft))
  {
  }

  lemma TextClassRawSize(t: FieldSchema)
    requires FieldDispatch.ImplOf(t).Some? && (t.ft == FixedDecimal || FieldDateTime.IsDateType(t.ft))
    requires FieldDateTime.IsDateType(t.ft) ==> t.size == FieldDateTime.Size(t.ft)
    ensures var i := FieldDispatch.ImplOf(t).value;
      FieldDispatch.RawSizeOf(i) == RawSize(t.ft, t.size) && !FieldDispatch.IsVar(i) && !IsVarLength(t.ft)
  {
  }

  /** The exceptions of the FixedDecimal case: no digits, or a scale that leaves no room for the sign and the point. */
  function DecimalRefusal(s: FieldSchema): (e: Option<Failure>)
    ensures e.None? <==> s.size >= 1 && (s.scale > 0 ==> s.scale + 2 <= s.size)
  {
    if s.size == 0 then Some(ZeroLength(s.name))
    else if s.size < 2 && s.scale > 0 then Some(ScaleTooLarge(s.name, s.scale, s.size))
    else if s.scale > 0 && s.scale > s.size - 2 then Some(ScaleTooLarge(s.name, s.scale, s.size))
    else None
  }

  /** What AddField throws before a field is built. */
  function Refusal(s: FieldSchema): (e: Option<Failure>)
    ensures e.Some? <==> s.ft == FixedDecimal && DecimalRefusal(s).Some?
  {
    if s.ft == FixedDecimal then DecimalRefusal(s) else None
  }

  /**
   * The messages AddField sends an attached engine: an error for a decimal
   * over 258 characters, a warning for a fixed string over 16384; neither
   * stops the field from being added.
   */
  function Notices(s: FieldSchema, attached: bool): (ms: seq<Message>)
    ensures |ms| <= 1
    ensures ms != [] <==> attached && ((s.ft == FixedDecimal && s.size > 258) || ((s.ft == String || s.ft == WString) && s.size > 16384))
  {
    if !attached then []
    else if s.ft == FixedDecimal && s.size > MaxFixedDecimalPrecision then [Message(MtError, PrecisionLimit)]
    else if (s.ft == String || s.ft == WString) && s.size > MaxFixedLengthStringSize then
      [Message(MtWarning, StringLimit(s.ft == WString))]
    else []
  }

  /** The duplicate warning ValidateFieldName sends, when its outcome calls for it and an engine is attached. */
  function Warned(o: FieldNames.Outcome, original: string, attached: bool): seq<Message>
  {
    if o.warned && attached then [Message(MtWarning, DuplicateRenamed(original))] else []
  }

  /** The field as AddField pushes it: named, at the end of the fixed part, at its position. */
  function Placed(f: Field, name: string, offset: nat, pos: nat): Field
  {
    f.(schema := f.schema.(name := name, pos := pos), offset := offset)
  }

  // ---------------------------------------------------------------------------
  // Offsets

  /** Each field starts where the one before it ends, the first at 0, and the fixed size is where the last ends. */
  predicate Chained(fs: seq<Field>, fixed: nat)
    decreases |fs|
  {
    if fs == [] then fixed == 0
    else Chained(fs[..|fs| - 1], fs[|fs| - 1].offset) && fixed == fs[|fs| - 1].offset + fs[|fs| - 1].rawSize
  }

  /**
   * At most 32000 fields, each where the one before ends, with the raw size
   * its type and size give and its own position, the fixed size where the
   * last ends and within MaxFieldLength.
   */
  predicate Arranged(fs: seq<Field>, fixed: nat)
  {
    |fs| <= MaxFieldsLimit && Chained(fs, fixed) && fixed <= MaxFieldLength
    && forall i :: 0 <= i < |fs| ==> Laid(fs[i]) && fs[i].schema.pos == i
  }

  /** Renaming the fields and pushing a field placed at the end keeps them arranged. */
  lemma PushArranged(fs: seq<Field>, ns: seq<string>, fixed: nat, g: Field)
    requires Arranged(fs, fixed) && |ns| == |fs| && |fs| < MaxFieldsLimit
    requires Laid(g) && g.offset == fixed && g.schema.pos == |fs| && fixed + g.rawSize <= MaxFieldLength
    ensures Arranged(WithNames(fs, ns) + [g], fixed + g.rawSize)
    ensures HasVar(WithNames(fs, ns) + [g]) == (HasVar(fs) || g.isVarLength)
    ensures NameList(WithNames(fs, ns) + [g]) == ns + [g.schema.name]
  {
    LayoutKeeps(fs, WithNames(fs, ns), fixed);
    ChainPush(WithNames(fs, ns), fixed, g);
    HasVarPush(WithNames(fs, ns), g);
  }

  /** The raw sizes added up. */
  function Total(fs: seq<Field>): nat
  {
    if fs == [] then 0 else Total(fs[..|fs| - 1]) + fs[|fs| - 1].rawSize
  }

  /** Placing a field at the end keeps the chain. */
  lemma ChainPush(fs: seq<Field>, fixed: nat, f: Field)
    requires Chained(fs, fixed) && f.offset == fixed
    ensures Chained(fs + [f], fixed + f.rawSize)
  {
    assert (fs + [f])[..|fs|] == fs;
  }

  /** The chain depends only on the offsets and raw sizes. */
  lemma {:induction false} ChainedAlike(fs: seq<Field>, gs: seq<Field>, fixed: nat)
    requires Chained(fs, fixed) && |gs| == |fs|
    requires forall i :: 0 <= i < |fs| ==> gs[i].offset == fs[i].offset && gs[i].rawSize == fs[i].rawSize
    ensures Chained(gs, fixed)
    decreases |fs|
  {
    if fs != [] {
      var m := |fs| - 1;
      ChainedAlike(fs[..m], gs[..m], fs[m].offset);
    }
  }

  /** A field's offset is the sum of the raw sizes before it, and the fixed size is the sum of all. */
  lemma {:induction false} ChainedSums(fs: seq<Field>, fixed: nat)
    requires Chained(fs, fixed)
    ensures fixed == Total(fs)
    ensures forall i :: 0 <= i < |fs| ==> fs[i].offset == Total(fs[..i])
    decreases |fs|
  {
    if fs != [] {
      var m := |fs| - 1;
      var init := fs[..m];
      ChainedSums(init, fs[m].offset);
      forall i | 0 <= i < |fs|
        ensures fs[i].offset == Total(fs[..i])
      {
        if i < m {
          assert fs[..i] == init[..i];
        } else {
          assert fs[..i] == init;
        }
      }
    }
  }

  /** Every field ends within the fixed size. */
  lemma {:induction false} ChainedWithin(fs: seq<Field>, fixed: nat)
    requires Chained(fs, fixed)
    ensures forall i :: 0 <= i < |fs| ==> fs[i].offset + fs[i].rawSize <= fixed
    decreases |fs|
  {
    if fs != [] {
      var m := |fs| - 1;
      ChainedWithin(fs[..m], fs[m].offset);
      assert forall i :: 0 <= i < m ==> fs[..m][i] == fs[i];
    }
  }

  /** A field ends no later than any later one starts. */
  lemma {:induction false} ChainedOrder(fs: seq<Field>, fixed: nat, i: nat, j: nat)
    requires Chained(fs, fixed) && i < j < |fs|
    ensures fs[i].offset + fs[i].rawSize <= fs[j].offset
    decreases |fs|
  {
    var m := |fs| - 1;
    var init := fs[..m];
    if j == m {
      ChainedWithin(init, fs[m].offset);
      assert init[i] == fs[i];
    } else {
      ChainedOrder(init, fs[m].offset, i, j);
      assert init[i] == fs[i] && init[j] == fs[j];
    }
  }

  /** The fields do not overlap, and all lie within the fixed size. */
  lemma NoOverlap(fs: seq<Field>, fixed: nat)
    requires Chained(fs, fixed)
    ensures forall i, j :: 0 <= i < j < |fs| ==> fs[i].offset + fs[i].rawSize <= fs[j].offset
    ensures forall i :: 0 <= i < |fs| ==> fs[i].offset + fs[i].rawSize <= fixed
  {
    forall i, j | 0 <= i < j < |fs|
      ensures fs[i].offset + fs[i].rawSize <= fs[j].offset
    {
      ChainedOrder(fs, fixed, i, j);
    }
    ChainedWithin(fs, fixed);
  }

  // ---------------------------------------------------------------------------
  // Names of the fields

  function NameList(fs: seq<Field>): (ns: seq<string>)
    ensures |ns| == |fs| && forall i :: 0 <= i < |fs| ==> ns[i] == fs[i].schema.name
  {
    seq(|fs|, i requires 0 <= i < |fs| => fs[i].schema.name)
  }

  /** The fields with the names ns given by SetFieldName, everything else kept. */
  function WithNames(fs: seq<Field>, ns: seq<string>): (r: seq<Field>)
    requires |ns| == |fs|
    ensures |r| == |fs|
    ensures forall i :: 0 <= i < |fs| ==> r[i] == fs[i].(schema := fs[i].schema.(name := ns[i]))
  {
    seq(|fs|, i requires 0 <= i < |fs| => fs[i].(schema := fs[i].schema.(name := ns[i])))
  }

  lemma WithNamesNamed(fs: seq<Field>, ns: seq<string>)
    requires |ns| == |fs|
    ensures NameList(WithNames(fs, ns)) == ns
  {
  }

  lemma WithOwnNames(fs: seq<Field>)
    ensures WithNames(fs, NameList(fs)) == fs
  {
  }

  lemma WithNamesTwice(fs: seq<Field>, ns: seq<string>, ms: seq<string>)
    requires |ns| == |fs| == |ms|
    ensures WithNames(WithNames(fs, ns), ms) == WithNames(fs, ms)
  {
  }

  /** Renaming field p afterwards is renaming it in the list of names. */
  lemma WithNamesSet(fs: seq<Field>, ns: seq<string>, p: nat, name: string)
    requires |ns| == |fs| && p < |fs|
    ensures var gs := WithNames(fs, ns);
      gs[p := gs[p].(schema := gs[p].schema.(name := name))] == WithNames(fs, ns[p := name])
  {
  }

  /** gs is fs with some fields named differently: nothing else differs. */
  predicate Renaming(fs: seq<Field>, gs: seq<Field>)
  {
    |gs| == |fs| && forall i :: 0 <= i < |fs| ==> gs[i] == fs[i].(schema := fs[i].schema.(name := gs[i].schema.name))
  }

  /** Renamed fields keep their places, sizes, types and positions, and whether one holds var data. */
  lemma LayoutKeeps(fs: seq<Field>, gs: seq<Field>, fixed: nat)
    requires Renaming(fs, gs)
    ensures Chained(fs, fixed) ==> Chained(gs, fixed)
    ensures Arranged(fs, fixed) ==> Arranged(gs, fixed)
    ensures HasVar(gs) == HasVar(fs)
    ensures forall i :: 0 <= i < |fs| ==> (gs[i].offset == fs[i].offset && gs[i].rawSize == fs[i].rawSize
      && gs[i].schema.ft == fs[i].schema.ft && gs[i].schema.pos == fs[i].schema.pos)
  {
    if Chained(fs, fixed) {
      ChainedAlike(fs, gs, fixed);
    }
    if HasVar(fs) {
      var i :| 0 <= i < |fs| && fs[i].isVarLength;
      assert gs[i].isVarLength;
    }
    if HasVar(gs) {
      var i :| 0 <= i < |gs| && gs[i].isVarLength;
      assert fs[i].isVarLength;
    }
  }

  predicate HasVar(fs: seq<Field>)
  {
    exists i :: 0 <= i < |fs| && fs[i].isVarLength
  }

  lemma HasVarPush(fs: seq<Field>, f: Field)
    ensures HasVar(fs + [f]) == (HasVar(fs) || f.isVarLength)
  {
    var gs := fs + [f];
    if f.isVarLength {
      assert gs[|fs|].isVarLength;
    }
    if HasVar(fs) {
      var i :| 0 <= i < |fs| && fs[i].isVarLength;
      assert gs[i].isVarLength;
    }
    if HasVar(gs) {
      var i :| 0 <= i < |gs| && gs[i].isVarLength;
      if i < |fs| {
        assert fs[i].isVarLength;
      }
    }
  }

  // ---------------------------------------------------------------------------
  // Looking fields up

  /** GetFieldNum: the field the map has for the name; -1 or the exception when it has none. */
  function GetFieldNum(nums: map<string, nat>, name: string, throwError: bool): (r: Attempt<int>)
    ensures r.Done? && r.value >= 0 <==> NameKey(name) in nums
    ensures NameKey(name) in nums ==> r == Done(nums[NameKey(name)])
    ensures NameKey(name) !in nums ==> r == (if throwError then Threw(FieldMissing(name)) else Done(-1))
  {
    if NameKey(name) in nums then Done(nums[NameKey(name)])
    else if throwError then Threw(FieldMissing(name))
    else Done(-1)
  }

  /**
   * Where the map is exact, GetFieldNum finds a field exactly when the field
   * has the name asked for, up to case; otherwise -1 or the exception.
   */
  lemma GetFieldNumFinds(st: FieldNames.Names, name: string, throwError: bool)
    requires FieldNames.Exact(st, {}) && FieldNames.Indexed(st, {})
    ensures forall i :: 0 <= i < |st.names| ==> (GetFieldNum(st.nums, name, throwError) == Done(i) <==> SameName(st.names[i], name))
    ensures (forall i :: 0 <= i < |st.names| ==> !SameName(st.names[i], name)) ==>
      GetFieldNum(st.nums, name, throwError) == (if throwError then Threw(FieldMissing(name)) else Done(-1))
  {
    if NameKey(name) in st.nums {
      FieldNames.LookupNamesField(st, name);
    }
  }

  // ---------------------------------------------------------------------------
  // Comparing schemas

  /** CompareSchemas: as many fields, each comparing equal (type, name without case, size, scale). */
  predicate SameSchemas(a: seq<Field>, b: seq<Field>)
  {
    |a| == |b| && forall x :: 0 <= x < |a| ==> Compare(a[x].schema, b[x].schema)
  }

  /** EqualTypes: the fields have the types of b's fields in order, and as many unless more are allowed in b. */
  predicate SameTypes(a: seq<Field>, b: seq<Field>, allowAdditional: bool)
  {
    (if allowAdditional then |a| <= |b| else |a| == |b|)
    && forall x :: 0 <= x < |a| ==> EqualType(a[x].schema, b[x].schema)
  }

  /** Equal schemas have equal types; equal types allowing more fields are equal types of a prefix. */
  lemma SchemasAndTypes(a: seq<Field>, b: seq<Field>)
    ensures SameSchemas(a, b) ==> SameTypes(a, b, false)
    ensures SameTypes(a, b, false) ==> SameTypes(a, b, true)
    ensures SameTypes(a, b, true) <==> |a| <= |b| && SameTypes(a, b[..|a|], false)
    ensures SameSchemas(a, a)
  {
    forall x | 0 <= x < |a|
      ensures Compare(a[x].schema, a[x].schema)
    {
      CompareEquivalence(a[x].schema, a[x].schema, a[x].schema);
    }
    if |a| <= |b| {
      assert forall x :: 0 <= x < |a| ==> b[..|a|][x] == b[x];
    }
  }

  // ---------------------------------------------------------------------------
  // CreateFieldXml

  /** The types CreateFieldXml writes no size for. */
  predicate Sizeless(ft: FieldType)
  {
    IsBoolOrInteger(ft) || IsFloat(ft) || IsDateOrTime(ft)
  }

  /** The attributes a <Field> tag can carry, declared in the alphabetical order of their names. */
  datatype Key = DescriptionKey | NameKeyAttr | ScaleKey | SizeKey | SourceKey | TypeKey

  function KeyName(k: Key): string
  {
    match k
    case DescriptionKey => "description"
    case NameKeyAttr => "name"
    case ScaleKey => "scale"
    case SizeKey => "size"
    case SourceKey => "source"
    case TypeKey => "type"
  }

  function Rank(k: Key): nat
  {
    match k
    case DescriptionKey => 0
    case NameKeyAttr => 1
    case ScaleKey => 2
    case SizeKey => 3
    case SourceKey => 4
    case TypeKey => 5
  }

  /**
   * The attributes of the <Field> tag, in six parts of one attribute or
   * none: description when there is one, name, scale for a FixedDecimal,
   * size for the types that have one (a V_WString's capped at the
   * characters MaxFieldLength bytes hold), source when there is one, and
   * type.
   */
  function Parts(name: string, ft: FieldType, size: uint, scale: int, source: string, description: string): (p: seq<seq<(Key, string)>>)
    requires -0x8000_0000 <= scale < 0x8000_0000
    ensures Ranked(p)
  {
    var wsize := if ft == V_WString && size > MaxFieldLength / 2 then MaxFieldLength / 2 else size;
    [Attr(DescriptionKey, description != [], MiniXml.EscapeAttribute(description)),
     Attr(NameKeyAttr, true, MiniXml.EscapeAttribute(name)),
     Attr(ScaleKey, ft == FixedDecimal, IntString(scale)),
     Attr(SizeKey, !Sizeless(ft), IntString(Signed32(wsize))),
     Attr(SourceKey, source != [], MiniXml.EscapeAttribute(source)),
     Attr(TypeKey, true, GetNameFromFieldType(ft))]
  }

  /** The part of key k: its attribute when present, nothing otherwise. */
  function Attr(k: Key, present: bool, v: string): (a: seq<(Key, string)>)
    ensures |a| <= 1 && (a != [] ==> a[0].0 == k)
    ensures present <==> a == [(k, v)]
    ensures !present <==> a == []
  {
    if present then [(k, v)] else []
  }

  /** The attributes, part after part. */
  function FieldAttributes(name: string, ft: FieldType, size: uint, scale: int, source: string, description: string): (attrs: seq<(Key, string)>)
    requires -0x8000_0000 <= scale < 0x8000_0000
  {
    var p := Parts(name, ft, size, scale, source, description);
    p[0] + (p[1] + (p[2] + (p[3] + (p[4] + p[5]))))
  }

  /** Each attribute as ' key="value"'. */
  function Rendered(attrs: seq<(Key, string)>): string
  {
    if attrs == [] then "" else " " + KeyName(attrs[0].0) + "=\"" + attrs[0].1 + "\"" + Rendered(attrs[1..])
  }

  /** CreateFieldXml: a tab, the tag with its attributes, and a new line. */
  function CreateFieldXml(name: string, ft: FieldType, size: uint, scale: int, source: string, description: string): string
    requires -0x8000_0000 <= scale < 0x8000_0000
  {
    "\t<Field" + Rendered(FieldAttributes(name, ft, size, scale, source, description)) + "/>\n"
  }

  /** The attribute of key k, if the list has one. */
  function ValueOf(attrs: seq<(Key, string)>, k: Key): Option<string>
  {
    if attrs == [] then None else if attrs[0].0 == k then Some(attrs[0].1) else ValueOf(attrs[1..], k)
  }

  /** The attributes are in alphabetical order of their names. */
  lemma FieldAttributesSorted(name: string, ft: FieldType, size: uint, scale: int, source: string, description: string)
    requires -0x8000_0000 <= scale < 0x8000_0000
    ensures var attrs := FieldAttributes(name, ft, size, scale, source, description);
      forall i, j :: 0 <= i < j < |attrs| ==> Rank(attrs[i].0) < Rank(attrs[j].0)
  {
    RankedSorted(Parts(name, ft, size, scale, source, description));
  }

  /** Ranked parts, joined, list their keys in increasing rank. */
  lemma RankedSorted(p: seq<seq<(Key, string)>>)
    requires Ranked(p)
    ensures var attrs := p[0] + (p[1] + (p[2] + (p[3] + (p[4] + p[5]))));
      forall i, j :: 0 <= i < j < |attrs| ==> Rank(attrs[i].0) < Rank(attrs[j].0)
  {
    forall r | 0 <= r < 6
      ensures RanksIn(p[r], r, r + 1)
    {
      RanksGrow(p[r], r, r + 1);
    }
    RanksJoin(p[4], p[5], 4, 5, 6);
    RanksJoin(p[3], p[4] + p[5], 3, 4, 6);
    RanksJoin(p[2], p[3] + (p[4] + p[5]), 2, 3, 6);
    RanksJoin(p[1], p[2] + (p[3] + (p[4] + p[5])), 1, 2, 6);
    RanksJoin(p[0], p[1] + (p[2] + (p[3] + (p[4] + p[5]))), 0, 1, 6);
  }

  /**
   * Name and type are always there, description and source exactly when
   * they are not empty, scale exactly for a FixedDecimal and size exactly
   * for the types that have one; every text is escaped.
   */
  lemma FieldAttributesPresent(name: string, ft: FieldType, size: uint, scale: int, source: string, description: string)
    requires -0x8000_0000 <= scale < 0x8000_0000
    ensures var attrs := FieldAttributes(name, ft, size, scale, source, description);
      ValueOf(attrs, NameKeyAttr) == Some(MiniXml.EscapeAttribute(name))
      && ValueOf(attrs, TypeKey) == Some(GetNameFromFieldType(ft))
      && ValueOf(attrs, DescriptionKey) == (if description != [] then Some(MiniXml.EscapeAttribute(description)) else None)
      && ValueOf(attrs, SourceKey) == (if source != [] then Some(MiniXml.EscapeAttribute(source)) else None)
      && (ValueOf(attrs, ScaleKey).Some? <==> ft == FixedDecimal)
      && (ValueOf(attrs, SizeKey).Some? <==> !Sizeless(ft))
  {
    var p := Parts(name, ft, size, scale, source, description);
    var wsize := if ft == V_WString && size > MaxFieldLength / 2 then MaxFieldLength / 2 else size;
    ValueOfParts(p, DescriptionKey);
    ValueOfAttr(DescriptionKey, description != [], MiniXml.EscapeAttribute(description));
    ValueOfParts(p, NameKeyAttr);
    ValueOfAttr(NameKeyAttr, true, MiniXml.EscapeAttribute(name));
    ValueOfParts(p, ScaleKey);
    ValueOfAttr(ScaleKey, ft == FixedDecimal, IntString(scale));
    ValueOfParts(p, SizeKey);
    ValueOfAttr(SizeKey, !Sizeless(ft), IntString(Signed32(wsize)));
    ValueOfParts(p, SourceKey);
    ValueOfAttr(SourceKey, source != [], MiniXml.EscapeAttribute(source));
    ValueOfParts(p, TypeKey);
    ValueOfAttr(TypeKey, true, GetNameFromFieldType(ft));
  }

  /** A part of one key holds that key's value exactly when it is present. */
  lemma ValueOfAttr(k: Key, present: bool, v: string)
    ensures ValueOf(Attr(k, present, v), k) == if present then Some(v) else None
  {
  }

  /** Six parts of at most one attribute each, part r holding the key of rank r. */
  predicate Ranked(p: seq<seq<(Key, string)>>)
  {
    |p| == 6 && forall r :: 0 <= r < 6 ==> |p[r]| <= 1 && (p[r] != [] ==> Rank(p[r][0].0) == r)
  }

  /** In ranked parts, the value of a key is the one in its own part. */
  lemma ValueOfParts(p: seq<seq<(Key, string)>>, k: Key)
    requires Ranked(p)
    ensures ValueOf(p[0] + (p[1] + (p[2] + (p[3] + (p[4] + p[5])))), k) == ValueOf(p[Rank(k)], k)
  {
    forall r | 0 <= r < 6 && r != Rank(k)
      ensures ValueOf(p[r], k) == None
    {
      if p[r] != [] {
        assert p[r][1..] == [];
      }
    }
    ValueOfJoin(p[4], p[5], k);
    ValueOfJoin(p[3], p[4] + p[5], k);
    ValueOfJoin(p[2], p[3] + (p[4] + p[5]), k);
    ValueOfJoin(p[1], p[2] + (p[3] + (p[4] + p[5])), k);
    ValueOfJoin(p[0], p[1] + (p[2] + (p[3] + (p[4] + p[5]))), k);
  }

  function Either<T>(a: Option<T>, b: Option<T>): Option<T>
  {
    if a.Some? then a else b
  }

  /** The keys of attrs ranked strictly increasing, all in [lo, hi). */
  predicate RanksIn(attrs: seq<(Key, string)>, lo: nat, hi: nat)
  {
    (forall i, j :: 0 <= i < j < |attrs| ==> Rank(attrs[i].0) < Rank(attrs[j].0))
    && forall i :: 0 <= i < |attrs| ==> lo <= Rank(attrs[i].0) < hi
  }

  lemma RanksGrow(attrs: seq<(Key, string)>, lo: nat, hi: nat)
    requires |attrs| <= 1 && forall i :: 0 <= i < |attrs| ==> lo <= Rank(attrs[i].0) < hi
    ensures RanksIn(attrs, lo, hi)
  {
  }

  lemma RanksJoin(a: seq<(Key, string)>, b: seq<(Key, string)>, lo: nat, mid: nat, hi: nat)
    requires lo <= mid <= hi && RanksIn(a, lo, mid) && RanksIn(b, mid, hi)
    ensures RanksIn(a + b, lo, hi)
  {
    var c := a + b;
    forall i | 0 <= i < |c|
      ensures lo <= Rank(c[i].0) < hi
    {
      if i < |a| {
        assert c[i] == a[i];
      } else {
        assert c[i] == b[i - |a|];
      }
    }
    forall i, j | 0 <= i < j < |c|
      ensures Rank(c[i].0) < Rank(c[j].0)
    {
      if j < |a| {
        assert c[i] == a[i] && c[j] == a[j];
      } else if i >= |a| {
        assert c[i] == b[i - |a|] && c[j] == b[j - |a|];
      } else {
        assert c[i] == a[i] && c[j] == b[j - |a|];
      }
    }
  }

  lemma {:induction false} ValueOfJoin(a: seq<(Key, string)>, b: seq<(Key, string)>, k: Key)
    ensures ValueOf(a + b, k) == Either(ValueOf(a, k), ValueOf(b, k))
  {
    if a != [] {
      assert (a + b)[0] == a[0];
      assert (a + b)[1..] == a[1..] + b;
      ValueOfJoin(a[1..], b, k);
    } else {
      assert a + b == b;
    }
  }

  // ---------------------------------------------------------------------------
  // Whole records in memory

  /** The int32 at s[i..i+4]. */
  function ReadI32(s: seq<byte>, i: nat): (v: int)
    requires i + 4 <= |s|
    ensures ReadU32(s, i) < 0x8000_0000 ==> v == ReadU32(s, i)
  {
    Signed32(ReadU32(s, i))
  }

  /** size_t arithmetic: modulo 2^64. */
  const SizeRange: nat := 0x1_0000_0000_0000_0000

  /**
   * HasWholeRecord over the len bytes mem at pstart: without var data the
   * fixed part must fit; with it the length word must, and then the fixed
   * part, the word and the var data it counts. The sum is taken in size_t,
   * so a negative word no larger than the fixed part and the word passes.
   */
  function HasWholeRecord(fixed: nat, hasVar: bool, mem: seq<byte>): (b: bool)
    ensures !hasVar ==> (b <==> fixed <= |mem|)
    ensures hasVar && fixed + 4 > |mem| ==> !b
    ensures hasVar && fixed + 4 <= |mem| < SizeRange / 2 && ReadU32(mem, fixed) < 0x8000_0000 ==>
      (b <==> fixed + 4 + ReadU32(mem, fixed) <= |mem|)
    ensures hasVar && fixed + 4 <= |mem| && 0 <= fixed + 4 + ReadI32(mem, fixed) < fixed + 4 ==> b
  {
    if !hasVar then fixed <= |mem|
    else if fixed + 4 > |mem| then false
    else (fixed + 4 + ReadI32(mem, fixed)) % SizeRange <= |mem|
  }

  /** The bytes a record takes: the fixed part, then the length word and the var data it counts. */
  function SpanAt(d: seq<byte>, pos: nat, fixed: nat, hasVar: bool): nat
    requires pos + fixed + (if hasVar then 4 else 0) <= |d|
  {
    fixed + (if hasVar then 4 + ReadU32(d, pos + fixed) else 0)
  }

  /** d holds a whole record at pos, with a non-negative length word. */
  predicate WholeAt(d: seq<byte>, pos: nat, fixed: nat, hasVar: bool)
  {
    pos + fixed + (if hasVar then 4 else 0) <= |d|
    && (hasVar ==> ReadU32(d, pos + fixed) < 0x8000_0000)
    && pos + SpanAt(d, pos, fixed, hasVar) <= |d|
  }

  /** GetRecordLen: the fixed size, plus the word and the var-data length it holds, in size_t. */
  function GetRecordLen(fixed: nat, hasVar: bool, rec: seq<byte>): (n: nat)
    requires fixed + (if hasVar then 4 else 0) <= |rec|
    ensures n < SizeRange
    ensures (!hasVar || ReadU32(rec, fixed) < 0x8000_0000) && SpanAt(rec, 0, fixed, hasVar) < SizeRange ==> n == SpanAt(rec, 0, fixed, hasVar)
  {
    (fixed + (if hasVar then 4 + ReadI32(rec, fixed) else 0)) % SizeRange
  }

  /** Copy(pDest, avail, src): nothing when the room is short, else the record's bytes and their count. */
  function CopyOut(fixed: nat, hasVar: bool, avail: nat, src: seq<byte>): (r: (nat, seq<byte>))
    requires fixed + (if hasVar then 4 else 0) <= |src|
    requires GetRecordLen(fixed, hasVar, src) <= avail ==> GetRecordLen(fixed, hasVar, src) <= |src|
    ensures avail < GetRecordLen(fixed, hasVar, src) ==> r == (0, [])
    ensures avail >= GetRecordLen(fixed, hasVar, src) ==> r.0 == GetRecordLen(fixed, hasVar, src) && r.1 == src[..r.0]
  {
    var n := GetRecordLen(fixed, hasVar, src);
    if avail < n then (0, []) else (n, src[..n])
  }

  /** A record buffer whose start is a stream's record at p holds the same length word. */
  lemma WordAt(rec: seq<byte>, d: seq<byte>, p: nat, fixed: nat)
    requires fixed + 4 <= |rec| && p + fixed + 4 <= |d| && rec[..fixed + 4] == d[p..p + fixed + 4]
    ensures ReadU32(rec, fixed) == ReadU32(d, p + fixed) && ReadI32(rec, fixed) == ReadI32(d, p + fixed)
  {
    assert rec[fixed..fixed + 4] == rec[..fixed + 4][fixed..fixed + 4];
    assert d[p + fixed..p + fixed + 4] == d[p..p + fixed + 4][fixed..fixed + 4];
  }

  /** A stream's bytes at p: the first head of them, then the next n. */
  lemma Concat(d: seq<byte>, p: nat, head: nat, n: nat)
    requires p + head + n <= |d|
    ensures d[p..p + head + n] == d[p..p + head] + d[p + head..p + head + n]
  {
  }

  /**
   * Write's return, the record version: 1 when the int sum of the bytes
   * written (the fixed part, the word and the var data) is past 0x0fffffff,
   * a record over 256MB; 0 otherwise and without var data.
   */
  function VersionOf(fixed: nat, hasVar: bool, n: nat): (v: nat)
    ensures v <= 1
    ensures fixed + 4 + n < 0x8000_0000 ==> (v == 1 <==> hasVar && fixed + 4 + n > 0x0fff_ffff)
  {
    if hasVar && Signed32((fixed + 4 + n) % 0x1_0000_0000) > 0x0fff_ffff then 1 else 0
  }

  /**
   * Read after Write: a record written to a stream, read back from where it
   * starts, is seen whole, with the same length, and its bytes are the ones
   * written.
   */
  lemma ReadAfterWrite(rec: seq<byte>, before: seq<byte>, after: seq<byte>, fixed: nat, hasVar: bool)
    requires WholeAt(rec, 0, fixed, hasVar)
    ensures var n := SpanAt(rec, 0, fixed, hasVar); var d := before + rec[..n] + after;
      WholeAt(d, |before|, fixed, hasVar) && SpanAt(d, |before|, fixed, hasVar) == n
      && d[|before|..|before| + n] == rec[..n]
  {
    var n := SpanAt(rec, 0, fixed, hasVar);
    var d := before + rec[..n] + after;
    var p := |before|;
    assert d[p..p + n] == rec[..n];
    if hasVar {
      assert d[p + fixed..p + fixed + 4] == rec[fixed..fixed + 4] by {
        assert d[p + fixed..p + fixed + 4] == d[p..p + n][fixed..fixed + 4];
      }
    }
  }

  // ---------------------------------------------------------------------------
  // The duplicate loop

  /** The first duplicate's branch: the root and the counter the name's ending calls for. */
  method Begin(s: string) returns (root: string, nextNum: nat, multiDigitOk: bool, append9: bool)
    requires s != []
    ensures FieldNames.Gen(root, nextNum, multiDigitOk, append9) == FieldNames.Start(s)
  {
    var n := |s|;
    root, multiDigitOk, append9 := s, false, false;
    if n >= 2 && !FieldNames.IsDigit(s[n - 2]) && '2' <= s[n - 1] <= '8' {
      nextNum := s[n - 1] as int - '0' as int;
      root := s[..n - 1];
      append9 := true;
    } else if FieldNames.IsDigit(s[n - 1]) {
      root := root + "_";
      multiDigitOk := true;
      nextNum := 1;
    } else {
      nextNum := 1;
      append9 := true;
    }
  }

  /** ++nNextNum, and past 9 without multiple digits the "9_" (or "_") suffix and a counter from 2. */
  method Bump(root: string, nextNum: nat, multiDigitOk: bool, append9: bool) returns (root': string, nextNum': nat, multiDigitOk': bool)
    ensures FieldNames.Gen(root', nextNum', multiDigitOk', append9) == FieldNames.Advance(FieldNames.Gen(root, nextNum, multiDigitOk, append9))
  {
    root', nextNum', multiDigitOk' := root, nextNum + 1, multiDigitOk;
    if nextNum' == 10 && !multiDigitOk {
      nextNum' := 2;
      root' := root + (if append9 then "9" else "") + "_";
      multiDigitOk' := true;
    }
  }

  /**
   * The loop of ValidateFieldName once the first candidate s is taken: the
   * generated names in turn until one is free, or None when the 999th
   * attempt is reached.
   */
  method FindFree(nums: map<string, nat>, s: string, maxLen: nat) returns (r: Option<string>)
    requires s != []
    ensures r == FieldNames.Search(nums, FieldNames.Start(s), 1, maxLen)
  {
    var root, nextNum, multiDigitOk, append9 := Begin(s);
    // attempt is ++nDups: the duplicate count once it is incremented
    var attempt := 1;
    while true
      invariant 1 <= attempt <= FieldNames.NumDupsToTry
      invariant FieldNames.Search(nums, FieldNames.Start(s), 1, maxLen)
        == FieldNames.Search(nums, FieldNames.Gen(root, nextNum, multiDigitOk, append9), attempt, maxLen)
      decreases FieldNames.NumDupsToTry - attempt
    {
      if attempt >= FieldNames.NumDupsToTry {
        return None;
      }
      root, nextNum, multiDigitOk := Bump(root, nextNum, multiDigitOk, append9);
      var candidate := FieldNames.Candidate(FieldNames.Gen(root, nextNum, multiDigitOk, append9), maxLen);
      if NameKey(candidate) !in nums {
        return Some(candidate);
      }
      attempt := attempt + 1;
    }
  }

  // ---------------------------------------------------------------------------
  // The state of a RecordInfo, as a value

  /** The fields, the original names, the name map, the fixed size, the var-data flag and the messages sent. */
  datatype Info = Info(fields: seq<Field>, originals: seq<string>, nums: map<string, nat>,
                       fixed: nat, hasVar: bool, messages: seq<Message>)

  /** The naming state of an Info. */
  function NamesOf(i: Info): FieldNames.Names
  {
    FieldNames.Names(NameList(i.fields), i.originals, i.nums)
  }

  /**
   * The layout and naming invariant: at most 32000 fields, each where the
   * one before ends, with its raw size and position, the fixed size their
   * end and within MaxFieldLength, every field found under its name and
   * every entry naming its field.
   */
  predicate ConsistentInfo(i: Info)
  {
    Arranged(i.fields, i.fixed) && FieldNames.Exact(NamesOf(i), {}) && FieldNames.Indexed(NamesOf(i), {})
  }

  /** Consistent, with the var-data flag set exactly when a field keeps its value there. */
  predicate ValidInfo(i: Info)
  {
    ConsistentInfo(i) && (i.hasVar <==> HasVar(i.fields))
  }

  /**
   * What the invariant means: the field names differ without case, the
   * fields lie one after another without overlap inside the fixed size,
   * which is the sum of their raw sizes, and a name the map finds is the
   * name of the field it leads to.
   */
  lemma ConsistentMeaning(i: Info)
    requires ConsistentInfo(i)
    ensures forall a, b :: 0 <= a < b < |i.fields| ==> !SameName(i.fields[a].schema.name, i.fields[b].schema.name)
    ensures forall a, b :: 0 <= a < b < |i.fields| ==> i.fields[a].offset + i.fields[a].rawSize <= i.fields[b].offset
    ensures forall a :: 0 <= a < |i.fields| ==> i.fields[a].offset + i.fields[a].rawSize <= i.fixed
    ensures i.fixed == Total(i.fields)
    ensures forall k :: k in i.nums ==> i.nums[k] < |i.fields| && k == NameKey(i.fields[i.nums[k]].schema.name)
  {
    FieldNames.DistinctNames(NamesOf(i));
    NoOverlap(i.fields, i.fixed);
    ChainedSums(i.fields, i.fixed);
  }

  /** The state once ValidateFieldName has given its outcome: names, originals, map and the warning. */
  function Renamed(i: Info, o: FieldNames.Outcome, original: string, attached: bool): Info
    requires |o.st.names| == |i.fields|
  {
    i.(fields := WithNames(i.fields, o.st.names), originals := o.st.originals, nums := o.st.nums,
       messages := i.messages + Warned(o, original, attached))
  }

  /**
   * The rename branch's state: field p named again by outcome o from state
   * j, and then given name, is state i renamed by the branch's outcome when
   * j differs from i only in the map.
   */
  lemma RenamedAgain(i: Info, j: Info, o: FieldNames.Outcome, p: nat, original: string, s: string, attached: bool)
    requires |o.st.names| == |i.fields| && p < |i.fields| && !o.warned
    requires j == i.(nums := j.nums)
    ensures var k := Renamed(j, o, original, attached);
      k.(fields := SetName(k.fields, p, o.name)) == Renamed(i, FieldNames.Outcome(FieldNames.Named(o.st, p, o.name), s, false), s, attached)
  {
    SetNameNamed(i.fields, o.st.names, p, o.name);
  }

  /** SetFieldName on field n. */
  function SetName(fs: seq<Field>, n: nat, name: string): (gs: seq<Field>)
    requires n < |fs|
    ensures Renaming(fs, gs) && gs[n].schema.name == name
    ensures forall a :: 0 <= a < |fs| && a != n ==> gs[a] == fs[a]
  {
    fs[n := fs[n].(schema := fs[n].schema.(name := name))]
  }

  /** Naming field n afterwards is naming it in the list of names. */
  lemma SetNameNamed(fs: seq<Field>, ns: seq<string>, n: nat, name: string)
    requires |ns| == |fs| && n < |fs|
    ensures SetName(WithNames(fs, ns), n, name) == WithNames(fs, ns[n := name])
    ensures NameList(SetName(WithNames(fs, ns), n, name)) == ns[n := name]
  {
    WithNamesSet(fs, ns, n, name);
  }

  /** What naming a new field needs: every entry a field with an original, and none for the next field. */
  predicate Nameable(i: Info)
  {
    FieldNames.Bounded(NamesOf(i), |i.fields|) && forall k :: k in i.nums ==> i.nums[k] != |i.fields|
  }

  lemma ConsistentNameable(i: Info)
    requires ConsistentInfo(i)
    ensures Nameable(i)
  {
    FieldNames.ExactBounded(NamesOf(i), {});
  }

  /** A consistent state is ready to name one more field. */
  lemma ConsistentReady(i: Info)
    requires ConsistentInfo(i)
    ensures FieldNames.Ready(NamesOf(i), |i.fields|, {})
  {
    FieldNames.ExactBounded(NamesOf(i), {});
  }

  // ---------------------------------------------------------------------------
  // Adding a field

  /** The state once a field named by outcome o is pushed: o's names and map, g last, the fixed size grown. */
  function PushInfo(i: Info, o: FieldNames.Outcome, g: Field, original: string, attached: bool): Info
    requires |o.st.names| == |i.fields|
  {
    var j := Renamed(i, o, original, attached);
    j.(fields := j.fields + [g], fixed := i.fixed + g.rawSize, hasVar := i.hasVar || g.isVarLength)
  }

  /** Pushing after renaming keeps the layout, and the names become o's with g's name added. */
  lemma PushInfoKeeps(i: Info, o: FieldNames.Outcome, g: Field, original: string, attached: bool)
    requires Arranged(i.fields, i.fixed) && |o.st.names| == |i.fields| < MaxFieldsLimit
    requires Laid(g) && g.offset == i.fixed && g.schema.pos == |i.fields| && i.fixed + g.rawSize <= MaxFieldLength
    ensures var j := PushInfo(i, o, g, original, attached);
      Arranged(j.fields, j.fixed) && NamesOf(j) == FieldNames.Named(o.st, |i.fields|, g.schema.name)
      && HasVar(j.fields) == (HasVar(i.fields) || g.isVarLength)
      && Renaming(i.fields, j.fields[..|i.fields|])
  {
    PushArranged(i.fields, o.st.names, i.fixed, g);
    assert (WithNames(i.fields, o.st.names) + [g])[..|i.fields|] == WithNames(i.fields, o.st.names);
  }

  /**
   * The inner AddField on a state: past 32000 fields the exception; the
   * field is named by ValidateFieldName and pushed.
   */
  function Pushed(c: FieldNames.Config, attached: bool, i: Info, f: Field, warn: bool): Attempt<(Field, Info)>
    requires c.maxLen >= 1 && Nameable(i)
  {
    var n := |i.fields|;
    if n >= MaxFieldsLimit then Threw(TooManyFields)
    else PushNamed(i, FieldNames.Validate(c, NamesOf(i), f.schema.name, n, warn, n + 1), f, attached)
  }

  /**
   * Once the naming gave v: its exception, or the field named, placed where
   * the fixed part ends, given its position and pushed; a fixed part over
   * MaxFieldLength is the "Record too big" exception.
   */
  function PushNamed(i: Info, v: Result<FieldNames.Outcome>, f: Field, attached: bool): Attempt<(Field, Info)>
    requires v.Ok? ==> |v.value.st.names| == |i.fields|
  {
    if v.Err? then Threw(Thrown(v.msg))
    else
      var g := Placed(f, v.value.name, i.fixed, |i.fields|);
      var total := i.fixed + g.rawSize;
      if total > MaxFieldLength then Threw(RecordTooBig(total, v.value.name))
      else Done((g, PushInfo(i, v.value, g, f.schema.name, attached)))
  }

  /**
   * j is fields fs of fixed size fixed, var-data flag hasVar, with f
   * pushed: j is consistent, the new field g is f named, placed at the old
   * fixed size with its position, under a name no other field has; the
   * fixed size grows by f's raw size, var data is there (and flagged)
   * exactly when it was or f has it, and the other fields are only
   * renamed.
   */
  predicate Grown(fs: seq<Field>, fixed: nat, hasVar: bool, f: Field, g: Field, j: Info)
  {
    var n := |fs|;
    ConsistentInfo(j) && |j.fields| == n + 1 && j.fields[n] == g
    && g == Placed(f, g.schema.name, fixed, n) && j.fixed == fixed + f.rawSize
    && (HasVar(j.fields) <==> HasVar(fs) || f.isVarLength) && j.hasVar == (hasVar || f.isVarLength)
    && Renaming(fs, j.fields[..n])
    && (forall a :: 0 <= a < n ==> !SameName(j.fields[a].schema.name, g.schema.name))
  }

  /** Where the map is indexed, the last field's name is no other field's. */
  lemma LastNameFresh(st: FieldNames.Names)
    requires FieldNames.Indexed(st, {}) && st.names != []
    ensures forall a :: 0 <= a < |st.names| - 1 ==> !SameName(st.names[a], st.names[|st.names| - 1])
  {
  }

  /** Pushing under a name the map was made exact for grows the state. */
  lemma PushNamedGrows(i: Info, v: Result<FieldNames.Outcome>, f: Field, attached: bool)
    requires Arranged(i.fields, i.fixed) && |i.fields| < MaxFieldsLimit && Laid(f)
    requires v.Ok? ==> (|v.value.st.names| == |i.fields|
      && var u := FieldNames.Named(v.value.st, |i.fields|, v.value.name); FieldNames.Exact(u, {}) && FieldNames.Indexed(u, {}))
    ensures var r := PushNamed(i, v, f, attached); r.Done? ==> Grown(i.fields, i.fixed, i.hasVar, f, r.value.0, r.value.1)
  {
    if v.Ok? {
      var g := Placed(f, v.value.name, i.fixed, |i.fields|);
      assert g.rawSize == f.rawSize;
      if i.fixed + f.rawSize <= MaxFieldLength {
        PushInfoGrows(i, v.value, f, attached);
      }
    }
  }

  /** The state a push under outcome o leaves is grown from i. */
  lemma PushInfoGrows(i: Info, o: FieldNames.Outcome, f: Field, attached: bool)
    requires Arranged(i.fields, i.fixed) && |i.fields| < MaxFieldsLimit && Laid(f)
    requires |o.st.names| == |i.fields| && i.fixed + f.rawSize <= MaxFieldLength
    requires var u := FieldNames.Named(o.st, |i.fields|, o.name); FieldNames.Exact(u, {}) && FieldNames.Indexed(u, {})
    ensures var g := Placed(f, o.name, i.fixed, |i.fields|);
      Grown(i.fields, i.fixed, i.hasVar, f, g, PushInfo(i, o, g, f.schema.name, attached))
  {
    var g := Placed(f, o.name, i.fixed, |i.fields|);
    var j := PushInfo(i, o, g, f.schema.name, attached);
    PushInfoKeeps(i, o, g, f.schema.name, attached);
    assert ConsistentInfo(j);
    LastNameFresh(NamesOf(j));
  }

  /** Pushing a laid-out field into a consistent state grows it. */
  lemma PushedKeeps(c: FieldNames.Config, attached: bool, i: Info, f: Field, warn: bool)
    requires c.overwrite && c.maxLen >= 1 && ConsistentInfo(i) && Laid(f)
    ensures Nameable(i)
    ensures var r := Pushed(c, attached, i, f, warn); r.Done? ==> Grown(i.fields, i.fixed, i.hasVar, f, r.value.0, r.value.1)
  {
    ConsistentNameable(i);
    var n := |i.fields|;
    if n < MaxFieldsLimit {
      NamingReady(c, i, f, warn);
      PushNamedGrows(i, FieldNames.Validate(c, NamesOf(i), f.schema.name, n, warn, n + 1), f, attached);
    }
  }

  /** In a consistent state, the naming of a new field leaves the map exact and indexed once the field has its name. */
  lemma NamingReady(c: FieldNames.Config, i: Info, f: Field, warn: bool)
    requires c.overwrite && c.maxLen >= 1 && ConsistentInfo(i) && |i.fields| < MaxFieldsLimit
    ensures var n := |i.fields|; var v := FieldNames.Validate(c, NamesOf(i), f.schema.name, n, warn, n + 1);
      v.Ok? ==> (|v.value.st.names| == n
        && var u := FieldNames.Named(v.value.st, n, v.value.name); FieldNames.Exact(u, {}) && FieldNames.Indexed(u, {}))
  {
    var n := |i.fields|;
    ConsistentReady(i);
    FieldNames.ValidateIndexes(c, NamesOf(i), f.schema.name, n, warn, n + 1, {});
  }

  /** The limits: the exception at 32000 fields, and "Record too big" once the name is given. */
  lemma PushedLimits(c: FieldNames.Config, attached: bool, i: Info, f: Field, warn: bool)
    requires c.maxLen >= 1 && Nameable(i)
    ensures |i.fields| >= MaxFieldsLimit ==> Pushed(c, attached, i, f, warn) == Threw(TooManyFields)
    ensures var n := |i.fields|; n < MaxFieldsLimit ==>
      var v := FieldNames.Validate(c, NamesOf(i), f.schema.name, n, warn, n + 1);
      v.Ok? && i.fixed + f.rawSize > MaxFieldLength ==>
      Pushed(c, attached, i, f, warn) == Threw(RecordTooBig(i.fixed + f.rawSize, v.value.name))
  {
  }

  /**
   * AddField(schema) on a state: the notices go to an attached engine
   * first, a decimal without room for its digits is refused, var types set
   * the var-data flag, and the field the schema's class lays out is pushed.
   */
  function Added(c: FieldNames.Config, attached: bool, i: Info, s: FieldSchema, warn: bool): Attempt<(Field, Info)>
    requires c.maxLen >= 1 && Nameable(i) && s.ft != Unknown
  {
    var e := Refusal(s);
    if e.Some? then Threw(e.value)
    else Pushed(c, attached, i.(messages := i.messages + Notices(s, attached), hasVar := i.hasVar || IsVarLength(s.ft)), Layout(s), warn)
  }

  /** With no refusal, AddField is the push of the laid-out field once the notices are sent and the flag set. */
  lemma AddedPushed(c: FieldNames.Config, attached: bool, i: Info, s: FieldSchema, warn: bool)
    requires c.maxLen >= 1 && Nameable(i) && s.ft != Unknown && Refusal(s).None?
    ensures var j := i.(messages := i.messages + Notices(s, attached), hasVar := i.hasVar || IsVarLength(s.ft));
      Nameable(j) && Added(c, attached, i, s, warn) == Pushed(c, attached, j, Layout(s), warn)
  {
  }

  /**
   * AddField keeps the invariant, the var-data flag included; the new field
   * has the schema's type and the layout its class gives, and is pushed as
   * Grown says.
   */
  lemma AddedKeeps(c: FieldNames.Config, attached: bool, i: Info, s: FieldSchema, warn: bool)
    requires c.overwrite && c.maxLen >= 1 && ValidInfo(i) && s.ft != Unknown
    ensures Nameable(i)
    ensures var r := Added(c, attached, i, s, warn); r.Done? ==>
      ValidInfo(r.value.1) && Grown(i.fields, i.fixed, i.hasVar || IsVarLength(s.ft), Layout(s), r.value.0, r.value.1)
  {
    ConsistentNameable(i);
    if Refusal(s).None? {
      var i1 := i.(messages := i.messages + Notices(s, attached), hasVar := i.hasVar || IsVarLength(s.ft));
      PushedKeeps(c, attached, i1, Layout(s), warn);
    }
  }

  /** What AddField can promise of its new state: the invariant. */
  lemma AddedValid(c: FieldNames.Config, attached: bool, i: Info, s: FieldSchema, warn: bool)
    requires c.overwrite && c.maxLen >= 1 && ValidInfo(i) && s.ft != Unknown
    ensures Nameable(i)
    ensures Added(c, attached, i, s, warn).Done? ==> ValidInfo(Added(c, attached, i, s, warn).value.1)
  {
    AddedKeeps(c, attached, i, s, warn);
  }

  /** The exceptions before naming: a decimal without room for its digits, then the field limit. */
  lemma AddedRefusals(c: FieldNames.Config, attached: bool, i: Info, s: FieldSchema, warn: bool)
    requires c.maxLen >= 1 && Nameable(i) && s.ft != Unknown
    ensures s.ft == FixedDecimal && (s.size == 0 || (s.scale > 0 && s.scale + 2 > s.size)) ==>
      Added(c, attached, i, s, warn) == Threw(Refusal(s).value)
    ensures Refusal(s).None? && |i.fields| >= MaxFieldsLimit ==> Added(c, attached, i, s, warn) == Threw(TooManyFields)
  {
  }

  // ---------------------------------------------------------------------------
  // Renaming fields

  /** The map without the entry under field n's name, as m_mapFieldNums.erase leaves it. */
  function Erased(i: Info, n: nat): (j: Info)
    requires n < |i.fields|
    ensures j.fields == i.fields && j.originals == i.originals && j.fixed == i.fixed && j.hasVar == i.hasVar
    ensures j.messages == i.messages && j.nums.Keys <= i.nums.Keys
    ensures forall k :: k in j.nums ==> j.nums[k] == i.nums[k]
  {
    i.(nums := i.nums - {NameKey(i.fields[n].schema.name)})
  }

  /** Erasing an entry keeps every other entry within bounds. */
  lemma ErasedBounded(i: Info, n: nat)
    requires n < |i.fields| && FieldNames.Bounded(NamesOf(i), |i.fields|)
    ensures FieldNames.Bounded(NamesOf(Erased(i, n)), |i.fields|)
  {
  }

  /**
   * In a consistent state, the map without field n's entry is still exact,
   * nothing points at n, and every other field is found: n can be named
   * again.
   */
  lemma EraseReady(i: Info, n: nat)
    requires ConsistentInfo(i) && n < |i.fields|
    ensures FieldNames.Ready(NamesOf(Erased(i, n)), n, {})
  {
    FieldNames.ExactBounded(NamesOf(i), {});
  }

  /** The state once field n is named again by outcome o. */
  function RenameInfo(i: Info, o: FieldNames.Outcome, n: nat, original: string, attached: bool): (j: Info)
    requires |o.st.names| == |i.fields| && n < |i.fields|
    ensures NamesOf(j) == FieldNames.Named(o.st, n, o.name)
    ensures Renaming(i.fields, j.fields) && j.fixed == i.fixed && j.hasVar == i.hasVar
  {
    var j := Renamed(i, o, original, attached);
    SetNameNamed(i.fields, o.st.names, n, o.name);
    j.(fields := SetName(j.fields, n, o.name))
  }

  /**
   * ValidateFieldName(newName, n) with the warnings on, then SetFieldName on
   * field n: the naming's exception, or field n and the state it leaves.
   */
  function NamedAgain(c: FieldNames.Config, attached: bool, j: Info, n: nat, newName: string): (r: Attempt<(Field, Info)>)
    requires c.maxLen >= 1 && n < |j.fields| && FieldNames.Bounded(NamesOf(j), |j.fields|)
    ensures r.Done? ==> var k := r.value.1;
      Renaming(j.fields, k.fields) && k.fixed == j.fixed && k.hasVar == j.hasVar
      && FieldNames.Bounded(NamesOf(k), |j.fields|) && r.value.0 == k.fields[n]
      && |k.originals| == FieldNames.Max(|j.originals|, n + 1)
  {
    var v := FieldNames.Validate(c, NamesOf(j), newName, n, true, |j.fields| + 1);
    if v.Err? then Threw(Thrown(v.msg))
    else
      var k := RenameInfo(j, v.value, n, newName, attached);
      Done((k.fields[n], k))
  }

  /** RenameField(n, new): n's entry is erased, and n is named again, with warnings. */
  function RenamedField(c: FieldNames.Config, attached: bool, i: Info, n: nat, newName: string): Attempt<(Field, Info)>
    requires c.maxLen >= 1 && n < |i.fields| && FieldNames.Bounded(NamesOf(i), |i.fields|)
  {
    ErasedBounded(i, n);
    NamedAgain(c, attached, Erased(i, n), n, newName)
  }

  /**
   * Renaming keeps the invariant and the layout: only names change, and
   * field n is found under the name it gets.
   */
  lemma RenamedFieldKeeps(c: FieldNames.Config, attached: bool, i: Info, n: nat, newName: string)
    requires c.overwrite && c.maxLen >= 1 && ConsistentInfo(i) && n < |i.fields|
    ensures FieldNames.Bounded(NamesOf(i), |i.fields|)
    ensures var r := RenamedField(c, attached, i, n, newName); r.Done? ==>
      var j := r.value.1;
      ConsistentInfo(j) && Renaming(i.fields, j.fields) && j.fixed == i.fixed && j.hasVar == i.hasVar
      && r.value.0 == j.fields[n] && j.nums[NameKey(j.fields[n].schema.name)] == n
  {
    FieldNames.ExactBounded(NamesOf(i), {});
    var j := Erased(i, n);
    EraseReady(i, n);
    FieldNames.ValidateIndexes(c, NamesOf(j), newName, n, true, |i.fields| + 1, {});
    var v := FieldNames.Validate(c, NamesOf(j), newName, n, true, |i.fields| + 1);
    if v.Ok? {
      var k := RenameInfo(j, v.value, n, newName, attached);
      LayoutKeeps(i.fields, k.fields, i.fixed);
    }
  }

  // ---------------------------------------------------------------------------
  // RenameFields

  /** Every entry of the map leads to a field. */
  predicate FieldsIn(i: Info)
  {
    forall k :: k in i.nums ==> i.nums[k] < |i.fields|
  }

  /** Every entry leads to a field and is keyed by that field's name. */
  predicate Keyed(i: Info)
  {
    FieldsIn(i) && forall k :: k in i.nums ==> k == NameKey(i.fields[i.nums[k]].schema.name)
  }

  lemma ConsistentKeyed(i: Info)
    requires ConsistentInfo(i)
    ensures Keyed(i)
  {
    ConsistentMeaning(i);
  }

  /** The keys the names in olds are looked up under. */
  function KeysOf(olds: seq<string>): set<string>
  {
    set m | 0 <= m < |olds| :: NameKey(olds[m])
  }

  /** Every name of olds is in the map. */
  predicate AllFound(nums: map<string, nat>, olds: seq<string>)
  {
    forall m :: 0 <= m < |olds| ==> NameKey(olds[m]) in nums
  }

  /** No two names of olds are the same up to case. */
  predicate KeysDistinct(olds: seq<string>)
  {
    forall a, b :: 0 <= a < b < |olds| ==> NameKey(olds[a]) != NameKey(olds[b])
  }

  /** The positions as a set. */
  function Members(ps: seq<nat>): set<nat>
  {
    set x | x in ps
  }

  predicate Distinct(ps: seq<nat>)
  {
    forall a, b :: 0 <= a < b < |ps| ==> ps[a] != ps[b]
  }

  /** No entry leads to a field in ps. */
  predicate NoneAt(nums: map<string, nat>, ps: set<nat>)
  {
    forall k :: k in nums ==> nums[k] !in ps
  }

  /**
   * RenameFields' first loop over olds: each name looked up, the exception
   * when it is missing, and the entry under its field's name erased; the
   * positions found, in order, and the state left.
   */
  function Erasing(i: Info, olds: seq<string>): (r: Attempt<(seq<nat>, Info)>)
    requires FieldsIn(i)
    ensures r.Done? ==> |r.value.0| == |olds| && (forall m :: 0 <= m < |olds| ==> r.value.0[m] < |i.fields|)
    ensures r.Done? ==> var j := r.value.1;
      j == i.(nums := j.nums) && j.nums.Keys <= i.nums.Keys && (forall k :: k in j.nums ==> j.nums[k] == i.nums[k])
    decreases |olds|
  {
    if olds == [] then Done(([], i))
    else
      var m := |olds| - 1;
      var e := Erasing(i, olds[..m]);
      if e.Threw? then e
      else
        var j := e.value.1;
        var g := GetFieldNum(j.nums, olds[m], true);
        if g.Threw? then Threw(g.failure)
        else
          var p: nat := g.value;
          Done((e.value.0 + [p], j.(nums := j.nums - {NameKey(j.fields[p].schema.name)})))
  }

  /** The last name of olds against the ones before it. */
  lemma PushFacts(nums: map<string, nat>, olds: seq<string>)
    requires olds != []
    ensures var m := |olds| - 1;
      KeysOf(olds) == KeysOf(olds[..m]) + {NameKey(olds[m])}
      && (AllFound(nums, olds) <==> AllFound(nums, olds[..m]) && NameKey(olds[m]) in nums)
      && (KeysDistinct(olds) <==> KeysDistinct(olds[..m]) && NameKey(olds[m]) !in KeysOf(olds[..m]))
  {
    var m := |olds| - 1;
    var front := olds[..m];
    assert forall x :: 0 <= x < m ==> front[x] == olds[x];
    if KeysDistinct(front) && NameKey(olds[m]) !in KeysOf(front) {
      forall a, b | 0 <= a < b < |olds| ensures NameKey(olds[a]) != NameKey(olds[b]) {
        if b == m {
          assert NameKey(front[a]) in KeysOf(front);
        }
      }
    }
  }

  /** One turn of the first loop, from a state missing the keys of the names before. */
  lemma EraseStep(i: Info, olds: seq<string>, j: Info)
    requires Keyed(i) && olds != []
    requires j == i.(nums := j.nums) && (forall k :: k in j.nums ==> k in i.nums && j.nums[k] == i.nums[k])
    requires j.nums.Keys == i.nums.Keys - KeysOf(olds[..|olds| - 1])
    ensures var key := NameKey(olds[|olds| - 1]);
      (key in j.nums <==> key in i.nums && key !in KeysOf(olds[..|olds| - 1]))
      && (key in j.nums ==>
            j.nums[key] < |j.fields| && NameKey(j.fields[j.nums[key]].schema.name) == key
            && (j.nums - {key}).Keys == i.nums.Keys - KeysOf(olds))
  {
    PushFacts(i.nums, olds);
  }

  /**
   * The first loop gets through exactly when every name is found and no two
   * are the same without case; then each position is the field of that
   * name, and just the entries under those names are gone.
   */
  lemma {:induction false} ErasingFinds(i: Info, olds: seq<string>)
    requires Keyed(i)
    ensures Erasing(i, olds).Done? <==> AllFound(i.nums, olds) && KeysDistinct(olds)
    ensures Erasing(i, olds).Done? ==> var ps := Erasing(i, olds).value.0;
      (forall m :: 0 <= m < |olds| ==> ps[m] == i.nums[NameKey(olds[m])])
      && Erasing(i, olds).value.1.nums.Keys == i.nums.Keys - KeysOf(olds)
    decreases |olds|
  {
    if olds != [] {
      var m := |olds| - 1;
      ErasingFinds(i, olds[..m]);
      PushFacts(i.nums, olds);
      var e := Erasing(i, olds[..m]);
      if e.Done? {
        var key := NameKey(olds[m]);
        EraseStep(i, olds, e.value.1);
        ErasingLast(i, olds, e.value.0, e.value.1);
        if key in e.value.1.nums {
          ErasedPositions(i, olds, e.value.0, i.nums[key]);
        }
      }
    }
  }

  /** The last turn of the first loop, from the state the turns before leave. */
  lemma ErasingLast(i: Info, olds: seq<string>, ps0: seq<nat>, j: Info)
    requires Keyed(i) && olds != [] && Erasing(i, olds[..|olds| - 1]) == Done((ps0, j))
    requires var key := NameKey(olds[|olds| - 1]);
      key in j.nums ==>
        key in i.nums && j.nums[key] == i.nums[key] && j.nums[key] < |j.fields|
        && NameKey(j.fields[j.nums[key]].schema.name) == key
    ensures var key := NameKey(olds[|olds| - 1]);
      (Erasing(i, olds).Done? <==> key in j.nums)
      && (key in j.nums ==>
            Erasing(i, olds) == Done((ps0 + [i.nums[key]], j.(nums := j.nums - {key}))))
  {
  }

  /** The positions found, one more. */
  lemma ErasedPositions(i: Info, olds: seq<string>, ps0: seq<nat>, p: nat)
    requires olds != [] && |ps0| == |olds| - 1
    requires forall x :: 0 <= x < |ps0| ==> NameKey(olds[x]) in i.nums && ps0[x] == i.nums[NameKey(olds[x])]
    requires NameKey(olds[|olds| - 1]) in i.nums && p == i.nums[NameKey(olds[|olds| - 1])]
    ensures forall x :: 0 <= x < |olds| ==> NameKey(olds[x]) in i.nums && (ps0 + [p])[x] == i.nums[NameKey(olds[x])]
  {
  }

  /** With the entries under the names of olds erased, what is left. */
  lemma ErasingReady(i: Info, olds: seq<string>)
    requires ConsistentInfo(i) && Keyed(i) && Erasing(i, olds).Done?
    ensures var ps := Erasing(i, olds).value.0; var j := Erasing(i, olds).value.1;
      Distinct(ps) && FieldNames.Exact(NamesOf(j), {})
      && FieldNames.Indexed(NamesOf(j), Members(ps)) && NoneAt(j.nums, Members(ps))
  {
    ErasingFinds(i, olds);
    var ps := Erasing(i, olds).value.0;
    var j := Erasing(i, olds).value.1;
    ErasedDistinct(i, olds, ps);
    ErasedExact(i, j);
    ErasedNone(i, olds, ps, j);
    ErasedIndexed(i, olds, ps, j);
  }

  lemma ErasedDistinct(i: Info, olds: seq<string>, ps: seq<nat>)
    requires Keyed(i) && KeysDistinct(olds) && |ps| == |olds|
    requires forall m :: 0 <= m < |olds| ==> NameKey(olds[m]) in i.nums && ps[m] == i.nums[NameKey(olds[m])]
    ensures Distinct(ps)
  {
    forall a, b | 0 <= a < b < |ps| ensures ps[a] != ps[b] {
      assert NameKey(olds[a]) == NameKey(i.fields[ps[a]].schema.name);
      assert NameKey(olds[b]) == NameKey(i.fields[ps[b]].schema.name);
    }
  }

  lemma ErasedExact(i: Info, j: Info)
    requires FieldNames.Exact(NamesOf(i), {})
    requires j == i.(nums := j.nums) && j.nums.Keys <= i.nums.Keys && (forall k :: k in j.nums ==> j.nums[k] == i.nums[k])
    ensures FieldNames.Exact(NamesOf(j), {})
  {
  }

  lemma ErasedNone(i: Info, olds: seq<string>, ps: seq<nat>, j: Info)
    requires Keyed(i) && |ps| == |olds|
    requires forall m :: 0 <= m < |olds| ==> NameKey(olds[m]) in i.nums && ps[m] == i.nums[NameKey(olds[m])]
    requires j.nums.Keys == i.nums.Keys - KeysOf(olds) && j.fields == i.fields
    requires forall k :: k in j.nums ==> k in i.nums && j.nums[k] == i.nums[k]
    ensures NoneAt(j.nums, Members(ps))
  {
    forall k | k in j.nums ensures j.nums[k] !in Members(ps) {
      assert k == NameKey(i.fields[i.nums[k]].schema.name);
      forall m | 0 <= m < |ps| ensures ps[m] != j.nums[k] {
        assert NameKey(olds[m]) in KeysOf(olds);
        assert NameKey(olds[m]) == NameKey(i.fields[ps[m]].schema.name);
      }
    }
  }

  lemma ErasedIndexed(i: Info, olds: seq<string>, ps: seq<nat>, j: Info)
    requires FieldNames.Indexed(NamesOf(i), {}) && |ps| == |olds|
    requires forall m :: 0 <= m < |olds| ==> NameKey(olds[m]) in i.nums && ps[m] == i.nums[NameKey(olds[m])]
    requires j.nums.Keys == i.nums.Keys - KeysOf(olds) && j == i.(nums := j.nums)
    requires forall k :: k in j.nums ==> k in i.nums && j.nums[k] == i.nums[k]
    ensures FieldNames.Indexed(NamesOf(j), Members(ps))
  {
    forall x | 0 <= x < |j.fields| && x !in Members(ps)
      ensures NameKey(NamesOf(j).names[x]) in j.nums && j.nums[NameKey(NamesOf(j).names[x])] == x
    {
      var key := NameKey(NamesOf(i).names[x]);
      assert key in i.nums && i.nums[key] == x;
      forall m | 0 <= m < |olds| ensures key != NameKey(olds[m]) {
        assert ps[m] in Members(ps);
      }
      assert key !in KeysOf(olds);
    }
  }

  /**
   * RenameFields' second loop: the fields at ps named in turn from news,
   * each by ValidateFieldName with the warnings on and SetFieldName.
   */
  function RenamingAll(c: FieldNames.Config, attached: bool, i: Info, ps: seq<nat>, news: seq<string>): (r: Attempt<Info>)
    requires c.maxLen >= 1 && |ps| == |news| && FieldNames.Bounded(NamesOf(i), |i.fields|)
    requires forall m :: 0 <= m < |ps| ==> ps[m] < |i.fields|
    ensures r.Done? ==>
      Renaming(i.fields, r.value.fields) && r.value.fixed == i.fixed && r.value.hasVar == i.hasVar
      && FieldNames.Bounded(NamesOf(r.value), |i.fields|)
      && (|i.originals| == |i.fields| ==> |r.value.originals| == |i.fields|)
    decreases |ps|
  {
    if ps == [] then Done(i)
    else
      var m := |ps| - 1;
      var r := RenamingAll(c, attached, i, ps[..m], news[..m]);
      if r.Threw? then r
      else
        var t := NamedAgain(c, attached, r.value, ps[m], news[m]);
        if t.Threw? then Threw(t.failure)
        else
          RenamingTrans(i.fields, r.value.fields, t.value.1.fields);
          Done(t.value.1)
  }

  lemma RenamingTrans(fs: seq<Field>, gs: seq<Field>, hs: seq<Field>)
    requires Renaming(fs, gs) && Renaming(gs, hs)
    ensures Renaming(fs, hs)
  {
  }

  /** RenameFields(olds, news): the entries of all old names erased first, then each field named from news. */
  function RenamedFields(c: FieldNames.Config, attached: bool, i: Info, olds: seq<string>, news: seq<string>): (r: Attempt<Info>)
    requires c.maxLen >= 1 && |olds| == |news| && FieldsIn(i) && FieldNames.Bounded(NamesOf(i), |i.fields|)
  {
    var e := Erasing(i, olds);
    if e.Threw? then Threw(e.failure)
    else RenamingAll(c, attached, e.value.1, e.value.0, news)
  }

  /** Once the first loop throws on a prefix of olds, RenameFields throws the same. */
  lemma {:induction false} ErasingStops(i: Info, olds: seq<string>, k: nat)
    requires FieldsIn(i) && k <= |olds| && Erasing(i, olds[..k]).Threw?
    ensures Erasing(i, olds) == Erasing(i, olds[..k])
    decreases |olds|
  {
    if k < |olds| {
      var m := |olds| - 1;
      assert olds[..m][..k] == olds[..k];
      ErasingStops(i, olds[..m], k);
    } else {
      assert olds[..k] == olds;
    }
  }

  /** The state the first loop leaves keeps every entry within bounds. */
  lemma ErasedBounded2(i: Info, j: Info)
    requires FieldNames.Bounded(NamesOf(i), |i.fields|)
    requires j == i.(nums := j.nums) && j.nums.Keys <= i.nums.Keys && (forall k :: k in j.nums ==> j.nums[k] == i.nums[k])
    ensures FieldNames.Bounded(NamesOf(j), |j.fields|)
  {
  }

  /** One more turn of the second loop: field ps[q] named again from the state the turns before leave. */
  lemma RenamingNext(c: FieldNames.Config, attached: bool, i: Info, ps: seq<nat>, news: seq<string>, q: nat, k: Info)
    requires c.maxLen >= 1 && |ps| == |news| && FieldNames.Bounded(NamesOf(i), |i.fields|)
    requires forall m :: 0 <= m < |ps| ==> ps[m] < |i.fields|
    requires q < |ps| && RenamingAll(c, attached, i, ps[..q], news[..q]) == Done(k)
    ensures |k.fields| == |i.fields| && FieldNames.Bounded(NamesOf(k), |k.fields|)
    ensures var t := NamedAgain(c, attached, k, ps[q], news[q]);
      RenamingAll(c, attached, i, ps[..q + 1], news[..q + 1]) == (if t.Threw? then Threw(t.failure) else Done(t.value.1))
  {
    assert ps[..q + 1][..q] == ps[..q] && news[..q + 1][..q] == news[..q];
  }

  /** What RenamingAll requires of its arguments. */
  predicate RenamingFits(c: FieldNames.Config, i: Info, ps: seq<nat>, news: seq<string>)
  {
    c.maxLen >= 1 && |ps| == |news| && FieldNames.Bounded(NamesOf(i), |i.fields|)
    && forall m :: 0 <= m < |ps| ==> ps[m] < |i.fields|
  }

  /** The outcome of the first n turns of the second loop. */
  function RenamingUpTo(c: FieldNames.Config, attached: bool, i: Info, ps: seq<nat>, news: seq<string>, n: nat): Attempt<Info>
    requires RenamingFits(c, i, ps, news) && n <= |ps|
  {
    RenamingAll(c, attached, i, ps[..n], news[..n])
  }

  /** Once the second loop throws on a prefix of the positions, it throws the same for all of them. */
  lemma RenamingStops(c: FieldNames.Config, attached: bool, i: Info, ps: seq<nat>, news: seq<string>, k: nat)
    requires c.maxLen >= 1 && |ps| == |news| && FieldNames.Bounded(NamesOf(i), |i.fields|)
    requires forall m :: 0 <= m < |ps| ==> ps[m] < |i.fields|
    requires k <= |ps| && RenamingAll(c, attached, i, ps[..k], news[..k]).Threw?
    ensures RenamingAll(c, attached, i, ps, news) == RenamingAll(c, attached, i, ps[..k], news[..k])
  {
    assert RenamingFits(c, i, ps, news);
    RenamingStopsUpTo(c, attached, i, ps, news, k);
    assert ps[..|ps|] == ps && news[..|ps|] == news;
  }

  /** RenamingStops in terms of RenamingUpTo. */
  lemma RenamingStopsUpTo(c: FieldNames.Config, attached: bool, i: Info, ps: seq<nat>, news: seq<string>, k: nat)
    requires RenamingFits(c, i, ps, news) && k <= |ps| && RenamingUpTo(c, attached, i, ps, news, k).Threw?
    ensures RenamingUpTo(c, attached, i, ps, news, |ps|) == RenamingUpTo(c, attached, i, ps, news, k)
  {
    var n := k;
    while n < |ps|
      invariant k <= n <= |ps|
      invariant RenamingUpTo(c, attached, i, ps, news, n) == RenamingUpTo(c, attached, i, ps, news, k)
    {
      RenamingThrew(c, attached, i, ps, news, n + 1);
      n := n + 1;
    }
  }

  /** A throw in the first n - 1 turns of the second loop is the outcome of n turns. */
  lemma RenamingThrew(c: FieldNames.Config, attached: bool, i: Info, ps: seq<nat>, news: seq<string>, n: nat)
    requires RenamingFits(c, i, ps, news) && 0 < n <= |ps| && RenamingUpTo(c, attached, i, ps, news, n - 1).Threw?
    ensures RenamingUpTo(c, attached, i, ps, news, n) == RenamingUpTo(c, attached, i, ps, news, n - 1)
  {
    assert ps[..n][..n - 1] == ps[..n - 1] && news[..n][..n - 1] == news[..n - 1];
  }

  /** The last position against the ones before it. */
  lemma MembersPush(ps: seq<nat>)
    requires ps != []
    ensures var m := |ps| - 1;
      Members(ps) == Members(ps[..m]) + {ps[m]}
      && (Distinct(ps) ==> Distinct(ps[..m]) && ps[m] !in Members(ps[..m]))
  {
    var m := |ps| - 1;
    assert ps == ps[..m] + [ps[m]];
    if Distinct(ps) {
      forall a | 0 <= a < m ensures ps[..m][a] != ps[m] {
        assert ps[..m][a] == ps[a];
      }
    }
  }

  /**
   * The second loop keeps the invariant for the fields not waiting for
   * their name: with the fields at ps and those in rest pending and without
   * entries, naming those at ps leaves the map exact, every field found but
   * those in rest, and nothing leading to them.
   */
  lemma {:induction false} RenamingAllKeeps(c: FieldNames.Config, attached: bool, i: Info, ps: seq<nat>, news: seq<string>, rest: set<nat>)
    requires c.overwrite && c.maxLen >= 1 && |ps| == |news| && Distinct(ps) && Members(ps) !! rest
    requires forall m :: 0 <= m < |ps| ==> ps[m] < |i.fields|
    requires FieldNames.Exact(NamesOf(i), {}) && FieldNames.Indexed(NamesOf(i), Members(ps) + rest)
    requires NoneAt(i.nums, Members(ps) + rest)
    ensures FieldNames.Bounded(NamesOf(i), |i.fields|)
    ensures var r := RenamingAll(c, attached, i, ps, news); r.Done? ==>
      FieldNames.Exact(NamesOf(r.value), {}) && FieldNames.Indexed(NamesOf(r.value), rest) && NoneAt(r.value.nums, rest)
    decreases |ps|
  {
    FieldNames.ExactBounded(NamesOf(i), {});
    if ps != [] {
      var m := |ps| - 1;
      PendingPrefix(i, ps, rest);
      RenamingAllKeeps(c, attached, i, ps[..m], news[..m], rest + {ps[m]});
      LastKeeps(c, attached, i, ps, news, rest);
    }
  }

  /** The positions before the last one, with the last one added to those pending, meet RenamingAllKeeps' requirements. */
  lemma PendingPrefix(i: Info, ps: seq<nat>, rest: set<nat>)
    requires ps != [] && Distinct(ps) && Members(ps) !! rest
    requires forall m :: 0 <= m < |ps| ==> ps[m] < |i.fields|
    requires FieldNames.Indexed(NamesOf(i), Members(ps) + rest) && NoneAt(i.nums, Members(ps) + rest)
    ensures var m := |ps| - 1; var more := rest + {ps[m]};
      Distinct(ps[..m]) && Members(ps[..m]) !! more && (forall k :: 0 <= k < m ==> ps[..m][k] < |i.fields|)
      && FieldNames.Indexed(NamesOf(i), Members(ps[..m]) + more) && NoneAt(i.nums, Members(ps[..m]) + more)
  {
    var m := |ps| - 1;
    MembersPush(ps);
    assert Members(ps[..m]) + (rest + {ps[m]}) == Members(ps) + rest;
  }

  /** The last turn of the second loop settles its field, given that the turns before kept the invariant. */
  lemma LastKeeps(c: FieldNames.Config, attached: bool, i: Info, ps: seq<nat>, news: seq<string>, rest: set<nat>)
    requires c.overwrite && c.maxLen >= 1 && |ps| == |news| && ps != [] && Distinct(ps) && Members(ps) !! rest
    requires forall m :: 0 <= m < |ps| ==> ps[m] < |i.fields|
    requires FieldNames.Bounded(NamesOf(i), |i.fields|)
    requires var m := |ps| - 1; var r := RenamingAll(c, attached, i, ps[..m], news[..m]);
      r.Done? ==> Settled(r.value, rest + {ps[m]})
    ensures var r := RenamingAll(c, attached, i, ps, news); r.Done? ==> Settled(r.value, rest)
  {
    var m := |ps| - 1;
    var r := RenamingAll(c, attached, i, ps[..m], news[..m]);
    if r.Done? {
      LastDone(c, attached, i, ps, news, rest, r.value);
    } else {
      RenamingStops(c, attached, i, ps, news, m);
    }
  }

  /** LastKeeps when the turns before the last one finish in state k. */
  lemma LastDone(c: FieldNames.Config, attached: bool, i: Info, ps: seq<nat>, news: seq<string>, rest: set<nat>, k: Info)
    requires c.overwrite && c.maxLen >= 1 && |ps| == |news| && ps != [] && ps[|ps| - 1] !in rest
    requires forall m :: 0 <= m < |ps| ==> ps[m] < |i.fields|
    requires FieldNames.Bounded(NamesOf(i), |i.fields|)
    requires var m := |ps| - 1; RenamingAll(c, attached, i, ps[..m], news[..m]) == Done(k) && Settled(k, rest + {ps[m]})
    ensures var r := RenamingAll(c, attached, i, ps, news); r.Done? ==> Settled(r.value, rest)
  {
    RenamingLast(c, attached, i, ps, news, k);
    StepKeeps(c, attached, k, ps[|ps| - 1], news[|ps| - 1], rest);
  }

  /** RenamingAll is its last turn from the state the turns before it finish in. */
  lemma RenamingLast(c: FieldNames.Config, attached: bool, i: Info, ps: seq<nat>, news: seq<string>, k: Info)
    requires RenamingFits(c, i, ps, news) && ps != []
    requires var m := |ps| - 1; RenamingAll(c, attached, i, ps[..m], news[..m]) == Done(k)
    ensures var m := |ps| - 1; var t := NamedAgain(c, attached, k, ps[m], news[m]);
      |k.fields| == |i.fields|
      && RenamingAll(c, attached, i, ps, news) == (if t.Threw? then Threw(t.failure) else Done(t.value.1))
  {
  }

  /** One turn of the second loop, from a state where the field named and those in rest are pending. */
  lemma StepKeeps(c: FieldNames.Config, attached: bool, j: Info, p: nat, newName: string, rest: set<nat>)
    requires c.overwrite && c.maxLen >= 1 && p < |j.fields| && p !in rest
    requires FieldNames.Exact(NamesOf(j), {}) && FieldNames.Indexed(NamesOf(j), rest + {p})
    requires NoneAt(j.nums, rest + {p})
    ensures FieldNames.Bounded(NamesOf(j), |j.fields|)
    ensures var t := NamedAgain(c, attached, j, p, newName); t.Done? ==> Settled(t.value.1, rest)
  {
    FieldNames.ExactBounded(NamesOf(j), {});
    StepReady(NamesOf(j), p, rest);
    if FieldNames.Validate(c, NamesOf(j), newName, p, true, |j.fields| + 1).Ok? {
      StepDone(c, attached, j, p, newName, rest);
    } else {
      NamedAgainErr(c, attached, j, p, newName);
    }
  }

  /** NamedAgain throws what the naming throws. */
  lemma NamedAgainErr(c: FieldNames.Config, attached: bool, j: Info, p: nat, newName: string)
    requires c.maxLen >= 1 && p < |j.fields| && FieldNames.Bounded(NamesOf(j), |j.fields|)
    requires FieldNames.Validate(c, NamesOf(j), newName, p, true, |j.fields| + 1).Err?
    ensures NamedAgain(c, attached, j, p, newName)
      == Threw(Thrown(FieldNames.Validate(c, NamesOf(j), newName, p, true, |j.fields| + 1).msg))
  {
  }

  /** The state the turn leaves when the naming gives a name. */
  lemma StepDone(c: FieldNames.Config, attached: bool, j: Info, p: nat, newName: string, rest: set<nat>)
    requires c.overwrite && c.maxLen >= 1 && p < |j.fields| && FieldNames.Ready(NamesOf(j), p, rest)
    requires FieldNames.Validate(c, NamesOf(j), newName, p, true, |j.fields| + 1).Ok?
    requires NoneAt(j.nums, rest + {p})
    ensures var t := NamedAgain(c, attached, j, p, newName);
      t.Done? && Settled(t.value.1, rest)
  {
    var v := FieldNames.Validate(c, NamesOf(j), newName, p, true, |j.fields| + 1);
    var o := v.value;
    var k := RenameInfo(j, o, p, newName, attached);
    NamedAgainIs(c, attached, j, p, newName, o);
    StepAfter(c, NamesOf(j), newName, p, rest);
    SettledIn(k, FieldNames.Named(o.st, p, o.name), rest);
  }

  /** The map is exact, every field but those in rest is found, and nothing leads to them. */
  predicate Settled(i: Info, rest: set<nat>)
  {
    FieldNames.Exact(NamesOf(i), {}) && FieldNames.Indexed(NamesOf(i), rest) && NoneAt(i.nums, rest)
  }

  lemma SettledIn(k: Info, u: FieldNames.Names, rest: set<nat>)
    requires NamesOf(k) == u
    requires FieldNames.Exact(u, {}) && FieldNames.Indexed(u, rest) && NoneAt(u.nums, rest)
    ensures Settled(k, rest)
  {
  }

  /** NamedAgain, once the naming gave o. */
  lemma NamedAgainIs(c: FieldNames.Config, attached: bool, j: Info, p: nat, newName: string, o: FieldNames.Outcome)
    requires c.maxLen >= 1 && p < |j.fields| && FieldNames.Bounded(NamesOf(j), |j.fields|)
    requires FieldNames.Validate(c, NamesOf(j), newName, p, true, |j.fields| + 1) == Wrappers.Ok(o)
    ensures |o.st.names| == |j.fields|
    ensures var k := RenameInfo(j, o, p, newName, attached); NamedAgain(c, attached, j, p, newName) == Done((k.fields[p], k))
  {
  }

  lemma StepReady(st: FieldNames.Names, p: nat, rest: set<nat>)
    requires p < |st.names| && p !in rest && FieldNames.Exact(st, {}) && FieldNames.Indexed(st, rest + {p})
    requires NoneAt(st.nums, rest + {p})
    ensures FieldNames.Ready(st, p, rest)
  {
    FieldNames.ExactBounded(st, {});
  }

  lemma StepAfter(c: FieldNames.Config, st: FieldNames.Names, newName: string, p: nat, rest: set<nat>)
    requires c.overwrite && c.maxLen >= 1 && FieldNames.Ready(st, p, rest) && NoneAt(st.nums, rest + {p})
    requires FieldNames.Validate(c, st, newName, p, true, |st.names| + 1).Ok?
    ensures var r := FieldNames.Validate(c, st, newName, p, true, |st.names| + 1);
      var u := FieldNames.Named(r.value.st, p, r.value.name);
      FieldNames.Exact(u, {}) && FieldNames.Indexed(u, rest) && NoneAt(u.nums, rest)
  {
    FieldNames.ValidateIndexes(c, st, newName, p, true, |st.names| + 1, rest);
    var o := FieldNames.Validate(c, st, newName, p, true, |st.names| + 1).value;
    var u := FieldNames.Named(o.st, p, o.name);
    assert FieldNames.PendingKept(st.nums, o.st.nums, rest);
    assert NoneAt(u.nums, rest);
  }

  /**
   * RenameFields keeps the invariant and the layout: only names change,
   * and every field is found under its name again.
   */
  lemma RenamedFieldsKeeps(c: FieldNames.Config, attached: bool, i: Info, olds: seq<string>, news: seq<string>)
    requires c.overwrite && c.maxLen >= 1 && ConsistentInfo(i) && |olds| == |news|
    ensures FieldsIn(i) && FieldNames.Bounded(NamesOf(i), |i.fields|)
    ensures var r := RenamedFields(c, attached, i, olds, news); r.Done? ==>
      ConsistentInfo(r.value) && Renaming(i.fields, r.value.fields) && r.value.fixed == i.fixed && r.value.hasVar == i.hasVar
  {
    ConsistentKeyed(i);
    FieldNames.ExactBounded(NamesOf(i), {});
    var e := Erasing(i, olds);
    if e.Done? {
      ErasingReady(i, olds);
      RenamingAllKeeps(c, attached, e.value.1, e.value.0, news, {});
      assert Members(e.value.0) + {} == Members(e.value.0);
      var r := RenamingAll(c, attached, e.value.1, e.value.0, news);
      if r.Done? {
        LayoutKeeps(i.fields, r.value.fields, i.fixed);
      }
    }
  }

  /** RenameField keeps the var-data flag in step with the fields too. */
  lemma RenamedFieldValid(c: FieldNames.Config, attached: bool, i: Info, n: nat, newName: string)
    requires c.overwrite && c.maxLen >= 1 && ValidInfo(i) && n < |i.fields|
    ensures FieldNames.Bounded(NamesOf(i), |i.fields|)
    ensures var r := RenamedField(c, attached, i, n, newName); r.Done? ==> ValidInfo(r.value.1)
  {
    RenamedFieldKeeps(c, attached, i, n, newName);
    var r := RenamedField(c, attached, i, n, newName);
    if r.Done? {
      LayoutKeeps(i.fields, r.value.1.fields, i.fixed);
    }
  }

  /** RenameFields keeps the var-data flag in step with the fields too. */
  lemma RenamedFieldsValid(c: FieldNames.Config, attached: bool, i: Info, olds: seq<string>, news: seq<string>)
    requires c.overwrite && c.maxLen >= 1 && ValidInfo(i) && |olds| == |news|
    ensures FieldsIn(i) && FieldNames.Bounded(NamesOf(i), |i.fields|)
    ensures var r := RenamedFields(c, attached, i, olds, news); r.Done? ==> ValidInfo(r.value)
  {
    RenamedFieldsKeeps(c, attached, i, olds, news);
    var r := RenamedFields(c, attached, i, olds, news);
    if r.Done? {
      LayoutKeeps(i.fields, r.value.fields, i.fixed);
    }
  }

  // ---------------------------------------------------------------------------
  // What the naming keeps as written

  /**
   * The invariant the naming keeps with or without the rebinding: the
   * layout, the var-data flag, one original name per field, and every
   * entry leading to a field. As written the map need not be exact
   * (FieldNames.StaleEntryAsWritten), so this is what the class keeps.
   */
  predicate SoundInfo(i: Info)
  {
    Arranged(i.fields, i.fixed) && (i.hasVar <==> HasVar(i.fields)) && |i.originals| == |i.fields|
    && FieldNames.Bounded(NamesOf(i), |i.fields|)
  }

  /** A sound state can name one more field, and every entry leads to a field. */
  lemma SoundNameable(i: Info)
    requires SoundInfo(i)
    ensures Nameable(i) && FieldsIn(i)
  {
  }

  /**
   * What the naming of new field n leaves, with or without the rebinding:
   * the originals grown by one, the bounds, no key lost and the name given
   * a key; as written every entry keeps its field.
   */
  predicate NamedSound(c: FieldNames.Config, st: FieldNames.Names, o: FieldNames.Outcome, n: nat)
  {
    |o.st.names| == n && |o.st.originals| == n + 1 && FieldNames.Bounded(o.st, n + 1)
    && st.nums.Keys <= o.st.nums.Keys && NameKey(o.name) in o.st.nums
    && (!c.overwrite ==> forall k :: k in st.nums ==> o.st.nums[k] == st.nums[k])
  }

  lemma NamingSound(c: FieldNames.Config, i: Info, f: Field, warn: bool)
    requires c.maxLen >= 1 && |i.originals| == |i.fields| && FieldNames.Bounded(NamesOf(i), |i.fields|)
    ensures Nameable(i)
    ensures var n := |i.fields|; var v := FieldNames.Validate(c, NamesOf(i), f.schema.name, n, warn, n + 1);
      v.Ok? ==> NamedSound(c, NamesOf(i), v.value, n)
  {
    var n := |i.fields|;
    FieldNames.KeysGrow(c, NamesOf(i), f.schema.name, n, warn, n + 1);
    if !c.overwrite {
      FieldNames.KeepsEntries(c, NamesOf(i), f.schema.name, n, warn, n + 1);
    }
  }

  /** What the inner AddField keeps of state i in state j, with field f pushed. */
  predicate PushSound(c: FieldNames.Config, i: Info, f: Field, j: Info)
  {
    var n := |i.fields|;
    Arranged(j.fields, j.fixed) && |j.originals| == |j.fields| == n + 1
    && FieldNames.Bounded(NamesOf(j), |j.fields|)
    && j.hasVar == (i.hasVar || f.isVarLength) && HasVar(j.fields) == (HasVar(i.fields) || f.isVarLength)
    && i.nums.Keys <= j.nums.Keys && NameKey(j.fields[n].schema.name) in j.nums
    && (!c.overwrite ==> forall k :: k in i.nums ==> j.nums[k] == i.nums[k])
  }

  /** The push of a field named soundly. */
  lemma PushInfoSound(c: FieldNames.Config, i: Info, o: FieldNames.Outcome, f: Field, attached: bool)
    requires Arranged(i.fields, i.fixed) && |i.fields| < MaxFieldsLimit && Laid(f)
    requires NamedSound(c, NamesOf(i), o, |i.fields|)
    requires i.fixed + Placed(f, o.name, i.fixed, |i.fields|).rawSize <= MaxFieldLength
    ensures var g := Placed(f, o.name, i.fixed, |i.fields|); PushSound(c, i, f, PushInfo(i, o, g, f.schema.name, attached))
  {
    var g := Placed(f, o.name, i.fixed, |i.fields|);
    PushInfoKeeps(i, o, g, f.schema.name, attached);
    var j := PushInfo(i, o, g, f.schema.name, attached);
    assert NameList(j.fields)[|i.fields|] == j.fields[|i.fields|].schema.name;
  }

  /**
   * The inner AddField keeps the layout, one original per field and the
   * bounds; no key is lost and the new field's name is a key; as written
   * (no rebinding) every entry keeps its field.
   */
  lemma PushedSound(c: FieldNames.Config, attached: bool, i: Info, f: Field, warn: bool)
    requires c.maxLen >= 1 && Arranged(i.fields, i.fixed) && |i.originals| == |i.fields|
    requires FieldNames.Bounded(NamesOf(i), |i.fields|) && Laid(f)
    ensures Nameable(i)
    ensures var r := Pushed(c, attached, i, f, warn); r.Done? ==> PushSound(c, i, f, r.value.1) && r.value.0 == r.value.1.fields[|i.fields|]
  {
    NamingSound(c, i, f, warn);
    var n := |i.fields|;
    if n < MaxFieldsLimit {
      var v := FieldNames.Validate(c, NamesOf(i), f.schema.name, n, warn, n + 1);
      PushNamedSound(c, i, v, f, attached);
    }
    PushedIsPushNamed(c, attached, i, f, warn);
  }

  /** Below the field limit, the inner AddField is the push of what the naming gave. */
  lemma PushedIsPushNamed(c: FieldNames.Config, attached: bool, i: Info, f: Field, warn: bool)
    requires c.maxLen >= 1 && Nameable(i)
    ensures var n := |i.fields|; n < MaxFieldsLimit ==>
      Pushed(c, attached, i, f, warn) == PushNamed(i, FieldNames.Validate(c, NamesOf(i), f.schema.name, n, warn, n + 1), f, attached)
  {
  }

  /** Once the naming is sound, so is the push that follows it. */
  lemma PushNamedSound(c: FieldNames.Config, i: Info, v: Result<FieldNames.Outcome>, f: Field, attached: bool)
    requires Arranged(i.fields, i.fixed) && |i.fields| < MaxFieldsLimit && Laid(f)
    requires v.Ok? ==> |v.value.st.names| == |i.fields| && NamedSound(c, NamesOf(i), v.value, |i.fields|)
    ensures var r := PushNamed(i, v, f, attached); r.Done? ==> PushSound(c, i, f, r.value.1) && r.value.0 == r.value.1.fields[|i.fields|]
  {
    if v.Ok? && i.fixed + Placed(f, v.value.name, i.fixed, |i.fields|).rawSize <= MaxFieldLength {
      PushInfoSound(c, i, v.value, f, attached);
    }
  }

  /**
   * AddField keeps the sound invariant, whether or not the rename branch
   * rebinds: one field more, no key lost, the new field's name a key; as
   * written every entry keeps its field.
   */
  lemma AddedSound(c: FieldNames.Config, attached: bool, i: Info, s: FieldSchema, warn: bool)
    requires c.maxLen >= 1 && SoundInfo(i) && s.ft != Unknown
    ensures Nameable(i)
    ensures var r := Added(c, attached, i, s, warn); r.Done? ==> var j := r.value.1;
      SoundInfo(j) && |j.fields| == |i.fields| + 1 && r.value.0 == j.fields[|i.fields|]
      && i.nums.Keys <= j.nums.Keys && NameKey(j.fields[|i.fields|].schema.name) in j.nums
      && (!c.overwrite ==> forall k :: k in i.nums ==> j.nums[k] == i.nums[k])
  {
    SoundNameable(i);
    if Refusal(s).None? {
      var i1 := i.(messages := i.messages + Notices(s, attached), hasVar := i.hasVar || IsVarLength(s.ft));
      PushedSound(c, attached, i1, Layout(s), warn);
    }
  }

  /** No key of the map m is lost in m2, and as written every entry keeps its field. */
  predicate KeysKept(c: FieldNames.Config, m: map<string, nat>, m2: map<string, nat>)
  {
    m.Keys <= m2.Keys && (!c.overwrite ==> forall key :: key in m ==> m2[key] == m[key])
  }

  /** Naming field n again keeps the keys, and makes the name it gives a key. */
  lemma ValidateKeys(c: FieldNames.Config, j: Info, n: nat, newName: string)
    requires c.maxLen >= 1 && n < |j.fields| && FieldNames.Bounded(NamesOf(j), |j.fields|)
    ensures var v := FieldNames.Validate(c, NamesOf(j), newName, n, true, |j.fields| + 1);
      v.Ok? ==> KeysKept(c, j.nums, v.value.st.nums) && NameKey(v.value.name) in v.value.st.nums
  {
    FieldNames.KeysGrow(c, NamesOf(j), newName, n, true, |j.fields| + 1);
    if !c.overwrite {
      FieldNames.KeepsEntries(c, NamesOf(j), newName, n, true, |j.fields| + 1);
    }
  }

  /**
   * Naming field n again keeps the sound invariant and the layout; its new
   * name is a key, no key is lost, and as written every entry keeps its
   * field.
   */
  lemma NamedAgainSound(c: FieldNames.Config, attached: bool, j: Info, n: nat, newName: string)
    requires c.maxLen >= 1 && SoundInfo(j) && n < |j.fields|
    ensures var r := NamedAgain(c, attached, j, n, newName); r.Done? ==> var k := r.value.1;
      SoundInfo(k) && Renaming(j.fields, k.fields) && k.fixed == j.fixed && r.value.0 == k.fields[n]
      && NameKey(k.fields[n].schema.name) in k.nums && KeysKept(c, j.nums, k.nums)
  {
    ValidateKeys(c, j, n, newName);
    var r := NamedAgain(c, attached, j, n, newName);
    if r.Done? {
      var v := FieldNames.Validate(c, NamesOf(j), newName, n, true, |j.fields| + 1);
      var k := RenameInfo(j, v.value, n, newName, attached);
      assert r.value.1 == k;
      LayoutKeeps(j.fields, k.fields, j.fixed);
      assert NameList(k.fields)[n] == k.fields[n].schema.name;
    }
  }

  /**
   * RenameField keeps the sound invariant and the layout; field n's new name
   * is a key; only the erased key can be lost, and as written every other
   * entry keeps its field.
   */
  lemma RenamedFieldSound(c: FieldNames.Config, attached: bool, i: Info, n: nat, newName: string)
    requires c.maxLen >= 1 && SoundInfo(i) && n < |i.fields|
    ensures FieldNames.Bounded(NamesOf(i), |i.fields|)
    ensures var r := RenamedField(c, attached, i, n, newName); r.Done? ==> var j := r.value.1;
      var gone := NameKey(i.fields[n].schema.name);
      SoundInfo(j) && Renaming(i.fields, j.fields) && j.fixed == i.fixed && r.value.0 == j.fields[n]
      && NameKey(j.fields[n].schema.name) in j.nums && i.nums.Keys - {gone} <= j.nums.Keys
      && (!c.overwrite ==> forall k :: k in i.nums && k != gone ==> j.nums[k] == i.nums[k])
  {
    ErasedBounded(i, n);
    var j0 := Erased(i, n);
    assert j0.nums == i.nums - {NameKey(i.fields[n].schema.name)};
    NamedAgainSound(c, attached, j0, n, newName);
  }

  /** RenameFields keeps the sound invariant and the layout: only names change. */
  lemma RenamedFieldsSound(c: FieldNames.Config, attached: bool, i: Info, olds: seq<string>, news: seq<string>)
    requires c.maxLen >= 1 && SoundInfo(i) && |olds| == |news|
    ensures FieldsIn(i) && FieldNames.Bounded(NamesOf(i), |i.fields|)
    ensures var r := RenamedFields(c, attached, i, olds, news); r.Done? ==>
      SoundInfo(r.value) && Renaming(i.fields, r.value.fields) && r.value.fixed == i.fixed
  {
    SoundNameable(i);
    var e := Erasing(i, olds);
    if e.Done? {
      ErasedBounded2(i, e.value.1);
      var r := RenamingAll(c, attached, e.value.1, e.value.0, news);
      if r.Done? {
        LayoutKeeps(i.fields, r.value.fields, i.fixed);
      }
    }
  }

  /** The state AddField leaves on "Record too big": the field named by o and pushed, the fixed size as it was. */
  function TooBig(i: Info, o: FieldNames.Outcome, f: Field, attached: bool): (j: Info)
    requires |o.st.names| == |i.fields|
    ensures |j.fields| == |i.fields| + 1 && j.fixed == i.fixed && j.hasVar == i.hasVar
    ensures j.fields[|i.fields|] == Placed(f, o.name, i.fixed, |i.fields|)
  {
    var j := Renamed(i, o, f.schema.name, attached);
    j.(fields := j.fields + [Placed(f, o.name, i.fixed, |i.fields|)])
  }

  /** The state the inner AddField leaves once the naming gave v, or None when the naming threw. */
  function PushNamedLeaves(i: Info, v: Result<FieldNames.Outcome>, f: Field, attached: bool): Option<Info>
    requires v.Ok? ==> |v.value.st.names| == |i.fields|
  {
    if v.Err? then None
    else
      var g := Placed(f, v.value.name, i.fixed, |i.fields|);
      if i.fixed + g.rawSize > MaxFieldLength then Some(TooBig(i, v.value, f, attached))
      else Some(PushInfo(i, v.value, g, f.schema.name, attached))
  }

  /** The state the inner AddField leaves: unchanged past the field limit. */
  function PushedLeaves(c: FieldNames.Config, attached: bool, i: Info, f: Field, warn: bool): Option<Info>
    requires c.maxLen >= 1 && Nameable(i)
  {
    var n := |i.fields|;
    if n >= MaxFieldsLimit then Some(i)
    else PushNamedLeaves(i, FieldNames.Validate(c, NamesOf(i), f.schema.name, n, warn, n + 1), f, attached)
  }

  /** Below the field limit, the inner AddField's result and the state it leaves are those of the push of what the naming gives. */
  lemma PushedLeavesNaming(c: FieldNames.Config, attached: bool, i: Info, f: Field, warn: bool)
    requires c.maxLen >= 1 && Nameable(i) && |i.fields| < MaxFieldsLimit
    ensures var n := |i.fields|; var v := FieldNames.Validate(c, NamesOf(i), f.schema.name, n, warn, n + 1);
      Pushed(c, attached, i, f, warn) == PushNamed(i, v, f, attached)
      && PushedLeaves(c, attached, i, f, warn) == PushNamedLeaves(i, v, f, attached)
  {
  }

  /** The state AddField leaves: the notices are sent and the var-data flag set before anything can throw. */
  function AddedLeaves(c: FieldNames.Config, attached: bool, i: Info, s: FieldSchema, warn: bool): Option<Info>
    requires c.maxLen >= 1 && Nameable(i) && s.ft != Unknown
  {
    var i1 := Announced(i, s, attached);
    if Refusal(s).Some? then Some(i1)
    else PushedLeaves(c, attached, i1.(hasVar := i.hasVar || IsVarLength(s.ft)), Layout(s), warn)
  }

  /** The state once AddField has sent the notices for schema s. */
  function Announced(i: Info, s: FieldSchema, attached: bool): (j: Info)
    ensures j == i.(messages := i.messages + Notices(s, attached))
  {
    i.(messages := i.messages + Notices(s, attached))
  }

  // ---------------------------------------------------------------------------
  // RecordInfo

  class RecordInfo {
    /** m_vFields: the fields in order. */
    var fields: seq<Field>
    /** m_vOriginalFieldNames: the name each field asked for, prepared. */
    var originalNames: seq<string>
    /** m_mapFieldNums: field numbers by name, without case. */
    var fieldNums: map<string, nat>
    /** m_nFixedRecordSize. */
    var fixedSize: nat
    /** m_bContainsVarData. */
    var containsVarData: bool
    /** m_nMaxFieldLen and m_bStrictNaming. */
    var maxFieldLen: nat
    var strictNaming: bool
    /** Whether a generic engine is attached, and the messages sent to it. */
    var engineAttached: bool
    var messages: seq<Message>

    /** The state as a value. */
    function State(): Info
      reads this
    {
      Info(fields, originalNames, fieldNums, fixedSize, containsVarData, messages)
    }

    /** The naming state the name functions work on. */
    function NamesState(): FieldNames.Names
      reads this
    {
      NamesOf(State())
    }

    /**
     * The naming limits. The rename branch inserts the name it hands over,
     * which leaves the old entry in place, as std::map::insert does; the
     * rebinding it evidently means is FieldNames.Validate with overwrite on.
     */
    function Naming(): FieldNames.Config
      reads this
    {
      FieldNames.Config(maxFieldLen, strictNaming, false)
    }

    predicate Consistent()
      reads this
    {
      ConsistentInfo(State())
    }

    /** The invariant the naming as written keeps (the map need not be exact). */
    predicate Valid()
      reads this
    {
      SoundInfo(State())
    }

    /** RecordInfo(nMaxFieldLen, bStrictNaming, pGenericEngineBase): no fields. */
    constructor(maxLen: nat, strict: bool, attached: bool)
      ensures Valid() && State() == Info([], [], map[], 0, false, [])
      ensures maxFieldLen == maxLen && strictNaming == strict && engineAttached == attached
    {
      fields, originalNames, fieldNums := [], [], map[];
      fixedSize, containsVarData := 0, false;
      maxFieldLen, strictNaming, engineAttached, messages := maxLen, strict, attached, [];
    }

    /** SetGenericEngine: the engine messages go to from now on. */
    method SetGenericEngine(attached: bool)
      modifies this
      ensures engineAttached == attached && State() == old(State())
      ensures maxFieldLen == old(maxFieldLen) && strictNaming == old(strictNaming)
    {
      engineAttached := attached;
    }

    /** ResetForLateRename: new limits for the names given from now on. */
    method ResetForLateRename(maxLen: nat, strict: bool)
      modifies this
      ensures maxFieldLen == maxLen && strictNaming == strict
      ensures State() == old(State()) && engineAttached == old(engineAttached)
    {
      maxFieldLen, strictNaming := maxLen, strict;
    }
    /**
     * ValidateFieldName(name, n, warn): the name field n gets, with the
     * originals and the map updated and a field displaced by a rename named
     * again, as Validate gives; the duplicate warning goes to an attached
     * engine.
     */
    method ValidateFieldName(name: string, n: nat, warn: bool, fuel: nat) returns (r: Result<string>)
      requires maxFieldLen >= 1 && n <= |fields| && FieldNames.Bounded(NamesState(), |fields|)
      requires n == |fields| ==> forall k :: k in fieldNums ==> fieldNums[k] != n
      modifies this
      ensures var v := FieldNames.Validate(old(Naming()), old(NamesState()), name, n, warn, fuel);
        r == Given(v) && (v.Ok? ==> State() == Renamed(old(State()), v.value, name, engineAttached))
      ensures maxFieldLen == old(maxFieldLen) && strictNaming == old(strictNaming) && engineAttached == old(engineAttached)
      decreases fuel, 3
    {
      ghost var st := NamesState();
      var s := FieldNames.Prepared(name, |fields|, strictNaming, maxFieldLen);
      originalNames := FieldNames.Remember(originalNames, n, s);
      if NameKey(s) !in fieldNums {
        r := Entered(st, name, n, s, false);
      } else {
        r := Duplicate(st, name, n, s, warn, fuel);
      }
    }

    /** A name already in the map: the field it leads to is displaced by a rename, or a generated name is found. */
    method Duplicate(ghost st: FieldNames.Names, name: string, n: nat, s: string, warn: bool, fuel: nat) returns (r: Result<string>)
      requires maxFieldLen >= 1 && st.names == NameList(fields) && st.nums == fieldNums && FieldNames.Bounded(st, |st.names|)
      requires n <= |st.names| && s != [] && NameKey(s) in fieldNums
      requires |originalNames| == FieldNames.Max(|st.originals|, n + 1) && originalNames[n] == s
      requires forall j :: 0 <= j < |st.originals| && j != n ==> originalNames[j] == st.originals[j]
      requires n == |st.names| ==> forall k :: k in st.nums ==> st.nums[k] != n
      modifies this
      ensures var v :=
          if FieldNames.Displaces(st, old(originalNames), s) then
            (if fuel == 0 then Err(FieldNames.RenameChainTooLong) else FieldNames.Rename(old(Naming()), st, old(originalNames), n, s, fuel))
          else FieldNames.Generate(st, old(originalNames), name, n, s, warn, maxFieldLen);
        r == Given(v) && (v.Ok? ==> State() == Renamed(old(State()), v.value, name, engineAttached))
      ensures maxFieldLen == old(maxFieldLen) && strictNaming == old(strictNaming) && engineAttached == old(engineAttached)
      decreases fuel, 2
    {
      var p := fieldNums[NameKey(s)];
      if p < |originalNames| && !SameName(s, originalNames[p]) {
        if fuel == 0 {
          return Err(FieldNames.RenameChainTooLong);
        }
        r := TakeOver(State(), st, n, s, fuel);
      } else {
        r := Generated(st, name, n, s, warn);
      }
    }

    /** A name not in the map: n is entered under it, with the warning when one is due and an engine attached. */
    method Entered(ghost st: FieldNames.Names, name: string, n: nat, s: string, warned: bool) returns (r: Result<string>)
      requires st.names == NameList(fields) && st.nums == fieldNums && FieldNames.Bounded(st, |st.names|)
      requires |originalNames| == FieldNames.Max(|st.originals|, n + 1) && NameKey(s) !in fieldNums
      requires forall j :: 0 <= j < |st.originals| && j != n ==> originalNames[j] == st.originals[j]
      modifies this
      ensures var o := FieldNames.Enter(st, old(originalNames), n, s, warned);
        r == Ok(s) && State() == Renamed(old(State()), o, name, engineAttached)
      ensures maxFieldLen == old(maxFieldLen) && strictNaming == old(strictNaming) && engineAttached == old(engineAttached)
    {
      if warned && engineAttached {
        messages := messages + [Message(MtWarning, DuplicateRenamed(name))];
      }
      Insert(NameKey(s), n);
      WithOwnNames(fields);
      return Ok(s);
    }

    /**
     * The rename branch: s was given to another field by a duplicate
     * rename but is its own original name for n. n gets it, and the other
     * field is named again from its original name, without warnings.
     */
    method TakeOver(ghost i0: Info, ghost st: FieldNames.Names, n: nat, s: string, fuel: nat) returns (r: Result<string>)
      requires State() == i0 && maxFieldLen >= 1 && st.names == NameList(i0.fields) && st.nums == i0.nums
      requires n <= |st.names| && 1 <= fuel && FieldNames.Bounded(st, |st.names|)
      requires |i0.originals| == FieldNames.Max(|st.originals|, n + 1) && i0.originals[n] == s
      requires FieldNames.Displaces(st, i0.originals, s)
      requires forall j :: 0 <= j < |st.originals| && j != n ==> i0.originals[j] == st.originals[j]
      requires n == |st.names| ==> forall k :: k in st.nums ==> st.nums[k] != n
      modifies this
      ensures var v := FieldNames.Rename(old(Naming()), st, i0.originals, n, s, fuel);
        r == Given(v) && (v.Ok? ==> State() == Renamed(i0, v.value, s, engineAttached))
      ensures maxFieldLen == old(maxFieldLen) && strictNaming == old(strictNaming) && engineAttached == old(engineAttached)
      decreases fuel, 1
    {
      var p := fieldNums[NameKey(s)];
      Insert(NameKey(s), n);
      assert FieldNames.Bounded(NamesState(), |fields|);
      r := NameOther(i0, p, s, fuel);
    }

    /**
     * The second half of TakeOver once the name is bound to n: field p,
     * which held it, named again from its original name without warnings.
     */
    method NameOther(ghost i0: Info, p: nat, s: string, fuel: nat) returns (r: Result<string>)
      requires maxFieldLen >= 1 && 1 <= fuel && p < |fields| && p < |originalNames| && State() == i0.(nums := fieldNums)
      requires FieldNames.Bounded(NamesState(), |fields|)
      modifies this
      ensures var v := FieldNames.Validate(old(Naming()), old(NamesState()), old(originalNames)[p], p, false, fuel - 1);
        var w := if v.Err? then Err(v.msg) else Ok(FieldNames.Outcome(FieldNames.Named(v.value.st, p, v.value.name), s, false));
        r == Given(w) && (w.Ok? ==> State() == Renamed(i0, w.value, s, engineAttached))
      ensures maxFieldLen == old(maxFieldLen) && strictNaming == old(strictNaming) && engineAttached == old(engineAttached)
      decreases fuel, 0
    {
      ghost var i1 := State();
      var inner := ValidateFieldName(originalNames[p], p, false, fuel - 1);
      if inner.Err? {
        return Err(inner.msg);
      }
      ghost var v := FieldNames.Validate(Naming(), NamesOf(i1), i1.originals[p], p, false, fuel - 1);
      SetFieldName(p, inner.value);
      RenamedAgain(i0, i1, v.value, p, i1.originals[p], s, engineAttached);
      return Ok(s);
    }

    /** m_mapFieldNums.insert of (key, n): an entry already under the key is kept. */
    method Insert(key: string, n: nat)
      modifies this
      ensures State() == old(State()).(nums := if key in old(fieldNums) then old(fieldNums) else old(fieldNums)[key := n])
      ensures maxFieldLen == old(maxFieldLen) && strictNaming == old(strictNaming) && engineAttached == old(engineAttached)
    {
      if key !in fieldNums {
        fieldNums := fieldNums[key := n];
      }
    }

    /** FieldBase::SetFieldName on field p. */
    method SetFieldName(p: nat, name: string)
      requires p < |fields|
      modifies this
      ensures State() == old(State()).(fields := SetName(old(fields), p, name))
      ensures maxFieldLen == old(maxFieldLen) && strictNaming == old(strictNaming) && engineAttached == old(engineAttached)
    {
      fields := fields[p := fields[p].(schema := fields[p].schema.(name := name))];
    }

    /** The duplicate loop's branch: the first free generated name, entered for n, and the warning when asked for. */
    method Generated(ghost st: FieldNames.Names, name: string, n: nat, s: string, warn: bool) returns (r: Result<string>)
      requires st.names == NameList(fields) && st.nums == fieldNums && FieldNames.Bounded(st, |st.names|)
      requires s != [] && |originalNames| == FieldNames.Max(|st.originals|, n + 1)
      requires forall j :: 0 <= j < |st.originals| && j != n ==> originalNames[j] == st.originals[j]
      modifies this
      ensures var v := FieldNames.Generate(st, old(originalNames), name, n, s, warn, maxFieldLen);
        r == Given(v) && (v.Ok? ==> State() == Renamed(old(State()), v.value, name, engineAttached))
      ensures maxFieldLen == old(maxFieldLen) && strictNaming == old(strictNaming) && engineAttached == old(engineAttached)
    {
      var found := FindFree(fieldNums, s, maxFieldLen);
      if found.None? {
        return Err(FieldNames.NoUniqueName(name, n));
      }
      r := Entered(st, name, n, found.value, warn);
    }

    // -------------------------------------------------------------------------
    // Adding fields

    /**
     * The inner AddField(pField, warn), as Pushed gives it, leaving the
     * state PushedLeaves gives whenever the naming did not throw: past the
     * field limit nothing has changed, and on "Record too big" the field is
     * already named and pushed.
     */
    method Push(f: Field, warn: bool) returns (r: Attempt<Field>)
      requires Nameable(State()) && maxFieldLen >= 1
      modifies this
      ensures var p := Pushed(old(Naming()), old(engineAttached), old(State()), f, warn);
        r == Returned(p) && (p.Done? ==> State() == p.value.1)
      ensures var l := PushedLeaves(old(Naming()), old(engineAttached), old(State()), f, warn);
        l.Some? ==> State() == l.value
      ensures maxFieldLen == old(maxFieldLen) && strictNaming == old(strictNaming) && engineAttached == old(engineAttached)
    {
      if |fields| >= MaxFieldsLimit {
        return Threw(TooManyFields);
      }
      PushedLeavesNaming(Naming(), engineAttached, State(), f, warn);
      r := NameAndPlace(f, warn);
    }

    /** Push below the field limit: the naming, then Place. */
    method NameAndPlace(f: Field, warn: bool) returns (r: Attempt<Field>)
      requires Nameable(State()) && maxFieldLen >= 1 && |fields| < MaxFieldsLimit
      modifies this
      ensures var v := FieldNames.Validate(old(Naming()), old(NamesState()), f.schema.name, old(|fields|), warn, old(|fields|) + 1);
        var p := PushNamed(old(State()), v, f, old(engineAttached));
        r == Returned(p) && (p.Done? ==> State() == p.value.1)
      ensures var v := FieldNames.Validate(old(Naming()), old(NamesState()), f.schema.name, old(|fields|), warn, old(|fields|) + 1);
        var l := PushNamedLeaves(old(State()), v, f, old(engineAttached));
        l.Some? ==> State() == l.value
      ensures maxFieldLen == old(maxFieldLen) && strictNaming == old(strictNaming) && engineAttached == old(engineAttached)
    {
      ghost var i0 := State();
      var n := |fields|;
      var name := ValidateFieldName(f.schema.name, n, warn, n + 1);
      if name.Err? {
        return Threw(Thrown(name.msg));
      }
      ghost var v := FieldNames.Validate(old(Naming()), NamesOf(i0), f.schema.name, n, warn, n + 1);
      r := Place(i0, v.value, f, name.value);
    }

    /** The rest of the inner AddField once field n is named: placed, pushed, and the fixed size checked. */
    method Place(ghost i0: Info, ghost o: FieldNames.Outcome, f: Field, name: string) returns (r: Attempt<Field>)
      requires |o.st.names| == |i0.fields| && name == o.name
      requires State() == Renamed(i0, o, f.schema.name, engineAttached)
      modifies this
      ensures var p := PushNamed(i0, Ok(o), f, old(engineAttached));
        r == Returned(p) && (p.Done? ==> State() == p.value.1)
      ensures State() == PushNamedLeaves(i0, Ok(o), f, old(engineAttached)).value
      ensures maxFieldLen == old(maxFieldLen) && strictNaming == old(strictNaming) && engineAttached == old(engineAttached)
    {
      var g := Placed(f, name, fixedSize, |fields|);
      fields := fields + [g];
      var total := fixedSize + g.rawSize;
      if total > MaxFieldLength {
        return Threw(RecordTooBig(total, name));
      }
      fixedSize := total;
      if g.isVarLength {
        containsVarData := true;
      }
      return Done(g);
    }

    /**
     * AddField(schema, warn), as Added gives it: the field the schema's
     * class lays out, pushed, and the state AddedLeaves gives whenever the
     * naming did not throw. The invariant is kept (AddedSound).
     */
    method AddField(s: FieldSchema, warn: bool) returns (r: Attempt<Field>)
      requires Nameable(State()) && maxFieldLen >= 1 && s.ft != Unknown
      modifies this
      ensures var a := Added(old(Naming()), old(engineAttached), old(State()), s, warn);
        r == Returned(a) && (a.Done? ==> State() == a.value.1)
      ensures var l := AddedLeaves(old(Naming()), old(engineAttached), old(State()), s, warn);
        l.Some? ==> State() == l.value
      ensures maxFieldLen == old(maxFieldLen) && strictNaming == old(strictNaming) && engineAttached == old(engineAttached)
      ensures old(Valid()) && r.Done? ==> Valid()
    {
      ghost var c, attached, i0 := Naming(), engineAttached, State();
      if Valid() {
        AddedSound(c, attached, i0, s, warn);
      }
      Announce(s);
      var refusal := Refusal(s);
      if refusal.Some? {
        return Threw(refusal.value);
      }
      MarkVarData(IsVarLength(s.ft));
      AddedPushed(c, attached, i0, s, warn);
      r := Push(Layout(s), warn);
    }

    /** The notices AddField sends before it lays the field out. */
    method Announce(s: FieldSchema)
      modifies this
      ensures State() == old(State()).(messages := old(messages) + Notices(s, engineAttached))
      ensures maxFieldLen == old(maxFieldLen) && strictNaming == old(strictNaming) && engineAttached == old(engineAttached)
    {
      messages := messages + Notices(s, engineAttached);
    }

    /** m_bContainsVarData is set for a field type that keeps its value in the var data. */
    method MarkVarData(isVar: bool)
      modifies this
      ensures State() == old(State()).(hasVar := old(containsVarData) || isVar)
      ensures maxFieldLen == old(maxFieldLen) && strictNaming == old(strictNaming) && engineAttached == old(engineAttached)
    {
      if isVar {
        containsVarData := true;
      }
    }

    /** AddField(name, ft, nSize, ...): a negative size is refused as 0 length. */
    method AddFieldSized(name: string, ft: FieldType, nSize: int, scale: int, source: string, description: string, warn: bool) returns (r: Attempt<Field>)
      requires Nameable(State()) && maxFieldLen >= 1 && ft != Unknown && -0x8000_0000 <= nSize < 0x8000_0000
      modifies this
      ensures nSize < 0 ==> r == Threw(ZeroLength(name)) && State() == old(State())
      ensures nSize >= 0 ==> var a := Added(old(Naming()), old(engineAttached), old(State()), NewSchema(name, ft, nSize, scale, source, description), warn);
        r == Returned(a) && (a.Done? ==> State() == a.value.1)
    {
      if nSize < 0 {
        return Threw(ZeroLength(name));
      }
      r := AddField(NewSchema(name, ft, nSize, scale, source, description), warn);
    }

    /** AddField(tagField, prefix): the schema the <Field> tag describes. */
    method AddFieldXml(attrs: map<string, string>, prefix: Option<string>, warn: bool) returns (r: Attempt<Field>)
      requires Nameable(State()) && maxFieldLen >= 1
      modifies this
      ensures FromXML(attrs, prefix).Err? ==> r == Threw(Thrown(FromXML(attrs, prefix).msg)) && State() == old(State())
      ensures FromXML(attrs, prefix).Ok? ==> var a := Added(old(Naming()), old(engineAttached), old(State()), FromXML(attrs, prefix).value, warn);
        r == Returned(a) && (a.Done? ==> State() == a.value.1)
    {
      var s := FromXML(attrs, prefix);
      if s.Err? {
        return Threw(Thrown(s.msg));
      }
      r := AddField(s.value, warn);
    }

    // -------------------------------------------------------------------------
    // Renaming fields

    /** m_mapFieldNums.erase(key). */
    method Erase(key: string)
      modifies this
      ensures State() == old(State()).(nums := old(fieldNums) - {key})
      ensures maxFieldLen == old(maxFieldLen) && strictNaming == old(strictNaming) && engineAttached == old(engineAttached)
    {
      fieldNums := fieldNums - {key};
    }

    /**
     * RenameField(n, newName), as RenamedField gives it: the entry under
     * field n's name erased, then n named again with the warnings on.
     */
    method RenameField(n: nat, newName: string) returns (r: Attempt<Field>)
      requires maxFieldLen >= 1 && n < |fields| && FieldNames.Bounded(NamesState(), |fields|)
      modifies this
      ensures var a := RenamedField(old(Naming()), old(engineAttached), old(State()), n, newName);
        r == Returned(a) && (a.Done? ==> State() == a.value.1)
      ensures maxFieldLen == old(maxFieldLen) && strictNaming == old(strictNaming) && engineAttached == old(engineAttached)
      ensures old(Valid()) && r.Done? ==> Valid()
    {
      ghost var i0 := State();
      if Valid() {
        RenamedFieldSound(Naming(), engineAttached, i0, n, newName);
      }
      ErasedBounded(i0, n);
      Erase(NameKey(fields[n].schema.name));
      assert State() == Erased(i0, n);
      r := NameAgain(n, newName);
    }

    /** ValidateFieldName(newName, n) with the warnings on, then SetFieldName on field n, as NamedAgain gives it. */
    method NameAgain(n: nat, newName: string) returns (r: Attempt<Field>)
      requires maxFieldLen >= 1 && n < |fields| && FieldNames.Bounded(NamesState(), |fields|)
      modifies this
      ensures var a := NamedAgain(old(Naming()), old(engineAttached), old(State()), n, newName);
        r == Returned(a) && (a.Done? ==> State() == a.value.1)
      ensures maxFieldLen == old(maxFieldLen) && strictNaming == old(strictNaming) && engineAttached == old(engineAttached)
    {
      var name := ValidateFieldName(newName, n, true, |fields| + 1);
      if name.Err? {
        return Threw(Thrown(name.msg));
      }
      SetFieldName(n, name.value);
      return Done(fields[n]);
    }

    /**
     * RenameFields(olds, news), as RenamedFields gives it: every old name
     * looked up and its entry erased, then each field found named from news
     * in turn.
     */
    method RenameFields(olds: seq<string>, news: seq<string>) returns (r: Attempt<()>)
      requires maxFieldLen >= 1 && |olds| == |news| && FieldsIn(State()) && FieldNames.Bounded(NamesState(), |fields|)
      modifies this
      ensures var a := RenamedFields(old(Naming()), old(engineAttached), old(State()), olds, news);
        (r.Threw? <==> a.Threw?) && (a.Threw? ==> r.failure == a.failure) && (a.Done? ==> State() == a.value)
      ensures maxFieldLen == old(maxFieldLen) && strictNaming == old(strictNaming) && engineAttached == old(engineAttached)
      ensures old(Valid()) && r.Done? ==> Valid()
    {
      ghost var i0 := State();
      if Valid() {
        RenamedFieldsSound(Naming(), engineAttached, i0, olds, news);
      }
      var e := EraseAll(olds);
      if e.Threw? {
        return Threw(e.failure);
      }
      ErasedBounded2(i0, Erasing(i0, olds).value.1);
      r := NameAll(e.value, news);
    }

    /** RenameFields' first loop, as Erasing gives it: the positions of the old names, their entries erased. */
    method EraseAll(olds: seq<string>) returns (r: Attempt<seq<nat>>)
      requires FieldsIn(State())
      modifies this
      ensures var e := Erasing(old(State()), olds);
        (r.Threw? <==> e.Threw?) && (e.Threw? ==> r.failure == e.failure)
        && (e.Done? ==> r.value == e.value.0 && State() == e.value.1)
      ensures maxFieldLen == old(maxFieldLen) && strictNaming == old(strictNaming) && engineAttached == old(engineAttached)
    {
      ghost var i0 := State();
      var ps: seq<nat> := [];
      var m := 0;
      while m < |olds|
        invariant m <= |olds| && maxFieldLen == old(maxFieldLen) && strictNaming == old(strictNaming)
        invariant engineAttached == old(engineAttached)
        invariant Erasing(i0, olds[..m]) == Done((ps, State()))
        invariant FieldsIn(State())
      {
        assert olds[..m + 1][..m] == olds[..m];
        var g := GetFieldNum(fieldNums, olds[m], true);
        if g.Threw? {
          ErasingStops(i0, olds, m + 1);
          return Threw(g.failure);
        }
        var p: nat := g.value;
        Erase(NameKey(fields[p].schema.name));
        ps, m := ps + [p], m + 1;
      }
      assert olds[..m] == olds;
      return Done(ps);
    }

    /** RenameFields' second loop, as RenamingAll gives it: the field at each position named from news in turn. */
    method NameAll(ps: seq<nat>, news: seq<string>) returns (r: Attempt<()>)
      requires maxFieldLen >= 1 && |ps| == |news| && FieldNames.Bounded(NamesState(), |fields|)
      requires forall x :: 0 <= x < |ps| ==> ps[x] < |fields|
      modifies this
      ensures var a := RenamingAll(old(Naming()), old(engineAttached), old(State()), ps, news);
        (r.Threw? <==> a.Threw?) && (a.Threw? ==> r.failure == a.failure) && (a.Done? ==> State() == a.value)
      ensures maxFieldLen == old(maxFieldLen) && strictNaming == old(strictNaming) && engineAttached == old(engineAttached)
    {
      ghost var c, attached, j0 := Naming(), engineAttached, State();
      var q := 0;
      while q < |ps|
        invariant q <= |ps| && Naming() == c && engineAttached == attached
        invariant RenamingAll(c, attached, j0, ps[..q], news[..q]) == Done(State())
      {
        var t := NameStep(c, attached, j0, ps, news, q);
        if t.Threw? {
          return Threw(t.failure);
        }
        q := q + 1;
      }
      assert ps[..q] == ps && news[..q] == news;
      return Done(());
    }

    /** One turn of NameAll: field ps[q] named again, or the exception the whole loop ends with. */
    method NameStep(ghost c: FieldNames.Config, ghost attached: bool, ghost j0: Info, ps: seq<nat>, news: seq<string>, q: nat)
      returns (t: Attempt<Field>)
      requires c.maxLen >= 1 && |ps| == |news| && FieldNames.Bounded(NamesOf(j0), |j0.fields|)
      requires forall x :: 0 <= x < |ps| ==> ps[x] < |j0.fields|
      requires q < |ps| && Naming() == c && engineAttached == attached
      requires RenamingAll(c, attached, j0, ps[..q], news[..q]) == Done(State())
      modifies this
      ensures Naming() == c && engineAttached == attached
      ensures t.Threw? ==> RenamingAll(c, attached, j0, ps, news) == Threw(t.failure)
      ensures t.Done? ==> RenamingAll(c, attached, j0, ps[..q + 1], news[..q + 1]) == Done(State())
    {
      RenamingNext(c, attached, j0, ps, news, q, State());
      t := NameAgain(ps[q], news[q]);
      if t.Threw? {
        RenamingStops(c, attached, j0, ps, news, q + 1);
      }
    }

    /**
     * Write(file, pRecord): the fixed part and, with var data, the length
     * word and the var data it counts, appended to the stream; returns the
     * record version.
     */
    method Write(file: ByteStreams.ByteStream, rec: seq<byte>) returns (version: nat)
      requires WholeAt(rec, 0, fixedSize, containsVarData)
      modifies file
      ensures file.data == old(file.data) + rec[..SpanAt(rec, 0, fixedSize, containsVarData)] && file.pos == old(file.pos)
      ensures version == VersionOf(fixedSize, containsVarData, if containsVarData then ReadU32(rec, fixedSize) else 0)
    {
      var writeSize := fixedSize + if containsVarData then 4 else 0;
      file.Write(rec[..writeSize]);
      if containsVarData {
        var n := ReadI32(rec, fixedSize);
        file.Write(rec[writeSize..writeSize + n]);
        assert rec[..writeSize] + rec[writeSize..writeSize + n] == rec[..writeSize + n];
        return VersionOf(fixedSize, true, n);
      }
      return 0;
    }

    /**
     * Read(file, r_pRecord): the record reset, the fixed part and the word
     * read into it, room made for the var data the word counts and 4 bytes
     * more, and the var data read behind the word. The length word is then
     * current while the record's own var-data count stays 0. Making the room
     * throws "Record too big" past MaxFieldLength, after the fixed part was
     * read.
     */
    method Read(file: ByteStreams.ByteStream, r: Records.Record) returns (res: Result<bool>)
      requires r.Valid() && r.fixedSize == fixedSize && r.containsVarData == containsVarData && fixedSize + 4 <= MaxFieldLength
      requires WholeAt(file.data, file.pos, fixedSize, containsVarData)
      modifies file, r
      ensures file.data == old(file.data) && r.fixedSize == fixedSize && r.containsVarData == containsVarData
      ensures r.Valid() && r.curVarDataSize == 0
      ensures var d, p := old(file.data), old(file.pos);
        var head, span := fixedSize + (if containsVarData then 4 else 0), SpanAt(d, p, fixedSize, containsVarData);
        (res.Ok? <==> !containsVarData || span + 4 <= MaxFieldLength)
        && (res.Ok? ==> file.pos == p + span && span <= |r.rec| && r.rec[..span] == d[p..p + span] && r.varDataLenUnset == !containsVarData)
        && (res.Err? ==> res == Err(FieldDispatch.RecordTooBig) && file.pos == p + head && r.rec[..head] == d[p..p + head])
    {
      ghost var d, p := file.data, file.pos;
      ReadHead(file, r);
      if containsVarData {
        WordAt(r.rec, d, p, fixedSize);
        var n := ReadI32(r.rec, fixedSize);
        var ok := r.ReadVarData(file, n);
        if !ok {
          return Err(FieldDispatch.RecordTooBig);
        }
        Concat(d, p, fixedSize + 4, n);
      }
      return Ok(true);
    }

    /** The first steps of Read: the record reset, and the fixed part and the word read into it. */
    method ReadHead(file: ByteStreams.ByteStream, r: Records.Record)
      requires r.Valid() && r.fixedSize == fixedSize && r.containsVarData == containsVarData
      requires file.pos + fixedSize + (if containsVarData then 4 else 0) <= |file.data|
      modifies file, r
      ensures file.data == old(file.data) && r.fixedSize == fixedSize && r.containsVarData == containsVarData
      ensures r.Valid() && r.curVarDataSize == 0 && r.varDataLenUnset
      ensures var head := fixedSize + (if containsVarData then 4 else 0);
        file.pos == old(file.pos) + head && head <= |r.rec| && r.rec[..head] == old(file.data[file.pos..file.pos + head])
    {
      r.Reset(0);
      var readSize := fixedSize + if containsVarData then 4 else 0;
      var b := file.Read(readSize);
      r.rec := Splice(r.rec, 0, b);
    }

    /**
     * Copy(r_pRecordDest, pRecordSrc): the record reset, the fixed part and
     * the word copied in, room made for the var data the word counts, which
     * is copied behind it; the length word is then current while the
     * record's own var-data count stays 0. Making the room throws "Record
     * too big" past MaxFieldLength.
     */
    method Copy(r: Records.Record, src: seq<byte>) returns (res: Result<bool>)
      requires r.Valid() && r.fixedSize == fixedSize && r.containsVarData == containsVarData && fixedSize + 4 <= MaxFieldLength
      requires WholeAt(src, 0, fixedSize, containsVarData)
      modifies r
      ensures r.fixedSize == fixedSize && r.containsVarData == containsVarData
      ensures r.Valid() && r.curVarDataSize == 0
      ensures var head, span := fixedSize + (if containsVarData then 4 else 0), SpanAt(src, 0, fixedSize, containsVarData);
        (res.Ok? <==> span <= MaxFieldLength)
        && (res.Ok? ==> span <= |r.rec| && r.rec[..span] == src[..span] && r.varDataLenUnset == !containsVarData)
        && (res.Err? ==> res == Err(FieldDispatch.RecordTooBig) && r.rec[..head] == src[..head])
    {
      CopyHead(r, src);
      var copySize := fixedSize + if containsVarData then 4 else 0;
      if containsVarData {
        var n := ReadI32(src, fixedSize);
        var ok := r.CopyVarData(src[copySize..copySize + n]);
        if !ok {
          return Err(FieldDispatch.RecordTooBig);
        }
        Concat(src, 0, copySize, n);
      }
      return Ok(true);
    }

    /** The first steps of Copy: the record reset, and the fixed part and the word copied in. */
    method CopyHead(r: Records.Record, src: seq<byte>)
      requires r.Valid() && r.fixedSize == fixedSize && r.containsVarData == containsVarData
      requires fixedSize + (if containsVarData then 4 else 0) <= |src|
      modifies r
      ensures r.fixedSize == fixedSize && r.containsVarData == containsVarData
      ensures r.Valid() && r.curVarDataSize == 0 && r.varDataLenUnset
      ensures var head := fixedSize + (if containsVarData then 4 else 0);
        head <= |r.rec| && r.rec[..head] == src[..head]
    {
      r.Reset(0);
      var copySize := fixedSize + if containsVarData then 4 else 0;
      r.rec := Splice(r.rec, 0, src[..copySize]);
    }

    /** A record written to an empty stream and read back: its bytes, unless the room Read makes is too big. */
    method WriteThenRead(rec: seq<byte>, r: Records.Record) returns (version: nat, res: Result<bool>)
      requires r.Valid() && r.fixedSize == fixedSize && r.containsVarData == containsVarData && fixedSize + 4 <= MaxFieldLength
      requires WholeAt(rec, 0, fixedSize, containsVarData)
      modifies r
      ensures var span := SpanAt(rec, 0, fixedSize, containsVarData);
        (res.Ok? <==> !containsVarData || span + 4 <= MaxFieldLength)
        && (res.Ok? ==> span <= |r.rec| && r.rec[..span] == rec[..span] && r.Valid() && r.curVarDataSize == 0)
    {
      var file := new ByteStreams.ByteStream([]);
      version := Write(file, rec);
      ReadAfterWrite(rec, [], [], fixedSize, containsVarData);
      assert file.data == [] + rec[..SpanAt(rec, 0, fixedSize, containsVarData)] + [];
      res := Read(file, r);
    }
  }
}
