// FieldSchema: the name, type, size, scale, source and description of one
// field, the comparisons between schemas, and reading a schema from the
// attributes of a <Field> tag.

module FieldSchemas {
  import opened Wrappers
  import opened FieldTypes
  import MiniXml
  import StringHelper

  /** The unsigned int of m_nSize. */
  type uint = x: int | 0 <= x < 0x1_0000_0000

  /** The int16_t of m_nScale. */
  type int16 = x: int | -0x8000 <= x < 0x8000

  /** static_cast<int16_t>: the value modulo 2^16, read as two's complement. */
  function NarrowToInt16(n: int): (r: int16)
    ensures (r - n) % 0x1_0000 == 0
    ensures -0x8000 <= n < 0x8000 ==> r == n
  {
    var u := n % 0x1_0000;
    if u >= 0x8000 then u - 0x1_0000 else u
  }

  /** The conversion of an int argument to an unsigned parameter: modulo 2^32. */
  function ToUint(n: int): (r: uint)
    ensures (r - n) % 0x1_0000_0000 == 0
    ensures 0 <= n ==> n < 0x1_0000_0000 ==> r == n
  {
    n % 0x1_0000_0000
  }

  // ---------------------------------------------------------------------------
  // Names without case

  /** The key a StringNoCase compares by: ASCII letters upper-cased. */
  function NameKey(s: string): (k: string)
    ensures |k| == |s|
    ensures forall i :: 0 <= i < |s| ==> k[i] == MiniXml.ToUpper(s[i])
  {
    if s == [] then [] else [MiniXml.ToUpper(s[0])] + NameKey(s[1..])
  }

  /** StringNoCase equality. */
  predicate SameName(a: string, b: string)
  {
    NameKey(a) == NameKey(b)
  }

  // ---------------------------------------------------------------------------
  // The schema

  /** pos is the field's position in a RecordInfo, -1 while it is in none. */
  datatype FieldSchema = FieldSchema(
    pos: int,
    name: string,
    source: string,
    description: string,
    size: uint,
    ft: FieldType,
    scale: int16)

  /** The main constructor: a schema outside any RecordInfo, its scale narrowed to int16_t. */
  function NewSchema(name: string, ft: FieldType, size: uint, scale: int, source: string, description: string): (f: FieldSchema)
    ensures f.pos == -1
    ensures f.name == name && f.ft == ft && f.size == size
    ensures f.source == source && f.description == description
    ensures (f.scale - scale) % 0x1_0000 == 0
    ensures -0x8000 <= scale < 0x8000 ==> f.scale == scale
  {
    FieldSchema(-1, name, source, description, size, ft, NarrowToInt16(scale))
  }

  /**
   * The copy constructors with changes: a new name, and then optionally a new
   * type, size, scale and source, in that order; everything not given comes
   * from f. The copy constructor proper is CopySchema.
   */
  function Derive(f: FieldSchema, name: string, ft: Option<FieldType>, size: Option<uint>, scale: Option<int>, source: Option<string>): FieldSchema
  {
    NewSchema(
      name,
      if ft.Some? then ft.value else f.ft,
      if size.Some? then size.value else f.size,
      if scale.Some? then scale.value else f.scale,
      if source.Some? then source.value else f.source,
      f.description)
  }

  /** FieldSchema(const FieldSchema&): every field but the position, which is reset. */
  function CopySchema(f: FieldSchema): FieldSchema
  {
    NewSchema(f.name, f.ft, f.size, f.scale, f.source, f.description)
  }

  /** A derived schema keeps the description, and the type, size, scale and source not given. */
  lemma DeriveKeeps(f: FieldSchema, name: string, ft: Option<FieldType>, size: Option<uint>, scale: Option<int>, source: Option<string>)
    ensures Derive(f, name, ft, size, scale, source).pos == -1
    ensures Derive(f, name, ft, size, scale, source).name == name
    ensures Derive(f, name, ft, size, scale, source).description == f.description
    ensures ft.None? ==> Derive(f, name, ft, size, scale, source).ft == f.ft
    ensures size.None? ==> Derive(f, name, ft, size, scale, source).size == f.size
    ensures scale.None? ==> Derive(f, name, ft, size, scale, source).scale == f.scale
    ensures source.None? ==> Derive(f, name, ft, size, scale, source).source == f.source
  {
  }

  /** A copy equals its original in everything but the position. */
  lemma CopyKeeps(f: FieldSchema)
    ensures CopySchema(f) == f.(pos := -1)
    ensures Compare(CopySchema(f), f)
  {
  }

  // ---------------------------------------------------------------------------
  // Comparisons

  /** Compare (and operator==): type, name without case, size and scale. */
  predicate Compare(a: FieldSchema, b: FieldSchema)
  {
    a.ft == b.ft && SameName(a.name, b.name) && a.size == b.size && a.scale == b.scale
  }

  /** EqualType: Compare without the name. */
  predicate EqualType(a: FieldSchema, b: FieldSchema)
  {
    a.ft == b.ft && a.size == b.size && a.scale == b.scale
  }

  lemma CompareImpliesEqualType(a: FieldSchema, b: FieldSchema)
    ensures Compare(a, b) ==> EqualType(a, b)
  {
  }

  /** Two schemas have equal types exactly when one, given the other's name, compares equal to it. */
  lemma EqualTypeIsCompareRenamed(a: FieldSchema, b: FieldSchema)
    ensures EqualType(a, b) <==> Compare(Derive(a, b.name, None, None, None, None), b)
  {
  }

  /** Compare is an equivalence; source, description and position play no part in it. */
  lemma CompareEquivalence(a: FieldSchema, b: FieldSchema, c: FieldSchema)
    ensures Compare(a, a)
    ensures Compare(a, b) ==> Compare(b, a)
    ensures Compare(a, b) && Compare(b, c) ==> Compare(a, c)
    ensures Compare(a, a.(pos := b.pos, source := b.source, description := b.description))
  {
  }

  // ---------------------------------------------------------------------------
  // Setters

  /**
   * SetSource(scope, value): the source "scope:value". The scope may not
   * hold a ':' (the source asserts it), so it can be read back.
   */
  function WithScopedSource(f: FieldSchema, scope: string, value: string): (g: FieldSchema)
    requires ':' !in scope
    ensures g == f.(source := g.source)
    ensures ScopeOf(g.source) == scope
  {
    ScopeBeforeColon(scope, value);
    f.(source := scope + ":" + value)
  }

  /** The scope of a source: its text before the first ':'. */
  function ScopeOf(s: string): string
  {
    if s == [] || s[0] == ':' then [] else [s[0]] + ScopeOf(s[1..])
  }

  lemma {:induction false} ScopeBeforeColon(scope: string, value: string)
    requires ':' !in scope
    ensures ScopeOf(scope + ":" + value) == scope
  {
    if scope != [] {
      assert (scope + ":" + value)[1..] == scope[1..] + ":" + value;
      ScopeBeforeColon(scope[1..], value);
    } else {
      assert (scope + ":" + value)[0] == ':';
    }
  }

  // ---------------------------------------------------------------------------
  // FromXML over the attributes of a <Field> tag

  /** An attribute's unescaped value, or the empty string when it is absent. */
  function Attr(attrs: map<string, string>, key: string): string
  {
    if key in attrs then attrs[key] else ""
  }

  /**
   * String::ConvertToInt: sh_strtoi in base 10 over wide text, ERANGE
   * unchecked; as written an overflow gives -MAX for a positive number and
   * MAX for a negative one (StringHelper.AsWrittenAgrees).
   */
  function ConvertToInt(s: string): int
  {
    StringHelper.StrToNumAsWritten(s, 10, StringHelper.W32, true).value
  }

  /** The text after the first '.' of s, when s has one. */
  function AfterPoint(s: string): (r: Option<string>)
    ensures r.None? <==> '.' !in s
    ensures r.Some? ==> exists k :: (0 <= k < |s| && s[k] == '.' && r.value == s[k + 1..] &&
      forall j :: 0 <= j < k ==> s[j] != '.')
  {
    if s == [] then None
    else if s[0] == '.' then Some(s[1..])
    else
      var r := AfterPoint(s[1..]);
      assert r.Some? ==> exists k :: (1 <= k < |s| && s[k] == '.' && r.value == s[k + 1..] &&
        forall j :: 0 <= j < k ==> s[j] != '.') by {
        if r.Some? {
          var k :| 0 <= k < |s[1..]| && s[1..][k] == '.' && r.value == s[1..][k + 1..] &&
            forall j :: 0 <= j < k ==> s[1..][j] != '.';
          assert s[k + 1] == '.' && r.value == s[k + 2..];
          assert forall j :: 0 <= j < k + 1 ==> s[j] != '.' by {
            forall j | 0 <= j < k + 1 ensures s[j] != '.' {
              if j > 0 { assert s[j] == s[1..][j - 1]; }
            }
          }
        }
      }
      r
  }

  function MissingAttribute(key: string): string
  {
    "XmlParse Error: the attribute \"" + key + "\" is missing."
  }

  /** The scale of a FixedDecimal: the digits after '.' in size, else the required scale attribute. */
  function ScaleFromXML(attrs: map<string, string>): Result<int>
  {
    match AfterPoint(Attr(attrs, "size"))
    case Some(digits) => Ok(ConvertToInt(digits))
    case None =>
      if "scale" in attrs then Ok(ConvertToInt(attrs["scale"])) else Err(MissingAttribute("scale"))
  }

  /**
   * FromXML: type and name are required; an unknown type and a string type
   * whose size is not positive are errors; the name gets the prefix.
   */
  function FromXML(attrs: map<string, string>, prefix: Option<string>): (r: Result<FieldSchema>)
    ensures r.Ok? <==>
      "type" in attrs && GetFieldTypeFromName(Some(attrs["type"])) != Unknown && "name" in attrs
      && !(ConvertToInt(Attr(attrs, "size")) <= 0 && IsString(GetFieldTypeFromName(Some(attrs["type"]))))
      && (GetFieldTypeFromName(Some(attrs["type"])) == FixedDecimal ==> ScaleFromXML(attrs).Ok?)
    ensures r.Ok? ==>
      r.value.pos == -1 && r.value.ft == GetFieldTypeFromName(Some(attrs["type"]))
      && r.value.name == (if prefix.Some? then prefix.value else "") + attrs["name"]
      && r.value.size == ToUint(ConvertToInt(Attr(attrs, "size")))
      && r.value.source == Attr(attrs, "source") && r.value.description == Attr(attrs, "description")
      && r.value.scale == (if r.value.ft == FixedDecimal then NarrowToInt16(ScaleFromXML(attrs).value) else 0)
  {
    if "type" !in attrs then Err(MissingAttribute("type"))
    else
      var ft := GetFieldTypeFromName(Some(attrs["type"]));
      if ft == Unknown then Err("Unknown field type: " + attrs["type"])
      else if "name" !in attrs then Err(MissingAttribute("name"))
      else
        var name := (if prefix.Some? then prefix.value else "") + attrs["name"];
        var size := ConvertToInt(Attr(attrs, "size"));
        if size <= 0 && IsString(ft) then Err("Field: \"" + name + "\" is 0 length.")
        else
          var scale := if ft == FixedDecimal then ScaleFromXML(attrs) else Ok(0);
          if scale.Err? then Err(scale.msg)
          else Ok(NewSchema(name, ft, ToUint(size), scale.value, Attr(attrs, "source"), Attr(attrs, "description")))
  }
}
