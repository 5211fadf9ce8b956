// The field types of a record, their names, and the type-class predicates.

module FieldTypes {
  import opened Wrappers

  /** In the order of the source's enumeration, Unknown = 0 .. SpatialObj = 17. */
  datatype FieldType =
    | Unknown | Bool | Byte | Int16 | Int32 | Int64 | FixedDecimal | Float | Double
    | String | WString | V_String | V_WString | Date | Time | DateTime | Blob | SpatialObj

  function GetNameFromFieldType(t: FieldType): string
  {
    match t
    case Unknown => "Unknown"
    case Bool => "Bool"
    case Byte => "Byte"
    case Int16 => "Int16"
    case Int32 => "Int32"
    case Int64 => "Int64"
    case FixedDecimal => "FixedDecimal"
    case Float => "Float"
    case Double => "Double"
    case String => "String"
    case WString => "WString"
    case V_String => "V_String"
    case V_WString => "V_WString"
    case Date => "Date"
    case Time => "Time"
    case DateTime => "DateTime"
    case Blob => "Blob"
    case SpatialObj => "SpatialObj"
  }

  /** The character at index i of a NUL-terminated string; NUL at and beyond its end. */
  function At(s: string, i: nat): char
  {
    if i < |s| then s[i] else '\0'
  }

  /** Whether c is the letter u (an upper-case ASCII letter) in either case. */
  predicate IsLetter(c: char, u: char)
    requires 'A' <= u <= 'Z'
  {
    c == u || c as int == u as int + 32
  }

  /** Decides the type from at most the characters 0 to 4 of the name, ignoring case. */
  function GetFieldTypeFromName(p: Option<string>): (t: FieldType)
    ensures p.None? || (p.Some? && p.value == []) ==> t == Unknown
  {
    if p.None? then Unknown
    else
      var s := p.value;
      var c := At(s, 0);
      if IsLetter(c, 'B') then
        if IsLetter(At(s, 1), 'O') then Bool
        else if IsLetter(At(s, 1), 'L') then Blob
        else Byte
      else if IsLetter(c, 'I') then
        if At(s, 3) == '1' then Int16
        else if At(s, 3) == '3' then Int32
        else Int64
      else if IsLetter(c, 'F') then
        if IsLetter(At(s, 1), 'I') then FixedDecimal else Float
      else if IsLetter(c, 'D') then
        if IsLetter(At(s, 1), 'O') then Double
        else if At(s, 4) == '\0' then Date
        else DateTime
      else if IsLetter(c, 'S') then
        if IsLetter(At(s, 1), 'T') then String else SpatialObj
      else if IsLetter(c, 'W') then WString
      else if IsLetter(c, 'V') then
        if IsLetter(At(s, 2), 'S') then V_String else V_WString
      else if IsLetter(c, 'T') then Time
      else Unknown
  }

  /** Every type's name decodes back to that type. */
  lemma NameRoundTrip(t: FieldType)
    ensures GetFieldTypeFromName(Some(GetNameFromFieldType(t))) == t
  {
  }

  /** Two names that agree on their first five characters up to ASCII case give the same type. */
  predicate SameUpToCase(a: char, b: char)
  {
    a == b || (('A' <= a <= 'Z') && b as int == a as int + 32) || (('A' <= b <= 'Z') && a as int == b as int + 32)
  }

  lemma CaseInsensitive(s: string, s': string)
    requires forall i :: 0 <= i < 5 ==> SameUpToCase(At(s, i), At(s', i))
    ensures GetFieldTypeFromName(Some(s)) == GetFieldTypeFromName(Some(s'))
  {
    assert SameUpToCase(At(s, 0), At(s', 0));
    assert SameUpToCase(At(s, 1), At(s', 1));
    assert SameUpToCase(At(s, 2), At(s', 2));
    assert SameUpToCase(At(s, 3), At(s', 3));
    assert SameUpToCase(At(s, 4), At(s', 4));
  }

  /** A name that starts with none of the dispatch letters gives Unknown. */
  lemma UnknownFirstLetter(s: string)
    requires |s| > 0
    requires !(s[0] in "BbIiFfDdSsWwVvTt")
    ensures GetFieldTypeFromName(Some(s)) == Unknown
  {
  }

  predicate IsBool(t: FieldType) { t == Bool }
  predicate IsBoolOrInteger(t: FieldType) { t == Bool || t == Byte || t == Int16 || t == Int32 || t == Int64 }
  predicate IsInteger(t: FieldType) { t == Byte || t == Int16 || t == Int32 || t == Int64 }
  predicate IsFloat(t: FieldType) { t == Float || t == Double }
  predicate IsNumeric(t: FieldType)
  {
    t == Byte || t == Int16 || t == Int32 || t == Int64 || t == FixedDecimal || t == Float || t == Double
  }
  predicate IsString(t: FieldType) { t == String || t == WString || t == V_String || t == V_WString }
  predicate IsStringOrDate(t: FieldType)
  {
    t == String || t == WString || t == V_String || t == V_WString || t == Date || t == Time || t == DateTime
  }
  predicate IsDateOrTime(t: FieldType) { t == Date || t == Time || t == DateTime }
  predicate IsBinary(t: FieldType) { t == Blob || t == SpatialObj }
  predicate IsNotBinary(t: FieldType) { t != Blob && t != SpatialObj }
  predicate IsNarrowString(t: FieldType) { t == String || t == V_String }
  predicate IsWideString(t: FieldType) { t == WString || t == V_WString }
  predicate IsVariableLenString(t: FieldType) { t == V_String || t == V_WString }

  /** How the type-class predicates relate to one another, for every type. */
  lemma TypeClasses(t: FieldType)
    ensures IsNumeric(t) <==> IsInteger(t) || IsFloat(t) || t == FixedDecimal
    ensures IsString(t) <==> IsNarrowString(t) || IsWideString(t)
    ensures IsVariableLenString(t) ==> IsString(t)
    ensures IsStringOrDate(t) <==> IsString(t) || IsDateOrTime(t)
    ensures IsNotBinary(t) <==> !IsBinary(t)
    ensures IsBoolOrInteger(t) <==> IsBool(t) || IsInteger(t)
  {
  }
}
