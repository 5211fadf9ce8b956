// RecordInfo::CreateFieldXml and GetFieldXml: the <Field .../> tag of a
// schema, its attributes in alphabetical order.

module FieldXml {
  import opened Wrappers
  import opened Bytes
  import opened FieldTypes
  import opened FieldSchemas
  import MiniXml
  import StringHelper

  /** One attribute as written; escaped says whether its value goes through EscapeAttribute. */
  datatype Attribute = Attribute(key: string, value: string, escaped: bool)

  /** The types whose tag carries no size. */
  predicate Sizeless(ft: FieldType)
  {
    ft == Bool || ft == Byte || ft == Int16 || ft == Int32 || ft == Int64 || ft == Float || ft == Double
    || ft == Date || ft == Time || ft == DateTime
  }

  /** A V_WString size given in bytes is capped at the largest character count. */
  function WrittenSize(ft: FieldType, size: uint): (n: uint)
    ensures n <= size
    ensures ft == V_WString && size > MaxFieldLength / 2 ==> n == MaxFieldLength / 2
  {
    if ft == V_WString && size > MaxFieldLength / 2 then MaxFieldLength / 2 else size
  }

  /** static_cast<int> of an unsigned value. */
  function ToInt32(n: uint): (v: int)
    ensures StringHelper.MinOf(StringHelper.W32) <= v <= StringHelper.MaxOf(StringHelper.W32)
    ensures n <= 0x7fff_ffff ==> v == n
  {
    if n < 0x8000_0000 then n else n - 0x1_0000_0000
  }

  function DecimalText(n: int16): string
  {
    StringHelper.IntText(n, StringHelper.W32, 10)
  }

  /** The attribute a, in front of rest when c holds. */
  function Opt(c: bool, a: Attribute, rest: seq<Attribute>): seq<Attribute>
  {
    if c then [a] + rest else rest
  }

  function SizeText(ft: FieldType, size: uint): string
  {
    StringHelper.IntText(ToInt32(WrittenSize(ft, size)), StringHelper.W32, 10)
  }

  /** The attributes of the tag, in the order CreateFieldXml writes them. */
  function FieldAttributes(name: string, ft: FieldType, size: uint, scale: int16, source: string, description: string): seq<Attribute>
  {
    Opt(description != [], Attribute("description", description, true),
    Opt(true, Attribute("name", name, true),
    Opt(ft == FixedDecimal, Attribute("scale", DecimalText(scale), false),
    Opt(!Sizeless(ft), Attribute("size", SizeText(ft, size), false),
    Opt(source != [], Attribute("source", source, true),
    [Attribute("type", GetNameFromFieldType(ft), false)])))))
  }

  function RenderValue(a: Attribute): string
  {
    if a.escaped then MiniXml.EscapeAttribute(a.value) else a.value
  }

  /** key="value" pairs, one space between them. */
  function RenderAttributes(attrs: seq<Attribute>): string
  {
    if attrs == [] then []
    else
      attrs[0].key + "=\"" + RenderValue(attrs[0]) + "\""
      + (if |attrs| == 1 then [] else " " + RenderAttributes(attrs[1..]))
  }

  function CreateFieldXml(name: string, ft: FieldType, size: uint, scale: int16, source: string, description: string): string
  {
    "\t<Field " + RenderAttributes(FieldAttributes(name, ft, size, scale, source, description)) + "/>\n"
  }

  /** GetFieldXml: the schema's tag, the name wrapped in prefix and suffix, the source optional. */
  function GetFieldXml(f: FieldSchema, prefix: string, suffix: string, includeSource: bool): string
  {
    CreateFieldXml(prefix + f.name + suffix, f.ft, f.size, f.scale, if includeSource then f.source else "", f.description)
  }

  // ---------------------------------------------------------------------------
  // Order and round trip

  /** Strict lexicographic order on strings. */
  predicate Before(a: string, b: string)
  {
    (|a| < |b| && a == b[..|a|]) || (exists k :: 0 <= k < |a| && k < |b| && a[..k] == b[..k] && a[k] < b[k])
  }

  predicate KeysSorted(attrs: seq<Attribute>)
  {
    forall i, j :: 0 <= i < j < |attrs| ==> Before(attrs[i].key, attrs[j].key)
  }

  /** Strings that differ first in their first character, or agree on it and differ in the second. */
  lemma Before2(a: string, b: string, k: nat)
    requires k <= 1 && k < |a| && k < |b| && (k == 1 ==> a[0] == b[0]) && a[k] < b[k]
    ensures Before(a, b)
  {
    assert a[..k] == b[..k];
  }

  /** The keys CreateFieldXml writes, in the fixed order. */
  function KeyOrder(): seq<string>
  {
    ["description", "name", "scale", "size", "source", "type"]
  }

  lemma KeyOrderSorted()
    ensures forall i, j :: 0 <= i < j < |KeyOrder()| ==> Before(KeyOrder()[i], KeyOrder()[j])
  {
    var o := KeyOrder();
    forall i, j | 0 <= i < j < |o|
      ensures Before(o[i], o[j])
    {
      if i <= 1 || j == 5 {
        Before2(o[i], o[j], 0);
      } else {
        Before2(o[i], o[j], 1);
      }
    }
  }

  /** Every key of attrs is one of KeyOrder()[j..]. */
  predicate KeysFrom(attrs: seq<Attribute>, j: nat)
  {
    forall i :: 0 <= i < |attrs| ==> exists p :: j <= p < |KeyOrder()| && attrs[i].key == KeyOrder()[p]
  }

  lemma OptSorted(c: bool, a: Attribute, rest: seq<Attribute>, j: nat)
    requires j < |KeyOrder()| && a.key == KeyOrder()[j]
    requires KeysSorted(rest) && KeysFrom(rest, j + 1)
    ensures KeysSorted(Opt(c, a, rest))
  {
    if c {
      HeadBefore(a, rest, j);
      var r := Opt(c, a, rest);
      forall i, k | 0 <= i < k < |r| ensures Before(r[i].key, r[k].key) {
        assert r[k] == rest[k - 1];
        if i > 0 {
          assert r[i] == rest[i - 1];
        }
      }
    }
  }

  /** A key of the fixed order comes before every later one. */
  lemma HeadBefore(a: Attribute, rest: seq<Attribute>, j: nat)
    requires j < |KeyOrder()| && a.key == KeyOrder()[j]
    requires KeysFrom(rest, j + 1)
    ensures forall i :: 0 <= i < |rest| ==> Before(a.key, rest[i].key)
  {
    KeyOrderSorted();
    forall i | 0 <= i < |rest| ensures Before(a.key, rest[i].key) {
      assert exists p :: j + 1 <= p < |KeyOrder()| && rest[i].key == KeyOrder()[p];
      var p :| j + 1 <= p < |KeyOrder()| && rest[i].key == KeyOrder()[p];
      assert Before(KeyOrder()[j], KeyOrder()[p]);
    }
  }

  lemma OptFrom(c: bool, a: Attribute, rest: seq<Attribute>, j: nat, q: nat)
    requires j <= q < |KeyOrder()| && a.key == KeyOrder()[q]
    requires KeysFrom(rest, j)
    ensures KeysFrom(Opt(c, a, rest), j)
  {
    if c {
      var r := Opt(c, a, rest);
      forall i | 0 <= i < |r| ensures exists p :: j <= p < |KeyOrder()| && r[i].key == KeyOrder()[p] {
        if i > 0 { assert r[i] == rest[i - 1]; } else { assert r[i].key == KeyOrder()[q]; }
      }
    }
  }

  /** The attributes are in alphabetical order, as the comparison of rebuilt tags needs. */
  lemma AttributesSorted(name: string, ft: FieldType, size: uint, scale: int16, source: string, description: string)
    ensures KeysSorted(FieldAttributes(name, ft, size, scale, source, description))
  {
    var o := KeyOrder();
    var t := [Attribute("type", GetNameFromFieldType(ft), false)];
    assert KeysSorted(t) && KeysFrom(t, 5) by {
      assert t[0].key == o[5];
    }
    var s := Opt(source != [], Attribute("source", source, true), t);
    assert KeysSorted(s) && KeysFrom(s, 4) by {
      OptStep(source != [], Attribute("source", source, true), t, 4);
    }
    var z := Opt(!Sizeless(ft), Attribute("size", SizeText(ft, size), false), s);
    assert KeysSorted(z) && KeysFrom(z, 3) by {
      OptStep(!Sizeless(ft), Attribute("size", SizeText(ft, size), false), s, 3);
    }
    var c := Opt(ft == FixedDecimal, Attribute("scale", DecimalText(scale), false), z);
    assert KeysSorted(c) && KeysFrom(c, 2) by {
      OptStep(ft == FixedDecimal, Attribute("scale", DecimalText(scale), false), z, 2);
    }
    var n := Opt(true, Attribute("name", name, true), c);
    assert KeysSorted(n) && KeysFrom(n, 1) by {
      OptStep(true, Attribute("name", name, true), c, 1);
    }
    OptSorted(description != [], Attribute("description", description, true), n, 0);
  }

  /** One optional attribute put in front keeps the keys sorted and from the fixed order. */
  lemma OptStep(c: bool, a: Attribute, rest: seq<Attribute>, j: nat)
    requires j < |KeyOrder()| && a.key == KeyOrder()[j]
    requires KeysSorted(rest) && KeysFrom(rest, j + 1)
    ensures KeysSorted(Opt(c, a, rest)) && KeysFrom(Opt(c, a, rest), j)
  {
    OptSorted(c, a, rest, j);
    OptFrom(c, a, rest, j, j);
  }

  /** The attached attribute values, keyed by attribute name; an earlier key wins. */
  function AttrMap(attrs: seq<Attribute>): map<string, string>
  {
    if attrs == [] then map[] else AttrMap(attrs[1..])[attrs[0].key := attrs[0].value]
  }

  lemma AttrMapOpt(c: bool, a: Attribute, rest: seq<Attribute>)
    ensures AttrMap(Opt(c, a, rest)) == if c then AttrMap(rest)[a.key := a.value] else AttrMap(rest)
  {
    if c { assert ([a] + rest)[1..] == rest; }
  }

  /** The text of an empty attribute converts to 0. */
  lemma EmptyIsZero()
    ensures ConvertToInt("") == 0
  {
  }

  /** A decimal text has no '.' and converts back to its value. */
  lemma DecimalBack(v: int)
    requires StringHelper.MinOf(StringHelper.W32) <= v <= StringHelper.MaxOf(StringHelper.W32)
    ensures ConvertToInt(StringHelper.IntText(v, StringHelper.W32, 10)) == v
    ensures '.' !in StringHelper.IntText(v, StringHelper.W32, 10)
  {
    DecimalNumber(v);
    StringHelper.DecimalAscii(v, StringHelper.W32);
    var t := StringHelper.IntText(v, StringHelper.W32, 10);
    assert forall k :: 0 <= k < |t| ==> t[k] != '.';
  }

  lemma DecimalNumber(v: int)
    requires StringHelper.MinOf(StringHelper.W32) <= v <= StringHelper.MaxOf(StringHelper.W32)
    ensures ConvertToInt(StringHelper.IntText(v, StringHelper.W32, 10)) == v
  {
    StringHelper.DecimalRoundTrip(v, StringHelper.W32, true);
  }

  /** The attribute map of the tag: one update per attribute written. */
  lemma AttributeMap(name: string, ft: FieldType, size: uint, scale: int16, source: string, description: string)
    ensures AttrMap(FieldAttributes(name, ft, size, scale, source, description)) ==
      var m0 := map["type" := GetNameFromFieldType(ft)];
      var m1 := if source != [] then m0["source" := source] else m0;
      var m2 := if !Sizeless(ft) then m1["size" := SizeText(ft, size)] else m1;
      var m3 := if ft == FixedDecimal then m2["scale" := DecimalText(scale)] else m2;
      var m4 := m3["name" := name];
      if description != [] then m4["description" := description] else m4
  {
    var t := [Attribute("type", GetNameFromFieldType(ft), false)];
    assert AttrMap(t) == map["type" := GetNameFromFieldType(ft)] by {
      assert t[1..] == [];
    }
    var s := Opt(source != [], Attribute("source", source, true), t);
    var z := Opt(!Sizeless(ft), Attribute("size", SizeText(ft, size), false), s);
    var c := Opt(ft == FixedDecimal, Attribute("scale", DecimalText(scale), false), z);
    var n := Opt(true, Attribute("name", name, true), c);
    AttrMapOpt(source != [], Attribute("source", source, true), t);
    AttrMapOpt(!Sizeless(ft), Attribute("size", SizeText(ft, size), false), s);
    AttrMapOpt(ft == FixedDecimal, Attribute("scale", DecimalText(scale), false), z);
    AttrMapOpt(true, Attribute("name", name, true), c);
    AttrMapOpt(description != [], Attribute("description", description, true), n);
  }

  /**
   * Reading back the attributes CreateFieldXml writes gives the schema again,
   * except that a sizeless type reads size 0 and only a FixedDecimal keeps
   * its scale. A string type whose size is written must not be 0, and the
   * size must fit an int.
   */
  lemma {:induction false} FieldXmlRoundTrip(name: string, ft: FieldType, size: uint, scale: int16, source: string, description: string)
    requires ft != Unknown && WrittenSize(ft, size) <= 0x7fff_ffff
    requires IsString(ft) ==> size > 0
    ensures FromXML(AttrMap(FieldAttributes(name, ft, size, scale, source, description)), None) ==
      Ok(NewSchema(name, ft, if Sizeless(ft) then 0 else WrittenSize(ft, size), if ft == FixedDecimal then scale else 0, source, description))
  {
    var m := AttrMap(FieldAttributes(name, ft, size, scale, source, description));
    TagLookups(name, ft, size, scale, source, description);
    NameRoundTrip(ft);
    SizeBack(ft, size);
    if ft == FixedDecimal {
      ScaleBack(m, ft, size, scale);
    }
    var r := FromXML(m, None);
    assert r.Ok?;
    assert r.value.ft == ft;
    assert r.value.name == name;
    assert r.value.scale == (if ft == FixedDecimal then scale else 0);
    assert r.value.size == (if Sizeless(ft) then 0 else WrittenSize(ft, size));
    assert r.value.source == source && r.value.description == description && r.value.pos == -1;
  }

  /** The size text converts back to the size, positive for a string type. */
  lemma SizeBack(ft: FieldType, size: uint)
    requires ft != Unknown && WrittenSize(ft, size) <= 0x7fff_ffff
    requires IsString(ft) ==> size > 0
    ensures ConvertToInt(if Sizeless(ft) then "" else SizeText(ft, size)) == (if Sizeless(ft) then 0 else WrittenSize(ft, size))
    ensures IsString(ft) ==> WrittenSize(ft, size) > 0 && !Sizeless(ft)
    ensures !Sizeless(ft) ==> '.' !in SizeText(ft, size)
  {
    if Sizeless(ft) {
      EmptyIsZero();
    } else {
      DecimalBack(WrittenSize(ft, size));
    }
  }

  /** A FixedDecimal's scale is read back from the scale attribute. */
  lemma ScaleBack(m: map<string, string>, ft: FieldType, size: uint, scale: int16)
    requires ft == FixedDecimal && "scale" in m && m["scale"] == DecimalText(scale)
    requires Attr(m, "size") == SizeText(ft, size) && '.' !in SizeText(ft, size)
    ensures ScaleFromXML(m) == Ok(scale as int)
  {
    DecimalBack(scale);
  }

  /** What FromXML finds in the tag's attribute map. */
  lemma TagLookups(name: string, ft: FieldType, size: uint, scale: int16, source: string, description: string)
    ensures var m := AttrMap(FieldAttributes(name, ft, size, scale, source, description));
      "type" in m && m["type"] == GetNameFromFieldType(ft)
      && "name" in m && m["name"] == name
      && Attr(m, "source") == source && Attr(m, "description") == description
      && Attr(m, "size") == (if Sizeless(ft) then "" else SizeText(ft, size))
      && (ft == FixedDecimal ==> "scale" in m && m["scale"] == DecimalText(scale))
  {
    AttributeMap(name, ft, size, scale, source, description);
  }
}
