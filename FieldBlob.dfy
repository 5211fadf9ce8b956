// Field_Blob: raw bytes kept in the var data, as a Blob or a SpatialObj.
// Both kinds take the 4-byte slot of every var field; neither converts to or
// from numbers or text, and a SpatialObj reads as text only by its kind.

module FieldBlob {
  import opened Wrappers
  import opened Bytes
  import opened FieldTypes
  import opened Fields
  import opened StringHelper
  import SrcLib

  /** The type of the field: SpatialObj or Blob. */
  function TypeOf(spatial: bool): (ft: FieldType)
    ensures IsVarLength(ft) && !IsStringStorage(ft)
    ensures ft == (if spatial then SpatialObj else Blob)
  {
    if spatial then SpatialObj else Blob
  }

  /** What a Blob holds: the value of its slot, None for a null. */
  predicate Holds(c: Content)
  {
    c.Slot? && (c.v.Some? ==> |c.v.value| <= MaxFieldLength)
  }

  /** GetAsBlob: the slot's value, null exactly when the slot is null. */
  function GetAsBlob(c: Content): (v: Val<seq<byte>>)
    requires Holds(c)
    ensures v.isNull <==> c.v.None?
    ensures v.isNull ==> v.value == []
    ensures !v.isNull ==> c.v == Some(v.value)
  {
    if c.v.None? then Val(true, []) else Val(false, c.v.value)
  }

  predicate GetNull(c: Content)
    requires Holds(c)
  {
    GetAsBlob(c).isNull
  }

  /** The text of a byte count: its decimal digits and " Bytes". */
  function SizeText(n: nat): string
    requires n <= MaxFieldLength
  {
    IntText(n, W64, 10) + " Bytes"
  }

  /**
   * GetAsAString: "SpatialObject" for any spatial value, the byte count for a
   * Blob, and "[Null]" flagged as null for a null.
   */
  function GetAsAString(spatial: bool, c: Content): (v: Val<string>)
    requires Holds(c)
    ensures v.isNull <==> GetNull(c)
    ensures v.isNull ==> v.value == "[Null]"
    ensures !v.isNull && spatial ==> v.value == "SpatialObject"
  {
    var b := GetAsBlob(c);
    if b.isNull then Val(true, "[Null]")
    else if spatial then Val(false, "SpatialObject")
    else Val(false, SizeText(|b.value|))
  }

  /** GetAsWString: the same text in UTF-16 units. */
  function GetAsWString(spatial: bool, c: Content): (v: Val<seq<u16>>)
    requires Holds(c)
    ensures v.isNull <==> GetNull(c)
    ensures v.value == SrcLib.Widened(GetAsAString(spatial, c).value)
  {
    var a := GetAsAString(spatial, c);
    Val(a.isNull, SrcLib.Widened(a.value))
  }

  /**
   * A Blob's text names its length: the decimal number of bytes, which reads
   * back as that number, then " Bytes".
   */
  lemma SizeTextReadsBack(c: Content)
    requires Holds(c) && !GetNull(c)
    ensures var t := GetAsAString(false, c).value; var n := |c.v.value|;
      |t| > 6 && t[|t| - 6..] == " Bytes"
      && StrToNum(t[..|t| - 6], 10, W64, false) == Parsed(n, Some(|t| - 6), false)
  {
    var n := |c.v.value|;
    var d := IntText(n, W64, 10);
    var t := GetAsAString(false, c).value;
    assert t == d + " Bytes";
    DecimalHasNumber(n, W64, false);
    assert |d| > 0;
    assert t[..|t| - 6] == d && t[|t| - 6..] == " Bytes";
    DecimalRoundTrip(n, W64, false);
  }

  /** The message every conversion Field_Blob refuses throws, naming the refused member. */
  function NotSupported(member: string): string
  {
    "Internal Error in Field_Blob::" + member + ": Not supported."
  }

  /** What GetAsSpatialBlob throws for a value: the shape check always fails here. */
  const InvalidSpatialBlob: string := "Internal Error in Field_Blob::GetAsSpatialBlob: Invalid SpatialBlob."

  /**
   * GetAsSpatialBlob: a null reads as a null; any other value fails the
   * shape check, since ValidateShpBlob accepts nothing in this build.
   */
  function GetAsSpatialBlob(c: Content): (r: Result<Val<seq<byte>>>)
    requires Holds(c)
    ensures r.Ok? <==> GetNull(c)
    ensures r.Ok? ==> r.value == GetAsBlob(c)
    ensures r.Err? ==> r.msg == InvalidSpatialBlob
  {
    var b := GetAsBlob(c);
    if b.isNull then Ok(b) else Err(InvalidSpatialBlob)
  }

  /** SetFromBlob and SetFromSpatialBlob: the slot takes the value as given, without a message. */
  function SetFromBlob(blob: seq<byte>): (e: Effect)
    requires |blob| <= MaxFieldLength
    ensures Holds(e.store) && e.msgs == []
    ensures GetAsBlob(e.store) == Val(false, blob)
  {
    Effect(Slot(Some(blob)), [])
  }

  /** SetNull: the slot's null. */
  function SetNull(): (c: Content)
    ensures Holds(c) && GetNull(c)
  {
    Slot(None)
  }

  /** Copying a Blob's value onto a Blob leaves the same content, so a field read and written back is unchanged. */
  lemma BlobRoundTrip(c: Content)
    requires Holds(c) && !GetNull(c)
    ensures SetFromBlob(GetAsBlob(c).value) == Effect(c, [])
  {
  }

  /** A null is read as null by every getter that does not throw. */
  lemma NullRead()
    ensures GetAsBlob(SetNull()) == Val(true, [])
    ensures GetAsAString(false, SetNull()) == Val(true, "[Null]")
    ensures GetAsAString(true, SetNull()) == Val(true, "[Null]")
    ensures GetAsSpatialBlob(SetNull()) == Ok(Val(true, []))
  {
  }
}
