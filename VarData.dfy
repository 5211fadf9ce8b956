// The in-row slot of a variable-length field (V_String, V_WString, Blob,
// SpatialObj): four little-endian bytes holding 0 for an empty value, 1 for
// null, a value of one to three bytes packed with its length in bits 28-29,
// or the position of the value's length prefix in the var data, counted from
// the slot itself, with bit 31 set when that position passes 0x0fffffff.

module VarData {
  import opened Bytes
  import opened Wrappers
  import opened Records

  const HighBit: nat := 0x8000_0000
  /** 1 << 28: the unit of the inline length. */
  const InlineUnit: nat := 0x1000_0000

  /** The small-string form: bit 31 clear and bit 28 or 29 set. */
  predicate IsInline(w: nat)
  {
    w < HighBit && (w / InlineUnit) % 4 != 0
  }

  /** The position a slot word of the offset form points at, bit 31 stripped. */
  function Pos(w: nat): nat
  {
    w % HighBit
  }

  /** The slot at off and, for the offset form, the length word it points at
    * lie inside rec, and so does the value they describe. */
  predicate Readable(rec: seq<byte>, off: nat)
  {
    off + 4 <= |rec| &&
    var w := ReadU32(rec, off);
    if w == 0 || w == 1 then true
    else if IsInline(w) then off + w / InlineUnit <= |rec|
    else
      off + Pos(w) + 4 <= |rec| &&
      var p := ReadU32(rec, off + Pos(w));
      off + Pos(w) + PrefixSize(p) + PrefixLength(p) <= |rec|
  }

  /** GetVarDataValue as a value: None for a null, otherwise the bytes. */
  function GetVarDataValue(rec: seq<byte>, off: nat): (v: Option<seq<byte>>)
    requires Readable(rec, off)
    ensures v.None? <==> ReadU32(rec, off) == 1
    ensures ReadU32(rec, off) == 0 ==> v == Some([])
  {
    var w := ReadU32(rec, off);
    if w == 0 then Some([])
    else if w == 1 then None
    else if IsInline(w) then Some(rec[off .. off + w / InlineUnit])
    else
      var at := off + Pos(w);
      var p := ReadU32(rec, at);
      Some(rec[at + PrefixSize(p) .. at + PrefixSize(p) + PrefixLength(p)])
  }

  /** No value read from a slot is longer than a field can be: an inline length is at most 7, a prefix's below 2^31. */
  lemma ValueBounded(rec: seq<byte>, off: nat)
    requires Readable(rec, off)
    ensures GetVarDataValue(rec, off).Some? ==> |GetVarDataValue(rec, off).value| <= MaxFieldLength
  {
    var w := ReadU32(rec, off);
    if w > 1 && !IsInline(w) {
      var p := ReadU32(rec, off + Pos(w));
      assert PrefixLength(p) <= p / 2;
    }
  }

  /** The slot word of a value of one to three bytes: its length in bits
    * 28-29 and its bytes, least significant first, below. */
  function InlineWord(d: seq<byte>): (w: nat)
    requires 1 <= |d| <= 3
    ensures w < HighBit && w / InlineUnit == |d|
  {
    assert Pow256(3) == 0x100_0000;
    assert FromLE(d) < Pow256(|d|) <= Pow256(3) by { PowMono(|d|, 3); }
    |d| * InlineUnit + FromLE(d)
  }

  /** The slot word of the offset form for a prefix rel bytes after the slot. */
  function OffsetWord(rel: nat): (w: nat)
    requires rel <= MaxFieldLength
    ensures w < 0x1_0000_0000 && Pos(w) == rel
    ensures w >= HighBit <==> rel > MaxFieldLength32
  {
    if rel > MaxFieldLength32 then rel + HighBit else rel
  }

  /** The four slot bytes SetVarDataValue writes for a null, an empty value
    * or a value of up to three bytes. */
  function ShortSlot(value: Option<seq<byte>>): (s: seq<byte>)
    requires value.Some? ==> |value.value| <= 3
    ensures |s| == 4
  {
    assert Pow256(4) == 0x1_0000_0000;
    match value
    case None => ToLE(1, 4)
    case Some(d) => if |d| == 0 then ToLE(0, 4) else ToLE(InlineWord(d), 4)
  }

  lemma {:induction false} PowMono(a: nat, b: nat)
    requires a <= b
    ensures Pow256(a) <= Pow256(b)
  {
    if a < b {
      PowMono(a, b - 1);
    }
  }

  lemma ShiftByte(p: nat, y: nat)
    ensures (256 * p) * y == 256 * (p * y)
  {
  }

  lemma DigitSplit(d: nat, q: nat)
    requires d < 256
    ensures (d + 256 * q) % 256 == d && (d + 256 * q) / 256 == q
  {
  }

  /** The k low bytes of x + Pow256(k) * y are those of x. */
  lemma {:induction false} LowBytes(x: nat, y: nat, k: nat, n: nat)
    requires x < Pow256(k) && k <= n
    ensures ToLE(x + Pow256(k) * y, n)[..k] == ToLE(x, k)
  {
    if k > 0 {
      var v := x + Pow256(k) * y;
      var q := x / 256 + Pow256(k - 1) * y;
      ShiftByte(Pow256(k - 1), y);
      assert v == x % 256 + 256 * q;
      DigitSplit(x % 256, q);
      LowBytes(x / 256, y, k - 1, n - 1);
      assert ToLE(v, n)[..k] == [v % 256] + ToLE(v / 256, n - 1)[..k - 1];
    }
  }

  /** Reading back what ShortSlot wrote gives the value. */
  lemma ShortRoundTrip(rec: seq<byte>, off: nat, value: Option<seq<byte>>)
    requires off + 4 <= |rec| && (value.Some? ==> |value.value| <= 3)
    ensures Readable(Splice(rec, off, ShortSlot(value)), off)
    ensures GetVarDataValue(Splice(rec, off, ShortSlot(value)), off) == value
  {
    var r := Splice(rec, off, ShortSlot(value));
    assert r[off..off + 4] == ShortSlot(value);
    assert Pow256(4) == 0x1_0000_0000;
    match value
    case None =>
      FromToLE(1, 4);
    case Some(d) =>
      if |d| == 0 {
        FromToLE(0, 4);
      } else {
        var w := InlineWord(d);
        FromToLE(w, 4);
        assert ReadU32(r, off) == w;
        assert IsInline(w);
        var y: nat := if |d| == 1 then 0x10_0000 else if |d| == 2 then 0x2000 else 48;
        assert w == FromLE(d) + Pow256(|d|) * y by {
          assert Pow256(1) == 256 && Pow256(2) == 0x1_0000 && Pow256(3) == 0x100_0000;
        }
        LowBytes(FromLE(d), y, |d|, 4);
        ToFromLE(d);
        assert r[off..off + |d|] == ShortSlot(value)[..|d|];
      }
  }

  /** A value stored behind its length prefix at position at, and a slot at
    * off pointing at it, read back as the value. */
  lemma OffsetRoundTrip(rec: seq<byte>, off: nat, at: nat, d: seq<byte>)
    requires |d| >= 4 && |d| <= MaxFieldLength && off + 8 <= at <= off + MaxFieldLength
    requires at + |LenPrefix(|d|)| + |d| <= |rec|
    requires rec[at..at + |LenPrefix(|d|)| + |d|] == LenPrefix(|d|) + d
    requires ReadU32(rec, off) == OffsetWord(at - off)
    ensures Readable(rec, off) && GetVarDataValue(rec, off) == Some(d)
  {
    var w := OffsetWord(at - off);
    assert w != 0 && w != 1;
    assert !IsInline(w) by {
      if w < HighBit {
        assert w <= MaxFieldLength32;
        assert w / InlineUnit == 0;
      }
    }
    var t := LenPrefix(|d|) + d;
    assert rec[at..at + 4] == t[..4];
    PrefixRoundTrip(|d|, d);
    var p := ReadU32(rec, at);
    assert PrefixSize(p) == |LenPrefix(|d|)| && PrefixLength(p) == |d|;
    assert rec[at + |LenPrefix(|d|)| .. at + |LenPrefix(|d|)| + |d|] == t[|LenPrefix(|d|)|..];
  }

  /** The value of the slot at off only depends on the bytes from off up to
    * the end of that value: the span a write must avoid to keep it. */
  function Reach(rec: seq<byte>, off: nat): (e: nat)
    requires Readable(rec, off)
    ensures off + 4 <= e <= |rec|
  {
    var w := ReadU32(rec, off);
    if w == 0 || w == 1 then off + 4
    else if IsInline(w) then (if off + w / InlineUnit > off + 4 then off + w / InlineUnit else off + 4)
    else
      var p := ReadU32(rec, off + Pos(w));
      var e := off + Pos(w) + PrefixSize(p) + PrefixLength(p);
      if e > off + Pos(w) + 4 then e else off + Pos(w) + 4
  }

  /** Two buffers that agree on [off, Reach) hold the same value at off. */
  lemma SameValue(a: seq<byte>, b: seq<byte>, off: nat)
    requires Readable(a, off) && Reach(a, off) <= |b|
    requires forall k :: off <= k < Reach(a, off) ==> a[k] == b[k]
    ensures Readable(b, off) && Reach(b, off) == Reach(a, off)
    ensures GetVarDataValue(b, off) == GetVarDataValue(a, off)
  {
    assert a[off..off + 4] == b[off..off + 4];
    var w := ReadU32(a, off);
    if w != 0 && w != 1 {
      if IsInline(w) {
        assert a[off..off + w / InlineUnit] == b[off..off + w / InlineUnit];
      } else {
        SameOffsetValue(a, b, off);
      }
    }
  }

  lemma SameOffsetValue(a: seq<byte>, b: seq<byte>, off: nat)
    requires Readable(a, off) && Reach(a, off) <= |b|
    requires forall k :: off <= k < Reach(a, off) ==> a[k] == b[k]
    requires ReadU32(a, off) == ReadU32(b, off)
    requires var w := ReadU32(a, off); w != 0 && w != 1 && !IsInline(w)
    ensures Readable(b, off) && Reach(b, off) == Reach(a, off)
    ensures GetVarDataValue(b, off) == GetVarDataValue(a, off)
  {
    var at := off + Pos(ReadU32(a, off));
    assert a[at..at + 4] == b[at..at + 4];
    var p := ReadU32(a, at);
    var lo, hi := at + PrefixSize(p), at + PrefixSize(p) + PrefixLength(p);
    assert a[lo..hi] == b[lo..hi];
  }

  /** A buffer whose first n bytes are kept and whose var data grew by ext
    * still holds the old var data in place. */
  lemma KeptBelow(before: seq<byte>, grown: seq<byte>, n: nat, oldCur: nat, newCur: nat, ext: seq<byte>)
    requires n + oldCur <= |before| && n + newCur <= |grown|
    requires grown[..n] == before[..n]
    requires grown[n..n + newCur] == before[n..n + oldCur] + ext
    ensures grown[..n + oldCur] == before[..n + oldCur]
  {
    assert grown[n..n + oldCur] == grown[n..n + newCur][..oldCur];
    assert grown[..n + oldCur] == grown[..n] + grown[n..n + oldCur];
    assert before[..n + oldCur] == before[..n] + before[n..n + oldCur];
  }

  /**
   * SetVarDataValue: stores value in the slot at off. Nulls, empty values and
   * values of up to three bytes go in the slot itself and leave the var data
   * alone; longer ones are appended to the var data (failing, as AddVarData
   * does, when the record would pass MaxFieldLength).
   */
  method SetVarDataValue(r: Record, off: nat, value: Option<seq<byte>>) returns (ok: bool)
    requires r.Valid() && r.containsVarData && off + 4 <= r.fixedSize
    requires value.Some? ==> |value.value| <= MaxFieldLength
    modifies r
    ensures r.fixedSize == old(r.fixedSize) && r.containsVarData
    ensures ok ==> r.Valid() && Readable(r.rec, off) && GetVarDataValue(r.rec, off) == value
    ensures ok <==> (value.None? || |value.value| <= 3 ||
      old(r.fixedSize + 4 + r.curVarDataSize) + |value.value| + |LenPrefix(|value.value|)| <= MaxFieldLength)
    ensures !ok ==> r.rec == old(r.rec) && r.curVarDataSize == old(r.curVarDataSize)
    ensures ok && (value.None? || |value.value| <= 3) ==>
      r.rec == Splice(old(r.rec), off, ShortSlot(value)) &&
      r.curVarDataSize == old(r.curVarDataSize) && r.varDataLenUnset == old(r.varDataLenUnset)
    ensures ok && value.Some? && |value.value| > 3 ==>
      ReadU32(r.rec, off) == OffsetWord(old(r.fixedSize + 4 + r.curVarDataSize) - off) &&
      r.varDataLenUnset &&
      VarDataOf(r.rec, r.fixedSize, r.curVarDataSize) ==
        VarDataOf(old(r.rec), r.fixedSize, old(r.curVarDataSize)) + LenPrefix(|value.value|) + value.value
    ensures ok ==> (old(|r.rec|) <= |r.rec| && r.rec[..off] == old(r.rec)[..off] &&
      r.rec[off + 4 .. old(r.fixedSize + 4 + r.curVarDataSize)] ==
        old(r.rec)[off + 4 .. old(r.fixedSize + 4 + r.curVarDataSize)])
  {
    if value.None? || |value.value| <= 3 {
      ShortRoundTrip(r.rec, off, value);
      r.rec := Splice(r.rec, off, ShortSlot(value));
      return true;
    }
    ok := StoreLong(r, off, value.value);
  }

  /** The offset form of SetVarDataValue, for values of four bytes or more. */
  method StoreLong(r: Record, off: nat, d: seq<byte>) returns (ok: bool)
    requires r.Valid() && r.containsVarData && off + 4 <= r.fixedSize
    requires 3 < |d| <= MaxFieldLength
    modifies r
    ensures r.fixedSize == old(r.fixedSize) && r.containsVarData
    ensures ok ==> r.Valid() && Readable(r.rec, off) && GetVarDataValue(r.rec, off) == Some(d)
    ensures ok <==> old(r.fixedSize + 4 + r.curVarDataSize) + |d| + |LenPrefix(|d|)| <= MaxFieldLength
    ensures !ok ==> r.rec == old(r.rec) && r.curVarDataSize == old(r.curVarDataSize)
    ensures ok ==>
      ReadU32(r.rec, off) == OffsetWord(old(r.fixedSize + 4 + r.curVarDataSize) - off) &&
      r.varDataLenUnset &&
      VarDataOf(r.rec, r.fixedSize, r.curVarDataSize) ==
        VarDataOf(old(r.rec), r.fixedSize, old(r.curVarDataSize)) + LenPrefix(|d|) + d
    ensures ok ==> (old(|r.rec|) <= |r.rec| && r.rec[..off] == old(r.rec)[..off] &&
      r.rec[off + 4 .. old(r.fixedSize + 4 + r.curVarDataSize)] ==
        old(r.rec)[off + 4 .. old(r.fixedSize + 4 + r.curVarDataSize)])
  {
    ghost var before := r.rec;
    ghost var at := r.fixedSize + 4 + r.curVarDataSize;
    var pos;
    ok, pos := r.AddVarData(d);
    if !ok {
      return;
    }
    // pos counts from the length word; the slot stores it relative to itself
    var rel := pos + r.fixedSize - off;
    assert rel == at - off;
    ghost var grown := r.rec;
    r.rec := WriteU32(r.rec, off, OffsetWord(rel));
    LongFacts(before, grown, r.rec, off, r.fixedSize, old(r.curVarDataSize), r.curVarDataSize, d);
  }

  /** What StoreLong's slot write leaves of the buffer AddVarData grew. */
  lemma LongFacts(before: seq<byte>, grown: seq<byte>, final: seq<byte>, off: nat, fixed: nat,
                  oldCur: nat, newCur: nat, d: seq<byte>)
    requires 3 < |d| <= MaxFieldLength && off + 4 <= fixed && fixed + 4 + oldCur <= |before|
    requires fixed + 4 + newCur <= |grown| && fixed + 4 + oldCur - off <= MaxFieldLength
    requires grown[..fixed + 4] == before[..fixed + 4]
    requires VarDataOf(grown, fixed, newCur) == VarDataOf(before, fixed, oldCur) + (LenPrefix(|d|) + d)
    requires final == WriteU32(grown, off, OffsetWord(fixed + 4 + oldCur - off))
    ensures |final| == |grown| && ReadU32(final, off) == OffsetWord(fixed + 4 + oldCur - off)
    ensures Readable(final, off) && GetVarDataValue(final, off) == Some(d)
    ensures VarDataOf(final, fixed, newCur) == VarDataOf(before, fixed, oldCur) + LenPrefix(|d|) + d
    ensures final[..off] == before[..off]
    ensures final[off + 4 .. fixed + 4 + oldCur] == before[off + 4 .. fixed + 4 + oldCur]
  {
    KeptBelow(before, grown, fixed + 4, oldCur, newCur, LenPrefix(|d|) + d);
    LongRead(before, grown, final, off, fixed, oldCur, newCur, d);
    LongKept(before, grown, final, off, fixed, oldCur);
  }

  /** The long value is where the offset word says, and the var data has grown by it. */
  lemma LongRead(before: seq<byte>, grown: seq<byte>, final: seq<byte>, off: nat, fixed: nat,
                 oldCur: nat, newCur: nat, d: seq<byte>)
    requires 3 < |d| <= MaxFieldLength && off + 4 <= fixed && fixed + 4 + oldCur <= |before|
    requires fixed + 4 + newCur <= |grown| && fixed + 4 + oldCur - off <= MaxFieldLength
    requires VarDataOf(grown, fixed, newCur) == VarDataOf(before, fixed, oldCur) + (LenPrefix(|d|) + d)
    requires final == WriteU32(grown, off, OffsetWord(fixed + 4 + oldCur - off))
    ensures |final| == |grown| && ReadU32(final, off) == OffsetWord(fixed + 4 + oldCur - off)
    ensures Readable(final, off) && GetVarDataValue(final, off) == Some(d)
    ensures VarDataOf(final, fixed, newCur) == VarDataOf(before, fixed, oldCur) + LenPrefix(|d|) + d
  {
    var n := fixed + 4;
    var t := LenPrefix(|d|) + d;
    var x := VarDataOf(before, fixed, oldCur);
    SliceSuffix(grown, n, n + oldCur, n + newCur, x, t);
    TailSlice(final, grown, off + 4, n, n + newCur);
    LongValue(grown, final, off, n + oldCur, d);
    assert x + t == x + LenPrefix(|d|) + d;
  }

  /** Where a span holds a + b, the part after a holds b. */
  lemma SliceSuffix(s: seq<byte>, lo: nat, mid: nat, hi: nat, a: seq<byte>, b: seq<byte>)
    requires lo <= hi <= |s| && s[lo..hi] == a + b && mid == lo + |a|
    ensures mid <= hi && s[mid..hi] == b
  {
    assert s[mid..hi] == s[lo..hi][|a|..];
  }

  /** With the length and the value at at, the offset word written at off leads to them. */
  lemma LongValue(grown: seq<byte>, final: seq<byte>, off: nat, at: nat, d: seq<byte>)
    requires 3 < |d| <= MaxFieldLength && off + 8 <= at && at - off <= MaxFieldLength
    requires at + |LenPrefix(|d|)| + |d| <= |grown|
    requires grown[at..at + |LenPrefix(|d|)| + |d|] == LenPrefix(|d|) + d
    requires final == WriteU32(grown, off, OffsetWord(at - off))
    ensures Readable(final, off) && GetVarDataValue(final, off) == Some(d)
  {
    TailSlice(final, grown, off + 4, at, at + |LenPrefix(|d|)| + |d|);
    OffsetRoundTrip(final, off, at, d);
  }

  /** Writing the offset word leaves the bytes before it and the old var data as they were. */
  lemma LongKept(before: seq<byte>, grown: seq<byte>, final: seq<byte>, off: nat, fixed: nat, oldCur: nat)
    requires off + 4 <= fixed && fixed + 4 + oldCur <= |before| && fixed + 4 + oldCur <= |grown|
    requires fixed + 4 + oldCur - off <= MaxFieldLength
    requires grown[..fixed + 4 + oldCur] == before[..fixed + 4 + oldCur]
    requires final == WriteU32(grown, off, OffsetWord(fixed + 4 + oldCur - off))
    ensures final[..off] == before[..off]
    ensures final[off + 4 .. fixed + 4 + oldCur] == before[off + 4 .. fixed + 4 + oldCur]
  {
    var at := fixed + 4 + oldCur;
    HeadSlice(grown, before, at, 0, off);
    TailSlice(final, grown, off + 4, off + 4, at);
    HeadSlice(grown, before, at, off + 4, at);
  }

  /** Two buffers that agree from j on agree on any span from j on. */
  lemma TailSlice(a: seq<byte>, b: seq<byte>, j: nat, lo: nat, hi: nat)
    requires |a| == |b| && j <= lo <= hi <= |a| && a[j..] == b[j..]
    ensures a[lo..hi] == b[lo..hi]
  {
    forall k | lo <= k < hi
      ensures a[k] == b[k]
    {
      assert a[k] == a[j..][k - j] && b[k] == b[j..][k - j];
    }
  }

  /** Two buffers that agree below j agree on any span below j. */
  lemma HeadSlice(a: seq<byte>, b: seq<byte>, j: nat, lo: nat, hi: nat)
    requires j <= |a| && j <= |b| && lo <= hi <= j && a[..j] == b[..j]
    ensures a[lo..hi] == b[lo..hi]
  {
    assert a[lo..hi] == a[..j][lo..hi];
    assert b[lo..hi] == b[..j][lo..hi];
  }
}
