// The record buffer (Record): the fixed part, then, when the schema has
// variable-length fields, a 4-byte total var-data length followed by the var
// data, each value preceded by a 1- or 4-byte length prefix.

module Records {
  import opened Bytes
  import ByteStreams

  /** The length prefix written before a var-data value of n bytes: one byte
    * (n << 1) | 1 up to 127, else the four bytes of n << 1. */
  function LenPrefix(n: nat): (p: seq<byte>)
    requires n <= MaxFieldLength
    ensures |p| == (if n > 0x7f then 4 else 1)
  {
    if n > 0x7f then ToLE(2 * n, 4) else [2 * n + 1]
  }

  /** Size of the prefix whose 32-bit little-endian word is w: the low bit
    * marks the one-byte form. */
  function PrefixSize(w: nat): nat
  {
    if w % 2 == 1 then 1 else 4
  }

  /** The value length held in a prefix word w. */
  function PrefixLength(w: nat): nat
  {
    if w % 2 == 1 then w % 256 / 2 else w / 2
  }

  /** Reading a prefix back as a 32-bit word gives the size and length written. */
  lemma PrefixRoundTrip(n: nat, rest: seq<byte>)
    requires n <= MaxFieldLength && |LenPrefix(n) + rest| >= 4
    ensures PrefixSize(FromLE((LenPrefix(n) + rest)[..4])) == |LenPrefix(n)|
    ensures PrefixLength(FromLE((LenPrefix(n) + rest)[..4])) == n
  {
    var s := (LenPrefix(n) + rest)[..4];
    if n > 0x7f {
      assert Pow256(4) == 0x1_0000_0000;
      assert s == ToLE(2 * n, 4);
      FromToLE(2 * n, 4);
    } else {
      assert FromLE(s) == s[0] + 256 * FromLE(s[1..]);
      LowByte(s[0], FromLE(s[1..]));
    }
  }

  lemma LowByte(b: byte, x: nat)
    ensures (b + 256 * x) % 256 == b && (b + 256 * x) % 2 == b % 2
  {
    Mod256(b, x);
    Mod2(b, 128 * x);
  }

  lemma Mod256(b: byte, x: nat)
    ensures (b + 256 * x) % 256 == b
  {
  }

  lemma Mod2(b: nat, z: nat)
    ensures (b + 2 * z) % 2 == b % 2
  {
  }

  /** Capacity after asking for need bytes: kept when large enough, else
    * twice the need capped at MaxFieldLength with var data, else the fixed size. */
  function GrownSize(size: nat, need: nat, fixed: nat, hasVar: bool): nat
  {
    if size >= need then size
    else if hasVar then (if 2 * need > MaxFieldLength then MaxFieldLength else 2 * need)
    else fixed
  }

  function Min(a: nat, b: nat): nat { if a <= b then a else b }

  /** n zero bytes: the model's stand-in for memory realloc leaves indeterminate. */
  function Zeros(n: nat): (r: seq<byte>)
    ensures |r| == n
  {
    if n == 0 then [] else [0] + Zeros(n - 1)
  }

  /** Writing t at p over a buffer that starts with b extends b[lo..p] by t. */
  lemma AppendAt(b: seq<byte>, c: seq<byte>, lo: nat, p: nat, t: seq<byte>)
    requires lo <= p <= |b| <= |c| && p + |t| <= |c| && c[..|b|] == b
    ensures Splice(c, p, t)[lo..p + |t|] == b[lo..p] + t
    ensures Splice(c, p, t)[..lo] == b[..lo] && |Splice(c, p, t)| == |c|
  {
    var r := Splice(c, p, t);
    assert c[..p] == c[..|b|][..p];
    assert r[..p] == b[..p];
    assert r[lo..p] == b[lo..p] by {
      assert r[lo..p] == r[..p][lo..];
      assert b[lo..p] == b[..p][lo..];
    }
    assert r[lo..p + |t|] == r[lo..p] + r[p..p + |t|];
    assert r[..lo] == r[..p][..lo];
    assert b[..lo] == b[..p][..lo];
  }

  /** b cut or extended to n bytes, as realloc does; the model zero-fills. */
  function Resized(b: seq<byte>, n: nat): (r: seq<byte>)
    ensures |r| == n
    ensures r[..Min(n, |b|)] == b[..Min(n, |b|)]
  {
    if n <= |b| then b[..n] else b + Zeros(n - |b|)
  }

  /** The var data of a record buffer, prefixes included: the cur bytes after
    * the fixed part and the length word. */
  function VarDataOf(rec: seq<byte>, fixed: nat, cur: nat): seq<byte>
    requires fixed + 4 + cur <= |rec|
  {
    rec[fixed + 4 .. fixed + 4 + cur]
  }

  class Record {
    /** The m_pRecord buffer; its length is m_nCurrentBufferSize. */
    var rec: seq<byte>
    var fixedSize: nat
    var containsVarData: bool
    var curVarDataSize: nat
    var varDataLenUnset: bool

    ghost predicate Valid()
      reads this
    {
      fixedSize + 4 + curVarDataSize <= MaxFieldLength &&
      fixedSize <= |rec| <= MaxFieldLength &&
      (containsVarData ==> fixedSize + 4 + curVarDataSize <= |rec|)
    }

    /** The bytes that hold the record: the fixed part, and with var data the length word and the var data. */
    ghost function Used(): nat
      reads this
    {
      if containsVarData then fixedSize + 4 + curVarDataSize else fixedSize
    }

    constructor()
      ensures Valid() && rec == [] && fixedSize == 0 && !containsVarData
      ensures curVarDataSize == 0 && !varDataLenUnset
    {
      rec, fixedSize, containsVarData := [], 0, false;
      curVarDataSize, varDataLenUnset := 0, false;
    }

    /** Makes room for n bytes of var data; fails ("Record too big") when the
      * fixed part, the length word and n exceed MaxFieldLength. */
    method Allocate(n: nat) returns (ok: bool)
      modifies this
      ensures ok == (fixedSize + 4 + n <= MaxFieldLength)
      ensures fixedSize == old(fixedSize) && containsVarData == old(containsVarData)
      ensures curVarDataSize == old(curVarDataSize) && varDataLenUnset == old(varDataLenUnset)
      ensures !ok ==> rec == old(rec)
      ensures ok ==> rec == Resized(old(rec), GrownSize(old(|rec|), fixedSize + 4 + n, fixedSize, containsVarData))
      ensures ok && containsVarData ==> fixedSize + 4 + n <= |rec| && old(|rec|) <= |rec|
      ensures ok && containsVarData ==> rec[..old(|rec|)] == old(rec)
      ensures old(|rec|) <= MaxFieldLength ==> |rec| <= MaxFieldLength
      ensures ok && old(|rec|) >= fixedSize + 4 + n ==> rec == old(rec)
    {
      var need := fixedSize + 4 + n;
      if need > MaxFieldLength {
        return false;
      }
      ok := true;
      if |rec| < need {
        rec := Resized(rec, GrownSize(|rec|, need, fixedSize, containsVarData));
      }
    }

    /** Sets the layout and allocates the fixed part plus the length word. */
    method Init(fixed: nat, hasVar: bool) returns (ok: bool)
      requires |rec| <= MaxFieldLength
      modifies this
      ensures fixedSize == fixed && containsVarData == hasVar
      ensures ok == (fixed + 4 <= MaxFieldLength)
      ensures ok ==> Valid() && curVarDataSize == 0 && varDataLenUnset
      ensures ok && old(|rec|) == 0 ==>
        |rec| == (if hasVar then Min(2 * (fixed + 4), MaxFieldLength) else fixed)
      ensures !ok ==> rec == old(rec)
    {
      fixedSize, containsVarData := fixed, hasVar;
      ok := Allocate(0);
      if ok {
        Reset(0);
      }
    }

    /** Takes the var data to be n bytes long (none, by default) and marks its length word stale. */
    method Reset(n: nat)
      requires fixedSize + 4 + n <= MaxFieldLength && fixedSize <= |rec| <= MaxFieldLength
      requires containsVarData ==> fixedSize + 4 + n <= |rec|
      modifies this
      ensures Valid() && curVarDataSize == n && varDataLenUnset
      ensures rec == old(rec) && fixedSize == old(fixedSize) && containsVarData == old(containsVarData)
    {
      curVarDataSize := n;
      varDataLenUnset := true;
    }

    /** Appends data, behind its length prefix, to the var data; returns the
      * position of the prefix counted from the length word, which is never 0. */
    method AddVarData(data: seq<byte>) returns (ok: bool, offset: nat)
      requires Valid() && containsVarData && |data| <= MaxFieldLength
      modifies this
      ensures fixedSize == old(fixedSize) && containsVarData == old(containsVarData)
      ensures ok == (old(fixedSize + 4 + curVarDataSize) + |data| + |LenPrefix(|data|)| <= MaxFieldLength)
      ensures old(fixedSize + 4 + curVarDataSize) + |data| > MaxFieldLength ==>
        rec == old(rec) && curVarDataSize == old(curVarDataSize) && varDataLenUnset == old(varDataLenUnset)
      ensures !ok ==> rec == old(rec) && curVarDataSize == old(curVarDataSize)
      ensures !ok && old(fixedSize + 4 + curVarDataSize) + |data| <= MaxFieldLength ==> varDataLenUnset
      ensures ok ==> Valid() && varDataLenUnset && offset == old(curVarDataSize) + 4
      ensures ok ==> VarDataOf(rec, fixedSize, curVarDataSize) == VarDataOf(old(rec), fixedSize, old(curVarDataSize)) + (LenPrefix(|data|) + data)
      ensures ok ==> rec[..fixedSize + 4] == old(rec)[..fixedSize + 4] && old(|rec|) <= |rec|
    {
      if fixedSize + 4 + curVarDataSize + |data| > MaxFieldLength {
        return false, 0;
      }
      varDataLenUnset := true;
      offset := curVarDataSize + 4;
      ok := StoreValue(data);
    }

    /** The prefix-and-copy half of AddVarData, once the size check has passed. */
    method StoreValue(data: seq<byte>) returns (ok: bool)
      requires Valid() && containsVarData && |data| <= MaxFieldLength
      requires fixedSize + 4 + curVarDataSize + |data| <= MaxFieldLength
      modifies this
      ensures fixedSize == old(fixedSize) && containsVarData == old(containsVarData)
      ensures varDataLenUnset == old(varDataLenUnset)
      ensures ok == (old(fixedSize + 4 + curVarDataSize) + |data| + |LenPrefix(|data|)| <= MaxFieldLength)
      ensures !ok ==> rec == old(rec) && curVarDataSize == old(curVarDataSize)
      ensures ok ==> Valid()
      ensures ok ==> VarDataOf(rec, fixedSize, curVarDataSize) == VarDataOf(old(rec), fixedSize, old(curVarDataSize)) + (LenPrefix(|data|) + data)
      ensures ok ==> rec[..fixedSize + 4] == old(rec)[..fixedSize + 4] && old(|rec|) <= |rec|
    {
      var prefix := LenPrefix(|data|);
      ghost var before := rec;
      ok := Allocate(curVarDataSize + |data| + |prefix|);
      if !ok {
        return;
      }
      var p, t := fixedSize + 4 + curVarDataSize, prefix + data;
      AppendAt(before, rec, fixedSize + 4, p, t);
      rec, curVarDataSize := Splice(rec, p, t), curVarDataSize + |t|;
    }

    /** Stores the var-data size in the length word and marks it current. */
    method SetLength()
      requires Valid() && containsVarData
      modifies this
      ensures fixedSize == old(fixedSize) && containsVarData == old(containsVarData)
      ensures curVarDataSize == old(curVarDataSize)
      ensures Valid() && !varDataLenUnset
      ensures rec == WriteU32(old(rec), fixedSize, curVarDataSize)
    {
      varDataLenUnset := false;
      rec := WriteU32(rec, fixedSize, curVarDataSize);
    }

    /** The record bytes, with a stale length word brought up to date first. */
    method GetRecord() returns (r: seq<byte>)
      requires Valid()
      modifies this
      ensures Valid() && r == rec
      ensures fixedSize == old(fixedSize) && containsVarData == old(containsVarData)
      ensures curVarDataSize == old(curVarDataSize)
      ensures old(varDataLenUnset) && containsVarData ==>
        !varDataLenUnset && rec == WriteU32(old(rec), fixedSize, curVarDataSize)
      ensures old(varDataLenUnset) && containsVarData ==> ReadU32(r, fixedSize) == curVarDataSize
      ensures !(old(varDataLenUnset) && containsVarData) ==>
        rec == old(rec) && varDataLenUnset == old(varDataLenUnset)
    {
      if varDataLenUnset && containsVarData {
        SetLength();
      }
      r := rec;
    }

    /**
     * The var-data half of RecordInfo::Read, once the fixed part and the word
     * are in and the word read as n: room for n bytes and 4 more, the next n
     * bytes of the stream behind the word, and the word marked current.
     */
    method ReadVarData(file: ByteStreams.ByteStream, n: nat) returns (ok: bool)
      requires Valid() && containsVarData && curVarDataSize == 0
      requires n < 0x8000_0000 && file.pos + n <= |file.data|
      modifies this, file
      ensures file.data == old(file.data) && fixedSize == old(fixedSize) && containsVarData && Valid() && curVarDataSize == 0
      ensures var head := fixedSize + 4;
        (ok <==> head + n + 4 <= MaxFieldLength)
        && (ok ==> file.pos == old(file.pos) + n && head + n <= |rec| && !varDataLenUnset
                   && rec[..head + n] == old(rec[..head]) + old(file.data[file.pos..file.pos + n]))
        && (!ok ==> file.pos == old(file.pos) && rec == old(rec))
    {
      ghost var head := rec[..fixedSize + 4];
      ok := Allocate(n + 4);
      if !ok {
        return;
      }
      assert rec[..fixedSize + 4] == head;
      var v := [];
      if n > 0 {
        v := file.Read(n);
      }
      PutVarData(v);
    }

    /**
     * The var-data half of RecordInfo::Copy, once the fixed part and the word
     * are in: room for the var data v, which is copied behind the word, and
     * the word marked current.
     */
    method CopyVarData(v: seq<byte>) returns (ok: bool)
      requires Valid() && containsVarData && curVarDataSize == 0
      modifies this
      ensures fixedSize == old(fixedSize) && containsVarData && Valid() && curVarDataSize == 0
      ensures var head := fixedSize + 4;
        (ok <==> head + |v| <= MaxFieldLength)
        && (ok ==> head + |v| <= |rec| && !varDataLenUnset && rec[..head + |v|] == old(rec[..head]) + v)
        && (!ok ==> rec == old(rec))
    {
      ghost var head := rec[..fixedSize + 4];
      ok := Allocate(|v|);
      if !ok {
        return;
      }
      assert rec[..fixedSize + 4] == head;
      PutVarData(v);
    }

    /** v copied in behind the length word, which is marked current. */
    method PutVarData(v: seq<byte>)
      requires Valid() && containsVarData && curVarDataSize == 0 && fixedSize + 4 + |v| <= |rec|
      modifies this
      ensures fixedSize == old(fixedSize) && containsVarData && Valid() && curVarDataSize == 0
      ensures |rec| == old(|rec|) && !varDataLenUnset
      ensures rec[..fixedSize + 4 + |v|] == old(rec[..fixedSize + 4]) + v
    {
      Placed(rec, fixedSize + 4, v);
      rec := Splice(rec, fixedSize + 4, v);
      varDataLenUnset := false;
    }
  }

  /** v spliced in at i follows what came before it. */
  lemma Placed(s: seq<byte>, i: nat, v: seq<byte>)
    requires i + |v| <= |s|
    ensures Splice(s, i, v)[..i + |v|] == s[..i] + v
  {
    var r := Splice(s, i, v);
    assert r[..i + |v|] == r[..i] + r[i..i + |v|];
  }
}
