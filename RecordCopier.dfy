// RecordCopier: copying the fields of one record layout into another. Each
// (destination, source) pair becomes a copy command: a raw block copy when
// the two fields are laid out alike, a var-data copy (truncated to the
// destination's maximum) when they are var fields alike, and a conversion
// through the getters and setters otherwise. DoneAdding sorts the commands by
// source offset and merges runs of raw copies that are contiguous in both
// records into one block.

module RecordCopiers {
  import opened Wrappers
  import opened Bytes
  import opened FieldTypes
  import opened FieldSchemas
  import opened Fields
  import Records
  import VarData
  import SrcLib
  import FieldNum
  import FieldString
  import FieldDispatch

  // ---------------------------------------------------------------------------
  // Copy commands

  /**
   * CopyCmd. DoAdd's command is a local left uninitialised: a field change
   * sets only the field numbers and the flag, and a raw copy of a fixed
   * field leaves the maximum unset. What such a field holds is a parameter
   * (the command u), so every property holds whatever it is.
   */
  datatype CopyCmd = CopyCmd(
    srcOffset: nat, destOffset: nat, len: nat,
    srcFieldNum: nat, destFieldNum: nat,
    isFieldChange: bool, isVarData: bool, varDataMaxBytes: nat)

  /** A value-initialised command: a raw copy of no bytes. */
  const Blank: CopyCmd := CopyCmd(0, 0, 0, 0, 0, false, false, 0)

  /** The test DoAdd makes: the two fields differ in type, raw size or size, or are FixedDecimals of different scales. */
  predicate IsFieldChange(s: Field, d: Field)
  {
    s.schema.ft != d.schema.ft || s.rawSize != d.rawSize || s.schema.size != d.schema.size
    || (s.schema.ft == FixedDecimal && s.schema.scale != d.schema.scale)
  }

  /** The command DoAdd pushes for destination field dn (d) and source field sn (s), the unset fields as in u. */
  function Command(dn: nat, sn: nat, d: Field, s: Field, u: CopyCmd): CopyCmd
  {
    if IsFieldChange(s, d) then u.(srcFieldNum := sn, destFieldNum := dn, isFieldChange := true)
    else
      CopyCmd(s.offset, d.offset, s.rawSize, sn, dn, false, d.isVarLength,
              if d.isVarLength then GetMaxBytes(d.schema) else u.varDataMaxBytes)
  }

  /**
   * The raw-copy test: a pair is copied without conversion exactly when the
   * fields agree in type, raw size and size (and scale, for FixedDecimal);
   * such a command copies the source's raw bytes to the destination's
   * offset, and a var one keeps the destination's maximum.
   */
  lemma RawCopyTest(dn: nat, sn: nat, d: Field, s: Field, u: CopyCmd)
    ensures var c := Command(dn, sn, d, s, u);
      c.srcFieldNum == sn && c.destFieldNum == dn
      && (c.isFieldChange <==> s.schema.ft != d.schema.ft || s.rawSize != d.rawSize || s.schema.size != d.schema.size
                                || (s.schema.ft == FixedDecimal && s.schema.scale != d.schema.scale))
      && (!c.isFieldChange ==>
            c.srcOffset == s.offset && c.destOffset == d.offset && c.len == s.rawSize == d.rawSize
            && c.isVarData == d.isVarLength
            && (c.isVarData ==> c.varDataMaxBytes == GetMaxBytes(d.schema)))
      && (c.isFieldChange ==> c.srcOffset == u.srcOffset && c.destOffset == u.destOffset && c.len == u.len
                              && c.isVarData == u.isVarData && c.varDataMaxBytes == u.varDataMaxBytes)
  {
  }

  /** A raw copy, neither converting nor going through the var data: only these are merged. */
  predicate Raw(c: CopyCmd)
  {
    !c.isVarData && !c.isFieldChange
  }

  /** c begins where p ends, in both records, and both are raw. */
  predicate Mergeable(p: CopyCmd, c: CopyCmd)
  {
    Raw(p) && Raw(c) && c.srcOffset == p.srcOffset + p.len && c.destOffset == p.destOffset + p.len
  }

  /** p grown by c's length. */
  function Join(p: CopyCmd, c: CopyCmd): CopyCmd
  {
    p.(len := p.len + c.len)
  }

  /**
   * The merge loop of DoneAdding as a reference definition: each command in
   * turn is joined onto the last merged one when Mergeable, and appended
   * otherwise.
   */
  function Merged(cs: seq<CopyCmd>): (m: seq<CopyCmd>)
    ensures |m| <= |cs|
    ensures m == [] <==> cs == []
    decreases |cs|
  {
    if cs == [] then []
    else
      var m := Merged(cs[..|cs| - 1]);
      var c := cs[|cs| - 1];
      if m != [] && Mergeable(m[|m| - 1], c) then m[..|m| - 1] + [Join(m[|m| - 1], c)]
      else m + [c]
  }

  /** vector::resize(n): cut to n, or padded with value-initialised commands. */
  function Resize(cs: seq<CopyCmd>, n: nat): (r: seq<CopyCmd>)
    ensures |r| == n
    ensures forall k :: 0 <= k < n ==> r[k] == if k < |cs| then cs[k] else Blank
  {
    if n <= |cs| then cs[..n] else cs + seq(n - |cs|, _ => Blank)
  }

  /** The commands sorted by source offset. */
  predicate SortedBySrc(cs: seq<CopyCmd>)
  {
    forall p, q :: 0 <= p < q < |cs| ==> cs[p].srcOffset <= cs[q].srcOffset
  }

  /** No two neighbours could still be merged. */
  predicate Compact(m: seq<CopyCmd>)
  {
    forall k :: 0 <= k < |m| - 1 ==> !Mergeable(m[k], m[k + 1])
  }

  // ---------------------------------------------------------------------------
  // What a plan does, byte by byte

  /** One byte copied from src to dest, or a command that is not a raw copy. */
  datatype Step = ByteCopy(src: nat, dest: nat) | Whole(cmd: CopyCmd)

  function StepsOf(c: CopyCmd): (st: seq<Step>)
    ensures Raw(c) ==> |st| == c.len
  {
    if Raw(c) then seq(c.len, k requires 0 <= k < c.len => ByteCopy(c.srcOffset + k, c.destOffset + k))
    else [Whole(c)]
  }

  /** The plan's effect: its raw copies byte by byte and its other commands whole, in order. */
  function Steps(cs: seq<CopyCmd>): seq<Step>
    decreases |cs|
  {
    if cs == [] then [] else Steps(cs[..|cs| - 1]) + StepsOf(cs[|cs| - 1])
  }

  lemma StepsSnoc(cs: seq<CopyCmd>, c: CopyCmd)
    ensures Steps(cs + [c]) == Steps(cs) + StepsOf(c)
  {
    assert (cs + [c])[..|cs|] == cs;
  }

  /** Joining two contiguous raw copies copies the same bytes in the same order. */
  lemma JoinSteps(p: CopyCmd, c: CopyCmd)
    requires Mergeable(p, c)
    ensures StepsOf(Join(p, c)) == StepsOf(p) + StepsOf(c)
  {
    var j := StepsOf(Join(p, c));
    var e := StepsOf(p) + StepsOf(c);
    assert |j| == |e|;
    forall k | 0 <= k < |j| ensures j[k] == e[k] {
      if k >= p.len {
        assert e[k] == StepsOf(c)[k - p.len];
      }
    }
  }

  /** Merging keeps the coverage and the order: the same bytes copied in the same order, the same other commands. */
  lemma {:induction false} MergedSteps(cs: seq<CopyCmd>)
    ensures Steps(Merged(cs)) == Steps(cs)
    decreases |cs|
  {
    if cs != [] {
      var init := cs[..|cs| - 1];
      MergedSteps(init);
      MergeStep(Merged(init), cs[|cs| - 1]);
      assert Steps(cs) == Steps(init) + StepsOf(cs[|cs| - 1]);
    }
  }

  /** One turn of the merge loop: what it leaves copies what it had plus c. */
  lemma MergeStep(m: seq<CopyCmd>, c: CopyCmd)
    ensures var r := if m != [] && Mergeable(m[|m| - 1], c) then m[..|m| - 1] + [Join(m[|m| - 1], c)] else m + [c];
      Steps(r) == Steps(m) + StepsOf(c)
  {
    if m != [] && Mergeable(m[|m| - 1], c) {
      var p, front := m[|m| - 1], m[..|m| - 1];
      assert m == front + [p];
      JoinLast(front, p, c);
    } else {
      StepsSnoc(m, c);
    }
  }

  /** The joining branch of MergeStep. */
  lemma JoinLast(front: seq<CopyCmd>, p: CopyCmd, c: CopyCmd)
    requires Mergeable(p, c)
    ensures Steps(front + [Join(p, c)]) == Steps(front + [p]) + StepsOf(c)
  {
    var s, sp, sc := Steps(front), StepsOf(p), StepsOf(c);
    assert Steps(front + [Join(p, c)]) == s + (sp + sc) by {
      StepsSnoc(front, Join(p, c));
      JoinSteps(p, c);
    }
    assert Steps(front + [p]) == s + sp by {
      StepsSnoc(front, p);
    }
    assert s + (sp + sc) == (s + sp) + sc;
  }

  /** After merging, no two adjacent raw copies are contiguous in both records. */
  lemma {:induction false} MergedCompact(cs: seq<CopyCmd>)
    ensures Compact(Merged(cs))
    decreases |cs|
  {
    if cs != [] {
      var init, c := cs[..|cs| - 1], cs[|cs| - 1];
      MergedCompact(init);
      var m := Merged(init);
      if m != [] && Mergeable(m[|m| - 1], c) {
        var r := m[..|m| - 1] + [Join(m[|m| - 1], c)];
        assert r == Merged(cs);
        forall k | 0 <= k < |r| - 1 ensures !Mergeable(r[k], r[k + 1]) {
          if k == |r| - 2 {
            assert !Mergeable(m[k], m[k + 1]);
          } else {
            assert r[k] == m[k] && r[k + 1] == m[k + 1];
          }
        }
      } else {
        var r := m + [c];
        assert r == Merged(cs);
        forall k | 0 <= k < |r| - 1 ensures !Mergeable(r[k], r[k + 1]) {
          if k < |m| - 1 {
            assert r[k] == m[k] && r[k + 1] == m[k + 1];
          }
        }
      }
    }
  }

  /** The last command of cs either joins the last merged one, keeping its source offset, or comes after it. */
  lemma MergedOffsets(cs: seq<CopyCmd>)
    requires cs != []
    ensures var m, r := Merged(cs[..|cs| - 1]), Merged(cs);
      (|r| == |m| || (|r| == |m| + 1 && r[|m|] == cs[|cs| - 1]))
      && forall k | 0 <= k < |m| :: r[k].srcOffset == m[k].srcOffset
  {
    var init, c := cs[..|cs| - 1], cs[|cs| - 1];
    var m := Merged(init);
    if m != [] && Mergeable(m[|m| - 1], c) {
      var r := m[..|m| - 1] + [Join(m[|m| - 1], c)];
      assert Merged(cs) == r;
      forall k | 0 <= k < |m| ensures r[k].srcOffset == m[k].srcOffset {
        if k < |m| - 1 {
          assert r[k] == m[k];
        }
      }
    } else {
      var r := m + [c];
      assert Merged(cs) == r;
      forall k | 0 <= k < |m| ensures r[k].srcOffset == m[k].srcOffset {
        assert r[k] == m[k];
      }
    }
  }

  /** Merging a sorted plan leaves it sorted: a joined command keeps its first part's source offset. */
  lemma {:induction false} MergedSorted(cs: seq<CopyCmd>)
    requires SortedBySrc(cs)
    ensures SortedBySrc(Merged(cs))
    ensures forall k :: 0 <= k < |Merged(cs)| ==> exists j :: 0 <= j < |cs| && Merged(cs)[k].srcOffset == cs[j].srcOffset
    decreases |cs|
  {
    if cs != [] {
      var init, c := cs[..|cs| - 1], cs[|cs| - 1];
      assert SortedBySrc(init);
      MergedSorted(init);
      var m := Merged(init);
      var r := Merged(cs);
      MergedOffsets(cs);
      forall k | 0 <= k < |r| ensures exists j :: 0 <= j < |cs| && r[k].srcOffset == cs[j].srcOffset {
        if k < |m| {
          var j :| 0 <= j < |init| && m[k].srcOffset == init[j].srcOffset;
          assert r[k].srcOffset == m[k].srcOffset && init[j] == cs[j];
        } else {
          assert r[k] == c && c == cs[|cs| - 1];
        }
      }
      forall p, q | 0 <= p < q < |r| ensures r[p].srcOffset <= r[q].srcOffset {
        if q < |m| {
          assert r[p].srcOffset == m[p].srcOffset && r[q].srcOffset == m[q].srcOffset;
        } else {
          var j :| 0 <= j < |init| && m[p].srcOffset == init[j].srcOffset;
          assert r[p].srcOffset == m[p].srcOffset && init[j] == cs[j];
        }
      }
    }
  }

  /** The bytes a plan's raw copies write, one at a time; other commands are left out. */
  function Replay(steps: seq<Step>, src: seq<byte>, rec: seq<byte>): (r: seq<byte>)
    ensures |r| == |rec|
    decreases |steps|
  {
    if steps == [] then rec
    else
      var r := Replay(steps[..|steps| - 1], src, rec);
      var st := steps[|steps| - 1];
      if st.ByteCopy? && st.src < |src| && st.dest < |r| then r[st.dest := src[st.src]] else r
  }

  lemma {:induction false} ReplayJoin(a: seq<Step>, b: seq<Step>, src: seq<byte>, rec: seq<byte>)
    ensures Replay(a + b, src, rec) == Replay(b, src, Replay(a, src, rec))
    decreases |b|
  {
    if b == [] {
      assert a + b == a;
    } else {
      var bi := b[..|b| - 1];
      assert (a + b)[..|a + b| - 1] == a + bi;
      ReplayJoin(a, bi, src, rec);
    }
  }

  /** One block copy of c.len bytes is the byte-by-byte copy of its steps. */
  lemma {:induction false} BlockReplay(c: CopyCmd, n: nat, src: seq<byte>, rec: seq<byte>)
    requires Raw(c) && n <= c.len
    requires c.srcOffset + c.len <= |src| && c.destOffset + c.len <= |rec|
    ensures Replay(StepsOf(c)[..n], src, rec) ==
      rec[..c.destOffset] + src[c.srcOffset..c.srcOffset + n] + rec[c.destOffset + n..]
    decreases n
  {
    if n > 0 {
      BlockReplay(c, n - 1, src, rec);
      assert StepsOf(c)[..n][..n - 1] == StepsOf(c)[..n - 1];
    }
  }

  /** The copies of a plan whose commands are all raw, within both records. */
  predicate RawWithin(cs: seq<CopyCmd>, srcLen: nat, recLen: nat)
  {
    forall k :: 0 <= k < |cs| ==> Raw(cs[k]) && cs[k].srcOffset + cs[k].len <= srcLen && cs[k].destOffset + cs[k].len <= recLen
  }

  /** A merged plan writes exactly the bytes the plan it came from writes. */
  lemma MergedReplay(cs: seq<CopyCmd>, src: seq<byte>, rec: seq<byte>)
    ensures Replay(Steps(Merged(cs)), src, rec) == Replay(Steps(cs), src, rec)
  {
    MergedSteps(cs);
  }

  // ---------------------------------------------------------------------------
  // ConvertDecimalSep

  function SwapSep(c: char): (r: char)
    ensures (r == '\0') == (c == '\0')
  {
    if c == '.' then ',' else if c == ',' then '.' else c
  }

  /** ConvertDecimalSep: every '.' and ',' before the first NUL exchanged; the length is kept. */
  function SwapSeps(s: string): (r: string)
    ensures |r| == |s|
  {
    seq(|s|, i requires 0 <= i < |s| => if i < SrcLib.CLen(s) then SwapSep(s[i]) else s[i])
  }

  lemma SwapSepsCLen(s: string)
    ensures SrcLib.CLen(SwapSeps(s)) == SrcLib.CLen(s)
  {
    var r, n := SwapSeps(s), SrcLib.CLen(s);
    assert forall k :: 0 <= k < n ==> r[k] != '\0';
    assert n < |s| ==> r[n] == '\0';
  }

  /** Swapping the separators twice gives the text back. */
  lemma SwapSepsTwice(s: string)
    ensures SwapSeps(SwapSeps(s)) == s
  {
    SwapSepsCLen(s);
  }

  /** What ConvertDecimalSep does to each character: '.' and ',' exchanged up to the first NUL, the rest kept. */
  lemma SwapSepsChars(s: string)
    ensures forall i :: 0 <= i < SrcLib.CLen(s) ==>
      (s[i] == '.' ==> SwapSeps(s)[i] == ',') && (s[i] == ',' ==> SwapSeps(s)[i] == '.')
      && (s[i] != '.' && s[i] != ',' ==> SwapSeps(s)[i] == s[i])
    ensures forall i :: SrcLib.CLen(s) <= i < |s| ==> SwapSeps(s)[i] == s[i]
  {
  }

  // ---------------------------------------------------------------------------
  // DoneAdding's result, as written and as intended

  /**
   * What DoneAdding leaves for a sorted plan: the merged commands, cut by
   * resize(prevIndex + 1). With no commands prevIndex is still 0, so resize
   * appends one value-initialised command.
   */
  function Finished(cs: seq<CopyCmd>): (r: seq<CopyCmd>)
    ensures cs == [] ==> r == [Blank]
    ensures cs != [] ==> r == Merged(cs)
  {
    Resize(Merged(cs), if cs == [] then 1 else |Merged(cs)|)
  }

  /** With nothing added, DoneAdding leaves one command, so IsValid holds; the command copies no bytes. */
  lemma NothingAddedAsWritten(src: seq<byte>, rec: seq<byte>)
    ensures Finished([]) == [Blank] && |Finished([])| > 0
    ensures Replay(Steps(Finished([])), src, rec) == rec
  {
    assert Steps([Blank]) == Steps([]) + StepsOf(Blank);
  }

  /** The merged plan alone, with no command for no field: never longer than the plan, and empty exactly when it is. */
  lemma MergedCount(cs: seq<CopyCmd>)
    ensures |Merged(cs)| <= |cs| && (Merged(cs) == [] <==> cs == [])
    ensures cs != [] ==> Finished(cs) == Merged(cs)
  {
  }

  // ---------------------------------------------------------------------------
  // Soundness of a plan

  /** A raw copy within a source of srcLen bytes and a fixed part of destLen bytes. */
  predicate RawIn(c: CopyCmd, srcLen: nat, destLen: nat)
  {
    Raw(c) ==> c.srcOffset + c.len <= srcLen && c.destOffset + c.len <= destLen
  }

  /** Merging keeps raw copies within the records, and every other command is one of the plan's. */
  lemma {:induction false} MergedWithin(cs: seq<CopyCmd>, srcLen: nat, destLen: nat)
    requires forall c | c in cs :: RawIn(c, srcLen, destLen)
    ensures forall c | c in Merged(cs) :: RawIn(c, srcLen, destLen) && (!Raw(c) ==> c in cs)
    decreases |cs|
  {
    if cs != [] {
      var init, c := cs[..|cs| - 1], cs[|cs| - 1];
      assert forall x | x in init :: x in cs;
      MergedWithin(init, srcLen, destLen);
      var m := Merged(init);
      assert c in cs;
      if m != [] && Mergeable(m[|m| - 1], c) {
        var p := m[|m| - 1];
        var r := m[..|m| - 1] + [Join(p, c)];
        assert r == Merged(cs);
        assert p in m;
        forall x | x in r ensures RawIn(x, srcLen, destLen) && (!Raw(x) ==> x in cs) {
          if x != Join(p, c) {
            assert x in m[..|m| - 1];
          }
        }
      } else {
        assert Merged(cs) == m + [c];
      }
    }
  }

  // ---------------------------------------------------------------------------
  // Copy's conversions

  /** The var-data value truncated to the destination's maximum: min(max bytes, length) bytes; a null stays null. */
  function CutToMax(v: Option<seq<byte>>, maxBytes: nat): (r: Option<seq<byte>>)
    ensures r.None? <==> v.None?
    ensures v.Some? ==> (|r.value| == (if maxBytes < |v.value| then maxBytes else |v.value|)
                         && r.value == v.value[..|r.value|])
  {
    if v.None? then None
    else if maxBytes < |v.value| then Some(v.value[..maxBytes]) else v
  }

  /** A getter's value, its null flag kept, as the argument of a setter. */
  function Lift<T>(g: Got<T>, f: T -> FieldDispatch.Input): Got<FieldDispatch.Input>
  {
    Got(Val(g.val.isNull, f(g.val.value)), g.msgs)
  }

  function AsNarrow(s: string): FieldDispatch.Input { FieldDispatch.FromText(Narrow(s)) }

  /** GetAsAString, as the argument of SetFromString. */
  function NarrowOf(s: FieldDispatch.Impl, c: Content): Got<FieldDispatch.Input>
    requires FieldDispatch.WellFormed(s) && FieldDispatch.Holds(s, c)
  {
    Lift(FieldDispatch.GetAsAString(s, c), AsNarrow)
  }

  /** GetAsWString, as the argument of SetFromString. */
  function WideOf(s: FieldDispatch.Impl, c: Content): Got<FieldDispatch.Input>
    requires FieldDispatch.WellFormed(s) && FieldDispatch.Holds(s, c)
  {
    var w := FieldDispatch.GetAsWString(s, c);
    Got(Val(w.isNull, FieldDispatch.FromText(Wide(w.value))), [])
  }

  /**
   * With commas as decimal separators: the text of the source with '.' and
   * ',' exchanged, unless it is null, when the default conversion follows
   * (after the errors GetAsAString reported).
   */
  function Swapped(s: FieldDispatch.Impl, c: Content, otherwise: Got<FieldDispatch.Input>): Got<FieldDispatch.Input>
    requires FieldDispatch.WellFormed(s) && FieldDispatch.Holds(s, c)
  {
    var g := FieldDispatch.GetAsAString(s, c);
    if !g.val.isNull then Got(Val(false, AsNarrow(SwapSeps(g.val.value))), g.msgs)
    else Got(otherwise.val, g.msgs + otherwise.msgs)
  }

  /** Whether the conversion from s to d goes through ConvertDecimalSep. */
  predicate Converts(d: FieldDispatch.Impl, s: FieldDispatch.Impl, c: Content, comma: bool)
    requires FieldDispatch.WellFormed(s) && FieldDispatch.Holds(s, c)
  {
    comma && !FieldDispatch.GetAsAString(s, c).val.isNull
    && ((d.DecimalField? && s.StringField?) || (d.StringField? && s.DecimalField?))
  }

  /** Int32 getters' values fit the Int32 setter, Int64 ones the Int64 one. */
  function Int32Of(s: FieldDispatch.Impl, c: Content): (r: Result<Got<FieldDispatch.Input>>)
    requires FieldDispatch.WellFormed(s) && FieldDispatch.Holds(s, c)
    ensures r.Ok? ==> FieldDispatch.InputOk(r.value.val.value)
  {
    var g := FieldDispatch.GetAsInt32(s, c);
    if g.Err? then Err(g.msg) else Ok(Lift(g.value, n => FieldDispatch.FromInt32(n)))
  }

  function Int64Of(s: FieldDispatch.Impl, c: Content): (r: Result<Got<FieldDispatch.Input>>)
    requires FieldDispatch.WellFormed(s) && FieldDispatch.Holds(s, c)
    ensures r.Ok? ==> FieldDispatch.InputOk(r.value.val.value)
  {
    var g := FieldDispatch.GetAsInt64(s, c);
    if g.Err? then Err(g.msg) else Ok(Lift(g.value, n => FieldDispatch.FromInt64(n)))
  }

  /**
   * The value a field-change command hands the destination's setter, read
   * from the source through the getter the destination type calls for, and
   * the errors the getters report. A getter that throws ends the copy.
   */
  function Fetched(d: FieldDispatch.Impl, s: FieldDispatch.Impl, c: Content, comma: bool): (r: Result<Got<FieldDispatch.Input>>)
    requires FieldDispatch.WellFormed(s) && FieldDispatch.Holds(s, c)
    ensures r.Ok? ==> FieldDispatch.InputOk(r.value.val.value)
  {
    match d
    case BoolField =>
      var g := FieldDispatch.GetAsBool(s, c);
      if g.Err? then Err(g.msg) else Ok(Lift(g.value, b => FieldDispatch.FromBool(b)))
    case NumField(k) => if k == FieldNum.KInt64 then Int64Of(s, c) else Int32Of(s, c)
    case DecimalField(_, _) =>
      (match s
       case NumField(k) => if k == FieldNum.KInt64 then Int64Of(s, c) else Int32Of(s, c)
       case StringField(_, _) => Ok(if comma then Swapped(s, c, NarrowOf(s, c)) else NarrowOf(s, c))
       case _ => Ok(NarrowOf(s, c)))
    case StringField(k, _) =>
      var otherwise := if k.wide then WideOf(s, c) else NarrowOf(s, c);
      Ok(if comma && s.DecimalField? then Swapped(s, c, otherwise) else otherwise)
    case DateField(_) => Ok(NarrowOf(s, c))
    case BlobField(spatial) =>
      if !spatial then
        var b := FieldDispatch.GetAsBlob(s, c);
        if b.Err? then Err(b.msg) else Ok(Got(Val(b.value.isNull, FieldDispatch.FromBlob(b.value.value)), []))
      else
        var b := FieldDispatch.GetAsSpatialBlob(s, c);
        if b.Err? then Err(b.msg) else Ok(Lift(b.value, x => FieldDispatch.FromSpatialBlob(x)))
  }

  /** A conversion throws exactly when a blob meets a bool or an integer, or when the source has no spatial object. */
  lemma FetchedFails(d: FieldDispatch.Impl, s: FieldDispatch.Impl, c: Content, comma: bool)
    requires FieldDispatch.WellFormed(s) && FieldDispatch.Holds(s, c)
    ensures Fetched(d, s, c, comma).Err? <==>
      ((d.BoolField? || d.NumField?) && s.BlobField?)
      || (d == FieldDispatch.BlobField(false) && (s.BoolField? || s.NumField?))
      || (d == FieldDispatch.BlobField(true) && FieldDispatch.GetAsSpatialBlob(s, c).Err?)
  {
  }

  /** With commas as separators, a FixedDecimal's text reaches a string field with its '.' and ',' exchanged. */
  lemma DecimalToStringSwaps(d: FieldDispatch.Impl, s: FieldDispatch.Impl, c: Content)
    requires FieldDispatch.WellFormed(s) && FieldDispatch.Holds(s, c)
    requires d.StringField? && s.DecimalField?
    ensures var g := FieldDispatch.GetAsAString(s, c);
      Fetched(d, s, c, true).Ok? &&
      (!g.val.isNull ==> Fetched(d, s, c, true).value.val == Val(false, AsNarrow(SwapSeps(g.val.value))))
      && Converts(d, s, c, true) == !g.val.isNull
    ensures !d.str.wide ==> Fetched(d, s, c, false) == Ok(NarrowOf(s, c))
  {
  }

  /** What the setter of a field in place is given as its old contents: a fixed field's bytes; a var field ignores them. */
  function OldContent(i: FieldDispatch.Impl, f: Field, rec: seq<byte>): (c: Content)
    requires FieldDispatch.WellFormed(i) && f.rawSize == FieldDispatch.RawSizeOf(i) && f.isVarLength == FieldDispatch.IsVar(i)
    requires f.offset + f.rawSize <= |rec|
    ensures FieldDispatch.Holds(i, c)
  {
    if f.isVarLength then Slot(None) else Bytes(rec[f.offset..f.offset + f.rawSize])
  }

  /** A var field's setters do not look at what the field held, so OldContent gives what the record would. */
  lemma OldContentAgrees(i: FieldDispatch.Impl, f: Field, rec: seq<byte>, v: Val<FieldDispatch.Input>)
    requires FieldDispatch.WellFormed(i) && f.rawSize == FieldDispatch.RawSizeOf(i) && f.isVarLength == FieldDispatch.IsVar(i)
    requires InRecord(f, rec) && FieldDispatch.InputOk(v.value)
    ensures FieldDispatch.SetFromVal(i, OldContent(i, f, rec), v) == FieldDispatch.SetFromVal(i, FieldDispatch.ReadContent(i, f, rec), v)
  {
  }

  // ---------------------------------------------------------------------------
  // RecordCopier

  /** The destination between two commands of Copy: its buffer, and how many of its bytes hold the record. */
  datatype Snap = Snap(rec: seq<byte>, used: nat)

  /** The AString a RecordCopier keeps for ConvertDecimalSep; it changes even in Copy, which is const. */
  class TempText {
    var text: string

    constructor()
      ensures text == []
    {
      text := [];
    }
  }

  /**
   * A RecordCopier between two layouts, given by the field objects of the
   * destination and source RecordInfo and the sizes of their fixed parts.
   * Add defers the pairs; DoneAdding turns them into the sorted and merged
   * plan; Copy runs the plan.
   */
  class RecordCopier {
    const destObjs: seq<FieldDispatch.FieldObj>
    const srcObjs: seq<FieldDispatch.FieldObj>
    const destFixed: nat
    const srcFixed: nat
    const suppressSizeOnlyConvErrors: bool
    const decimalSep: char
    const temp: TempText
    var deferred: seq<(int, int)>
    var cmds: seq<CopyCmd>
    /** The commands as sorted, before the merge. */
    ghost var planned: seq<CopyCmd>

    /** The fields lie in their fixed parts, and every command is one Copy can run. */
    ghost predicate Valid()
      reads this
    {
      Laid() && forall c | c in cmds :: Sound(c)
    }

    ghost predicate Laid()
    {
      (forall o | o in destObjs :: o.Valid() && o.field.offset + o.field.rawSize <= destFixed)
      && (forall o | o in srcObjs :: o.Valid() && o.field.offset + o.field.rawSize <= srcFixed)
    }

    /** A raw copy lies within both fixed parts; the other commands name fields that exist, and a var copy var fields. */
    ghost predicate Sound(c: CopyCmd)
    {
      RawIn(c, srcFixed, destFixed)
      && (!Raw(c) ==> c.srcFieldNum < |srcObjs| && c.destFieldNum < |destObjs|)
      && (c.isVarData && !c.isFieldChange ==>
            srcObjs[c.srcFieldNum].field.isVarLength && destObjs[c.destFieldNum].field.isVarLength)
    }

    /** What Copy changes besides the record and the plan: the destination fields' scratch text, both sides' error sinks, temp. */
    ghost function Footprint(): set<object>
    {
      (set o | o in destObjs :: o as object) + (set o | o in destObjs :: o.reporter as object)
      + (set o | o in srcObjs :: o.reporter as object) + {temp}
    }

    /** The copier itself is none of the objects Copy changes besides it. */
    lemma OutsideFootprint()
      ensures this !in Footprint()
    {
    }

    /** The pair can be added: both field numbers exist. */
    predicate InRange(p: (int, int))
    {
      0 <= p.0 < |destObjs| && 0 <= p.1 < |srcObjs|
    }

    constructor(dest: seq<FieldDispatch.FieldObj>, src: seq<FieldDispatch.FieldObj>, destFixedSize: nat, srcFixedSize: nat,
                suppress: bool, sep: char)
      requires forall o | o in dest :: o.Valid() && o.field.offset + o.field.rawSize <= destFixedSize
      requires forall o | o in src :: o.Valid() && o.field.offset + o.field.rawSize <= srcFixedSize
      ensures Valid() && deferred == [] && cmds == [] && fresh(temp) && temp.text == []
      ensures destObjs == dest && srcObjs == src && destFixed == destFixedSize && srcFixed == srcFixedSize
      ensures suppressSizeOnlyConvErrors == suppress && decimalSep == sep
    {
      destObjs, srcObjs, destFixed, srcFixed := dest, src, destFixedSize, srcFixedSize;
      suppressSizeOnlyConvErrors, decimalSep := suppress, sep;
      temp := new TempText();
      deferred, cmds, planned := [], [], [];
    }

    /** Add: the pair is kept for DoneAdding. */
    method Add(destFieldNum: int, srcFieldNum: int)
      modifies this
      ensures deferred == old(deferred) + [(destFieldNum, srcFieldNum)]
      ensures cmds == old(cmds) && planned == old(planned)
    {
      deferred := deferred + [(destFieldNum, srcFieldNum)];
    }

    /** IsValid: something was added, or there are commands. */
    function IsValid(): (b: bool)
      reads this
      ensures b <==> |deferred| + |cmds| > 0
    {
      deferred != [] || cmds != []
    }

    function CommandFor(p: (int, int), u: CopyCmd): CopyCmd
      requires InRange(p)
    {
      Command(p.0, p.1, destObjs[p.0].field, srcObjs[p.1].field, u)
    }

    /** The commands DoAdd makes of the pairs, in order, the k-th left unset as us[k]. */
    function CommandsFor(ps: seq<(int, int)>, us: seq<CopyCmd>): (r: seq<CopyCmd>)
      requires |us| == |ps| && forall j :: 0 <= j < |ps| ==> InRange(ps[j])
      ensures |r| == |ps| && forall k :: 0 <= k < |ps| ==> r[k] == CommandFor(ps[k], us[k])
    {
      seq(|ps|, k requires 0 <= k < |ps| => CommandFor(ps[k], us[k]))
    }

    /** One pair more, one command more. */
    lemma CommandsForNext(ps: seq<(int, int)>, us: seq<CopyCmd>, k: nat)
      requires |us| == |ps| && k < |ps| && forall j :: 0 <= j < |ps| ==> InRange(ps[j])
      ensures CommandsFor(ps[..k + 1], us[..k + 1]) == CommandsFor(ps[..k], us[..k]) + [CommandFor(ps[k], us[k])]
    {
    }

    /** A command DoAdd makes can be run: fields alike in type are alike in being var fields. */
    lemma CommandSound(p: (int, int), u: CopyCmd)
      requires Laid() && InRange(p)
      ensures Sound(CommandFor(p, u))
    {
      var d, s := destObjs[p.0], srcObjs[p.1];
      assert d in destObjs && s in srcObjs;
      if !IsFieldChange(s.field, d.field) {
        VarByType(d.impl, s.impl);
      }
    }

    /** DoAdd: the command for the pair is pushed; u is what its local held before. */
    method DoAdd(destFieldNum: int, srcFieldNum: int, u: CopyCmd)
      requires Valid() && InRange((destFieldNum, srcFieldNum))
      modifies this
      ensures Valid()
      ensures cmds == old(cmds) + [CommandFor((destFieldNum, srcFieldNum), u)]
      ensures deferred == old(deferred) && planned == old(planned)
    {
      CommandSound((destFieldNum, srcFieldNum), u);
      var d, s := destObjs[destFieldNum].field, srcObjs[srcFieldNum].field;
      cmds := cmds + [Command(destFieldNum, srcFieldNum, d, s, u)];
    }

    /** The loop of DoneAdding over the deferred pairs, and the clear; us[k] is what the k-th DoAdd's local held. */
    method AddDeferred(us: seq<CopyCmd>)
      requires Valid() && |us| == |deferred| && forall p | p in deferred :: InRange(p)
      modifies this
      ensures Valid() && deferred == []
      ensures cmds == old(cmds) + CommandsFor(old(deferred), us)
    {
      ghost var base := cmds;
      var k := 0;
      while k < |deferred|
        invariant k <= |deferred| && deferred == old(deferred) && Valid()
        invariant cmds == base + CommandsFor(deferred[..k], us[..k])
        decreases |deferred| - k
      {
        AddNext(base, us, k);
        k := k + 1;
      }
      assert deferred[..k] == deferred && us[..k] == us;
      deferred := [];
    }

    /** One turn of AddDeferred's loop: the k-th deferred pair is added. */
    method AddNext(ghost base: seq<CopyCmd>, us: seq<CopyCmd>, k: nat)
      requires Valid() && |us| == |deferred| && k < |deferred| && forall p | p in deferred :: InRange(p)
      requires cmds == base + CommandsFor(deferred[..k], us[..k])
      modifies this
      ensures Valid() && deferred == old(deferred)
      ensures cmds == base + CommandsFor(deferred[..k + 1], us[..k + 1])
    {
      var p := deferred[k];
      assert p in deferred;
      DoAdd(p.0, p.1, us[k]);
      assert forall j :: 0 <= j < |deferred| ==> InRange(deferred[j]) by {
        forall j | 0 <= j < |deferred| ensures InRange(deferred[j]) {
          assert deferred[j] in deferred;
        }
      }
      CommandsForNext(deferred, us, k);
    }

    /** A permutation of runnable commands, once merged and resized, is runnable. */
    lemma FinishedSound(cs: seq<CopyCmd>, before: seq<CopyCmd>)
      requires forall c | c in before :: Sound(c)
      requires multiset(cs) == multiset(before)
      ensures forall c | c in Finished(cs) :: Sound(c)
    {
      forall c | c in cs ensures RawIn(c, srcFixed, destFixed) {
        assert c in multiset(before);
        assert c in before;
      }
      MergedWithin(cs, srcFixed, destFixed);
      forall c | c in Finished(cs) ensures Sound(c) {
        if cs != [] {
          assert c in Merged(cs);
          if !Raw(c) {
            assert c in multiset(before);
            assert c in before;
          }
        }
      }
    }

    /**
     * DoneAdding: the deferred pairs become commands after those already
     * there, and the commands are sorted by source offset and merged,
     * whatever the unset fields us of the new commands hold.
     */
    method DoneAdding(us: seq<CopyCmd>)
      requires Valid() && |us| == |deferred| && forall p | p in deferred :: InRange(p)
      modifies this
      ensures Valid() && deferred == []
      ensures SortedBySrc(planned) && multiset(planned) == multiset(old(cmds) + CommandsFor(old(deferred), us))
      ensures cmds == Finished(planned)
    {
      AddDeferred(us);
      ghost var sorted;
      var merged;
      sorted, merged := SortAndMerge(cmds);
      FinishedSound(sorted, cmds);
      planned, cmds := sorted, merged;
    }

    /** The destination record has the destination's layout, and the source holds every source field. */
    ghost predicate Ready(dest: Records.Record, src: seq<byte>)
      reads dest
    {
      dest.Valid() && dest.fixedSize == destFixed
      && (forall o | o in destObjs :: o.field.isVarLength ==> dest.containsVarData)
      && SrcFields(src)
    }

    /** The source holds every source field. */
    ghost predicate SrcFields(src: seq<byte>)
    {
      srcFixed <= |src| && forall o | o in srcObjs :: InRecord(o.field, src)
    }

    /** A conversion whose destination's sink is detached for its duration: sizes only differ. */
    predicate Suppressing(c: CopyCmd)
    {
      c.isFieldChange && suppressSizeOnlyConvErrors && c.destFieldNum < |destObjs| && c.srcFieldNum < |srcObjs|
      && destObjs[c.destFieldNum].field.schema.ft == srcObjs[c.srcFieldNum].field.schema.ft
    }

    /**
     * What one command does to the destination record rec0, of which the
     * first used0 bytes hold the record, by its kind: a raw copy writes the
     * source's block; a var-data copy leaves the source's value cut to the
     * maximum and the rest of the record as it was, or fails as too long; a
     * conversion does what Converted says. It never holds of a copier whose
     * fields are not laid out or of a command that names no fields.
     */
    ghost predicate Ran(c: CopyCmd, src: seq<byte>, rec0: seq<byte>, used0: nat, rec: seq<byte>, res: Result<bool>)
    {
      if !(Laid() && Sound(c) && SrcFields(src) && destFixed <= |rec0|) then false
      else if c.isFieldChange then Converted(c, src, rec0, used0, rec, res)
      else if c.isVarData then
        var sf, df := srcObjs[c.srcFieldNum].field, destObjs[c.destFieldNum].field;
        assert srcObjs[c.srcFieldNum] in srcObjs;
        (res.Ok? ==> VarData.Readable(rec, df.offset)
                     && VarData.GetVarDataValue(rec, df.offset) == CutToMax(VarData.GetVarDataValue(src, sf.offset), c.varDataMaxBytes)
                     && KeptOutside(df, destFixed, used0, rec0, rec))
        && (res.Err? ==> res == Err(FieldDispatch.RecordTooBig) && rec == rec0)
      else
        res.Ok? && rec == Splice(rec0, c.destOffset, src[c.srcOffset..c.srcOffset + c.len])
    }

    /**
     * The records between the commands cs, from trace[0] on, each command
     * succeeding: the fold of Ran over the plan.
     */
    ghost predicate Traced(cs: seq<CopyCmd>, src: seq<byte>, trace: seq<Snap>)
      decreases |cs|
    {
      |trace| == |cs| + 1
      && (cs != [] ==>
            var m := |cs| - 1;
            Traced(cs[..m], src, trace[..m + 1]) && Ran(cs[m], src, trace[m].rec, trace[m].used, trace[m + 1].rec, Ok(true)))
    }

    /**
     * Copy: runs the plan (after DoneAdding, when pairs are still deferred;
     * us stands for what DoAdd's uninitialised commands hold). Each command
     * does what Ran says to the record the ones before it left, trace
     * holding those records; the first that fails ends the copy with its
     * error. A plan of raw copies writes the bytes its steps write, one at
     * a time; in suppress mode the destinations of conversions between
     * fields that differ only in size are left without a sink.
     */
    method Copy(dest: Records.Record, src: seq<byte>, us: seq<CopyCmd>) returns (res: Result<bool>, ghost trace: seq<Snap>)
      requires Valid() && Ready(dest, src) && |us| == |deferred| && forall p | p in deferred :: InRange(p)
      modifies this, dest, Footprint()
      ensures Valid() && deferred == [] && Ready(dest, src)
      ensures old(deferred) == [] ==> cmds == old(cmds)
      ensures old(deferred) != [] ==>
        SortedBySrc(planned) && cmds == Finished(planned) && multiset(planned) == multiset(old(cmds) + CommandsFor(old(deferred), us))
      ensures 1 <= |trace| && trace[0] == Snap(old(dest.rec), old(dest.Used())) && trace[|trace| - 1] == Snap(dest.rec, dest.Used())
      ensures res.Ok? ==> res == Ok(true) && Traced(cmds, src, trace)
      ensures res.Err? ==> 2 <= |trace| && Stopped(|trace| - 2, src, trace, res)
      ensures res.Ok? && RawOnly(cmds) ==> dest.rec == Replay(Steps(cmds), src, old(dest.rec))
      ensures res.Ok? ==> forall c | c in cmds && Suppressing(c) :: !destObjs[c.destFieldNum].reporter.attached
    {
      if deferred != [] {
        DoneAdding(us);
      }
      OutsideFootprint();
      res, trace := Execute(dest, src);
    }

    /** Copy's loop over the plan, once nothing is deferred. */
    method Execute(dest: Records.Record, src: seq<byte>) returns (res: Result<bool>, ghost trace: seq<Snap>)
      requires Valid() && Ready(dest, src)
      modifies dest, Footprint()
      ensures Ready(dest, src)
      ensures 1 <= |trace| && trace[0] == Snap(old(dest.rec), old(dest.Used())) && trace[|trace| - 1] == Snap(dest.rec, dest.Used())
      ensures res.Ok? ==> res == Ok(true) && Traced(cmds, src, trace)
      ensures res.Err? ==> 2 <= |trace| && Stopped(|trace| - 2, src, trace, res)
      ensures res.Ok? && RawOnly(cmds) ==> dest.rec == Replay(Steps(cmds), src, old(dest.rec))
      ensures res.Ok? ==> forall c | c in cmds && Suppressing(c) :: !destObjs[c.destFieldNum].reporter.attached
    {
      OutsideFootprint();
      ghost var rec0 := dest.rec;
      trace := [Snap(rec0, dest.Used())];
      var k := 0;
      while k < |cmds|
        invariant k <= |cmds| && Ready(dest, src)
        invariant |trace| == k + 1 && trace[0] == Snap(rec0, old(dest.Used())) && trace[k] == Snap(dest.rec, dest.Used())
        invariant Traced(cmds[..k], src, trace)
        invariant Replayed(cmds, k, src, rec0, dest.rec)
        invariant forall n | n in SuppressedUpTo(cmds, k) :: n < |destObjs| && !destObjs[n].reporter.attached
        decreases |cmds| - k
      {
        ghost var rec, used := dest.rec, dest.Used();
        res := Next(k, dest, src, rec0);
        TraceStep(k, src, trace, rec, used, dest.rec, dest.Used(), res);
        trace := trace + [Snap(dest.rec, dest.Used())];
        if res.Err? {
          return;
        }
        k := k + 1;
      }
      SuppressedAll(cmds);
      assert cmds[..k] == cmds;
      return Ok(true), trace;
    }

    /** Copy's loop stopped at command m: the trace up to it, and what it did. */
    ghost predicate Stopped(m: nat, src: seq<byte>, trace: seq<Snap>, res: Result<bool>)
      reads this
    {
      m < |cmds| && |trace| == m + 2 && Traced(cmds[..m], src, trace[..m + 1])
      && Ran(cmds[m], src, trace[m].rec, trace[m].used, trace[m + 1].rec, res)
    }

    /** One more command in the trace: its record, or where the loop stopped. */
    lemma TraceStep(k: nat, src: seq<byte>, trace: seq<Snap>, rec0: seq<byte>, used0: nat, rec: seq<byte>, used: nat, res: Result<bool>)
      requires k < |cmds| && Traced(cmds[..k], src, trace) && trace[k] == Snap(rec0, used0)
      requires Ran(cmds[k], src, rec0, used0, rec, res)
      ensures res == Ok(true) ==> Traced(cmds[..k + 1], src, trace + [Snap(rec, used)])
      ensures res.Err? ==> Stopped(|trace + [Snap(rec, used)]| - 2, src, trace + [Snap(rec, used)], res)
    {
      var t := trace + [Snap(rec, used)];
      assert t[..k + 1] == trace;
      assert cmds[..k + 1][..k] == cmds[..k];
    }

    /** One turn of Copy's loop: the k-th command, and the loop's facts carried over it. */
    method Next(k: nat, dest: Records.Record, src: seq<byte>, ghost rec0: seq<byte>) returns (res: Result<bool>)
      requires k < |cmds| && Valid() && Ready(dest, src)
      requires Replayed(cmds, k, src, rec0, dest.rec)
      requires forall n | n in SuppressedUpTo(cmds, k) :: n < |destObjs| && !destObjs[n].reporter.attached
      modifies dest, Footprint()
      ensures cmds == old(cmds) && Ready(dest, src)
      ensures Ran(cmds[k], src, old(dest.rec), old(dest.Used()), dest.rec, res)
      ensures res.Ok? ==> res == Ok(true)
      ensures res.Ok? ==> Replayed(cmds, k + 1, src, rec0, dest.rec)
      ensures res.Ok? ==> forall n | n in SuppressedUpTo(cmds, k + 1) :: n < |destObjs| && !destObjs[n].reporter.attached
    {
      OutsideFootprint();
      var c := cmds[k];
      assert c in cmds;
      ghost var before := dest.rec;
      res := Run(c, dest, src);
      if res.Ok? {
        RawOnlyStep(cmds, k, src, rec0, before, dest.rec);
        SuppressedStep(cmds, k);
      }
    }

    /** The destination fields of the first k commands that run in suppress mode. */
    ghost function SuppressedUpTo(cs: seq<CopyCmd>, k: nat): set<nat>
      requires k <= |cs|
    {
      set j | 0 <= j < k && Suppressing(cs[j]) :: cs[j].destFieldNum
    }

    lemma SuppressedStep(cs: seq<CopyCmd>, k: nat)
      requires k < |cs|
      ensures SuppressedUpTo(cs, k + 1) == SuppressedUpTo(cs, k) + (if Suppressing(cs[k]) then {cs[k].destFieldNum} else {})
    {
    }

    lemma SuppressedAll(cs: seq<CopyCmd>)
      ensures forall c | c in cs && Suppressing(c) :: c.destFieldNum in SuppressedUpTo(cs, |cs|)
    {
      forall c | c in cs && Suppressing(c) ensures c.destFieldNum in SuppressedUpTo(cs, |cs|) {
        var j :| 0 <= j < |cs| && cs[j] == c;
      }
    }

    /** The destination fields do not overlap, as in a layout built field after field. */
    ghost predicate Apart()
    {
      forall p, q | 0 <= p < q < |destObjs| ::
        destObjs[p].field.offset + destObjs[p].field.rawSize <= destObjs[q].field.offset
        || destObjs[q].field.offset + destObjs[q].field.rawSize <= destObjs[p].field.offset
    }

    /**
     * SetDestToNull: each destination field's SetNull in turn. Without
     * overlapping fields, all of them then read null.
     */
    method SetDestToNull(dest: Records.Record)
      requires Laid() && dest.Valid() && dest.fixedSize == destFixed
      requires forall o | o in destObjs :: o.field.isVarLength ==> dest.containsVarData
      modifies dest
      ensures dest.Valid() && dest.fixedSize == destFixed && dest.containsVarData == old(dest.containsVarData)
      ensures Apart() ==> forall n | 0 <= n < |destObjs| :: NullIn(destObjs[n], dest.rec)
    {
      for x := 0 to |destObjs|
        invariant dest.Valid() && dest.fixedSize == destFixed && dest.containsVarData == old(dest.containsVarData)
        invariant Apart() ==> forall n | 0 <= n < x :: NullIn(destObjs[n], dest.rec)
      {
        NullNext(x, dest);
      }
    }

    /** One turn of SetDestToNull's loop: field x set null, the ones before it still null. */
    method NullNext(x: nat, dest: Records.Record)
      requires Laid() && x < |destObjs| && dest.Valid() && dest.fixedSize == destFixed
      requires forall o | o in destObjs :: o.field.isVarLength ==> dest.containsVarData
      requires Apart() ==> forall n | 0 <= n < x :: NullIn(destObjs[n], dest.rec)
      modifies dest
      ensures dest.Valid() && dest.fixedSize == destFixed && dest.containsVarData == old(dest.containsVarData)
      ensures Apart() ==> forall n | 0 <= n < x + 1 :: NullIn(destObjs[n], dest.rec)
    {
      var d := destObjs[x];
      assert d in destObjs;
      ghost var before := dest.rec;
      NullField(d, dest);
      if Apart() {
        NullsKept(destObjs, x, before, dest.rec, destFixed);
      }
    }

    /** One command of Copy: what Ran says of its kind. */
    method Run(c: CopyCmd, dest: Records.Record, src: seq<byte>) returns (res: Result<bool>)
      requires Laid() && Ready(dest, src) && Sound(c)
      modifies dest, Footprint()
      ensures Ready(dest, src)
      ensures Ran(c, src, old(dest.rec), old(dest.Used()), dest.rec, res)
      ensures res.Ok? ==> res == Ok(true)
      ensures Raw(c) ==> res.Ok? && c.srcOffset + c.len <= |src| && c.destOffset + c.len <= |old(dest.rec)|
                         && dest.rec == Splice(old(dest.rec), c.destOffset, src[c.srcOffset..c.srcOffset + c.len])
      ensures Suppressing(c) ==> !destObjs[c.destFieldNum].reporter.attached
      ensures forall n | 0 <= n < |destObjs| :: !old(destObjs[n].reporter.attached) ==> !destObjs[n].reporter.attached
    {
      if c.isFieldChange {
        assert destObjs[c.destFieldNum] in destObjs && srcObjs[c.srcFieldNum] in srcObjs;
        res := ChangeField(c, dest, src);
      } else if c.isVarData {
        var ok := CopyVarData(c, dest, src);
        res := if ok then Ok(true) else Err(FieldDispatch.RecordTooBig);
      } else {
        CopyRaw(c, dest, src);
        res := Ok(true);
      }
    }

    /** A raw copy: memcpy of the block from the source to the destination. */
    method CopyRaw(c: CopyCmd, dest: Records.Record, src: seq<byte>)
      requires Laid() && Ready(dest, src) && Sound(c) && Raw(c)
      modifies dest
      ensures Ready(dest, src) && dest.curVarDataSize == old(dest.curVarDataSize)
      ensures c.srcOffset + c.len <= |src| && c.destOffset + c.len <= |old(dest.rec)|
      ensures dest.rec == Splice(old(dest.rec), c.destOffset, src[c.srcOffset..c.srcOffset + c.len])
    {
      dest.rec := Splice(dest.rec, c.destOffset, src[c.srcOffset..c.srcOffset + c.len]);
    }

    /** A var-data copy: the source's value, cut to the destination's maximum, through SetVarDataValue. */
    method CopyVarData(c: CopyCmd, dest: Records.Record, src: seq<byte>) returns (ok: bool)
      requires Laid() && Ready(dest, src) && Sound(c) && c.isVarData && !c.isFieldChange
      modifies dest
      ensures Ready(dest, src)
      ensures var sf, df := srcObjs[c.srcFieldNum].field, destObjs[c.destFieldNum].field;
        ok ==> VarData.Readable(dest.rec, df.offset)
               && VarData.GetVarDataValue(dest.rec, df.offset) == CutToMax(VarData.GetVarDataValue(src, sf.offset), c.varDataMaxBytes)
               && KeptOutside(df, destFixed, old(dest.Used()), old(dest.rec), dest.rec)
      ensures !ok ==> dest.rec == old(dest.rec)
    {
      var s, d := srcObjs[c.srcFieldNum], destObjs[c.destFieldNum];
      assert s in srcObjs && d in destObjs;
      VarData.ValueBounded(src, s.field.offset);
      var v := VarData.GetVarDataValue(src, s.field.offset);
      ghost var rec0, used := dest.rec, dest.Used();
      assert used == destFixed + 4 + dest.curVarDataSize;
      ok := VarData.SetVarDataValue(dest, d.field.offset, CutToMax(v, c.varDataMaxBytes));
      if ok {
        SlotKept(d.field, destFixed, used, rec0, dest.rec);
      }
    }

    /**
     * A conversion: in suppress mode, when only sizes differ, the sink is
     * detached first, and what is put back afterwards is pSaveDestEngine,
     * which is never assigned, so the sink stays detached.
     */
    method ChangeField(c: CopyCmd, dest: Records.Record, src: seq<byte>) returns (res: Result<bool>)
      requires Laid() && Ready(dest, src) && Sound(c) && c.isFieldChange
      modifies dest, destObjs[c.destFieldNum], destObjs[c.destFieldNum].reporter, srcObjs[c.srcFieldNum].reporter, temp
      ensures Ready(dest, src)
      ensures Suppressing(c) ==> !destObjs[c.destFieldNum].reporter.attached
      ensures !old(destObjs[c.destFieldNum].reporter.attached) ==> !destObjs[c.destFieldNum].reporter.attached
      ensures !old(srcObjs[c.srcFieldNum].reporter.attached) ==> !srcObjs[c.srcFieldNum].reporter.attached
      ensures Converted(c, src, old(dest.rec), old(dest.Used()), dest.rec, res)
      ensures res.Ok? ==> res == Ok(true)
    {
      var d, s := destObjs[c.destFieldNum], srcObjs[c.srcFieldNum];
      var same := suppressSizeOnlyConvErrors && d.field.schema.ft == s.field.schema.ft;
      if same {
        d.reporter.Attach(None);
      }
      res := Convert(c, dest, src);
      if same {
        d.reporter.Attach(None);
      }
    }

    /** The value a conversion hands the destination's setter, and the errors reported on the way. */
    ghost function FetchedFor(c: CopyCmd, src: seq<byte>): Result<Got<FieldDispatch.Input>>
      requires Laid() && Sound(c) && c.isFieldChange && SrcFields(src)
    {
      var d, s := destObjs[c.destFieldNum], srcObjs[c.srcFieldNum];
      assert d in destObjs && s in srcObjs;
      Fetched(d.impl, s.impl, FieldDispatch.ReadContent(s.impl, s.field, src), decimalSep == ',')
    }

    /**
     * What a conversion does to the destination record rec0: a getter that throws ends it with
     * nothing written; so does a setter that throws; otherwise the field
     * holds what the setter computed and the rest of the record stays,
     * unless the record would be too long.
     */
    ghost predicate Converted(c: CopyCmd, src: seq<byte>, rec0: seq<byte>, used0: nat, rec: seq<byte>, res: Result<bool>)
      requires Laid() && Sound(c) && c.isFieldChange && SrcFields(src) && destFixed <= |rec0|
    {
      var d := destObjs[c.destFieldNum];
      assert d in destObjs;
      var g := FetchedFor(c, src);
      (g.Err? ==> res == Err(g.msg) && rec == rec0)
      && (g.Ok? ==>
            var e := FieldDispatch.SetFromVal(d.impl, OldContent(d.impl, d.field, rec0), g.value.val);
            (e.Err? ==> res == Err(e.msg) && rec == rec0)
            && (e.Ok? && res.Ok? ==> InRecord(d.field, rec) && ContentOf(d.field, rec) == e.value.store
                                     && KeptOutside(d.field, destFixed, used0, rec0, rec))
            && (e.Ok? && res.Err? ==> res == Err(FieldDispatch.RecordTooBig) && rec == rec0))
    }

    /**
     * The conversion itself: the getter the destination type calls for reads
     * the source and reports its errors, with the separators exchanged in
     * temp when the conversion asks for it; the destination's setter
     * computes the new contents, reports, and writes them.
     */
    method Convert(c: CopyCmd, dest: Records.Record, src: seq<byte>) returns (res: Result<bool>)
      requires Laid() && Ready(dest, src) && Sound(c) && c.isFieldChange
      modifies dest, destObjs[c.destFieldNum], destObjs[c.destFieldNum].reporter, srcObjs[c.srcFieldNum].reporter, temp
      ensures Ready(dest, src)
      ensures !old(destObjs[c.destFieldNum].reporter.attached) ==> !destObjs[c.destFieldNum].reporter.attached
      ensures !old(srcObjs[c.srcFieldNum].reporter.attached) ==> !srcObjs[c.srcFieldNum].reporter.attached
      ensures Converted(c, src, old(dest.rec), old(dest.Used()), dest.rec, res)
      ensures res.Ok? ==> res == Ok(true)
    {
      var d := destObjs[c.destFieldNum];
      assert d in destObjs;
      var g := Fetch(c, src);
      if g.Err? {
        return Err(g.msg);
      }
      res := SetField(d, dest, g.value.val);
    }

    /**
     * The source side of a conversion: the value the getter the destination
     * type calls for reads, its errors reported to the source's sink, and the
     * separators exchanged in temp when the conversion asks for it.
     */
    method Fetch(c: CopyCmd, src: seq<byte>) returns (g: Result<Got<FieldDispatch.Input>>)
      requires Laid() && Sound(c) && c.isFieldChange && SrcFields(src)
      modifies srcObjs[c.srcFieldNum].reporter, temp
      ensures g == FetchedFor(c, src)
      ensures var r := srcObjs[c.srcFieldNum].reporter;
        (g.Err? ==> r.State() == old(r.State()))
        && (g.Ok? ==> r.State() == Sent(old(r.State()), srcObjs[c.srcFieldNum].field.schema.name, g.value.msgs))
        && (!old(r.attached) ==> !r.attached)
      ensures var s := srcObjs[c.srcFieldNum];
        var sc := FieldDispatch.ReadContent(s.impl, s.field, src);
        g.Ok? && Converts(destObjs[c.destFieldNum].impl, s.impl, sc, decimalSep == ',') ==>
          temp.text == SwapSeps(FieldDispatch.GetAsAString(s.impl, sc).val.value)
    {
      var d, s := destObjs[c.destFieldNum], srcObjs[c.srcFieldNum];
      assert d in destObjs && s in srcObjs;
      var sc := FieldDispatch.ReadContent(s.impl, s.field, src);
      g := Fetched(d.impl, s.impl, sc, decimalSep == ',');
      if g.Err? {
        return;
      }
      Report(s.reporter, s.field.schema.name, g.value.msgs);
      if Converts(d.impl, s.impl, sc, decimalSep == ',') {
        var _ := ConvertDecimalSep(FieldDispatch.GetAsAString(s.impl, sc).val.value);
      }
    }

    /** ConvertDecimalSep: temp takes the text and has its separators exchanged in place, up to its first NUL. */
    method ConvertDecimalSep(v: string) returns (r: string)
      modifies temp
      ensures r == SwapSeps(v) && temp.text == r
    {
      temp.text := v;
      var i := 0;
      while i < |temp.text| && temp.text[i] != '\0'
        invariant i <= |temp.text| == |v|
        invariant forall k :: 0 <= k < i ==> v[k] != '\0' && temp.text[k] == SwapSep(v[k])
        invariant forall k :: i <= k < |v| ==> temp.text[k] == v[k]
      {
        if temp.text[i] == '.' {
          temp.text := temp.text[i := ','];
        } else if temp.text[i] == ',' {
          temp.text := temp.text[i := '.'];
        }
        i := i + 1;
      }
      assert i == SrcLib.CLen(v);
      r := temp.text;
    }
  }

  /** The first k commands, when all raw, took rec0 to rec as their steps do. */
  ghost predicate Replayed(cs: seq<CopyCmd>, k: nat, src: seq<byte>, rec0: seq<byte>, rec: seq<byte>)
    requires k <= |cs|
  {
    RawOnly(cs[..k]) ==> rec == Replay(Steps(cs[..k]), src, rec0)
  }

  /** The loop invariant of Copy carried over one command. */
  lemma RawOnlyStep(cs: seq<CopyCmd>, k: nat, src: seq<byte>, rec0: seq<byte>, before: seq<byte>, after: seq<byte>)
    requires k < |cs| && Replayed(cs, k, src, rec0, before)
    requires Raw(cs[k]) ==> cs[k].srcOffset + cs[k].len <= |src| && cs[k].destOffset + cs[k].len <= |before|
                            && after == Splice(before, cs[k].destOffset, src[cs[k].srcOffset..cs[k].srcOffset + cs[k].len])
    ensures Replayed(cs, k + 1, src, rec0, after)
  {
    assert cs[..k + 1] == cs[..k] + [cs[k]];
    if RawOnly(cs[..k + 1]) {
      assert cs[k] in cs[..k + 1];
      forall x | x in cs[..k] ensures Raw(x) {
        assert x in cs[..k + 1];
      }
      RawStep(cs[..k], cs[k], src, rec0, before);
    }
  }

  /** Every command is a raw copy. */
  predicate RawOnly(cs: seq<CopyCmd>)
  {
    forall c | c in cs :: Raw(c)
  }

  /** The field is in rec and reads null there. */
  ghost predicate NullIn(o: FieldDispatch.FieldObj, rec: seq<byte>)
  {
    o.Valid() && InRecord(o.field, rec) && FieldDispatch.GetNull(o.impl, FieldDispatch.ReadContent(o.impl, o.field, rec))
  }

  /** FieldBase::SetNull on a record: the field's null written over its place, nothing reported, nothing else below the fixed size touched. */
  method NullField(d: FieldDispatch.FieldObj, r: Records.Record)
    requires d.Valid() && r.Valid() && d.field.offset + d.field.rawSize <= r.fixedSize
    requires d.field.isVarLength ==> r.containsVarData
    modifies r
    ensures r.Valid() && r.fixedSize == old(r.fixedSize) && r.containsVarData == old(r.containsVarData)
    ensures NullIn(d, r.rec)
    ensures forall k | 0 <= k < r.fixedSize && !(d.field.offset <= k < d.field.offset + d.field.rawSize) :: r.rec[k] == old(r.rec)[k]
  {
    var c := FieldDispatch.SetNull(d.impl, OldContent(d.impl, d.field, r.rec));
    FieldDispatch.HoldsLaidOut(d.impl, c);
    ghost var rec0, cur0, unset0 := r.rec, r.curVarDataSize, r.varDataLenUnset;
    var ok := Apply(d.field, r, c);
    if c.Bytes? && r.containsVarData {
      SyncedKeeps(rec0, r.fixedSize, cur0, unset0);
    }
  }

  /** Bringing the var-data length word up to date changes nothing in the fixed part. */
  lemma SyncedKeeps(rec: seq<byte>, fixed: nat, cur: nat, unset: bool)
    requires fixed + 4 <= |rec| && cur < 0x1_0000_0000
    ensures forall k | 0 <= k < fixed :: Synced(rec, fixed, true, cur, unset)[k] == rec[k]
  {
    if unset {
      var w := WriteU32(rec, fixed, cur);
      forall k | 0 <= k < fixed ensures w[k] == rec[k] {
        assert w[..fixed][k] == rec[..fixed][k];
      }
    }
  }

  /** A null field stays null while its bytes below the fixed size stay. */
  lemma NullKept(o: FieldDispatch.FieldObj, a: seq<byte>, b: seq<byte>, lo: nat, hi: nat, fixed: nat)
    requires NullIn(o, a) && o.field.offset + o.field.rawSize <= fixed && fixed <= |a| && fixed <= |b|
    requires hi <= o.field.offset || o.field.offset + o.field.rawSize <= lo
    requires forall k | 0 <= k < fixed && !(lo <= k < hi) :: b[k] == a[k]
    ensures NullIn(o, b)
  {
    var f := o.field;
    assert a[f.offset..f.offset + f.rawSize] == b[f.offset..f.offset + f.rawSize];
    if f.isVarLength {
      NullSlot(o, a);
      assert ReadU32(b, f.offset) == ReadU32(a, f.offset);
    }
    assert ContentOf(f, b) == ContentOf(f, a);
  }

  /** A var field reads null only from a slot holding the null word. */
  lemma NullSlot(o: FieldDispatch.FieldObj, rec: seq<byte>)
    requires NullIn(o, rec) && o.field.isVarLength
    ensures ReadU32(rec, o.field.offset) == 1
  {
  }

  /** Once field x is written null over none of the fields before it, which were null, fields 0 to x are all null. */
  lemma NullsKept(objs: seq<FieldDispatch.FieldObj>, x: nat, a: seq<byte>, b: seq<byte>, fixed: nat)
    requires x < |objs| && fixed <= |a| && fixed <= |b|
    requires forall o | o in objs :: o.field.offset + o.field.rawSize <= fixed
    requires forall n | 0 <= n < x :: NullIn(objs[n], a)
    requires forall n | 0 <= n < x ::
      objs[n].field.offset + objs[n].field.rawSize <= objs[x].field.offset
      || objs[x].field.offset + objs[x].field.rawSize <= objs[n].field.offset
    requires forall k | 0 <= k < fixed && !(objs[x].field.offset <= k < objs[x].field.offset + objs[x].field.rawSize) :: b[k] == a[k]
    requires NullIn(objs[x], b)
    ensures forall n | 0 <= n < x + 1 :: NullIn(objs[n], b)
  {
    var lo, hi := objs[x].field.offset, objs[x].field.offset + objs[x].field.rawSize;
    forall n | 0 <= n < x + 1 ensures NullIn(objs[n], b) {
      if n < x {
        assert objs[n] in objs;
        NullKept(objs[n], a, b, lo, hi, fixed);
      }
    }
  }

  /** ReportAll, and a sink without an engine stays as it is. */
  method Report(r: Reporter, name: string, ms: seq<Msg>)
    modifies r
    ensures r.State() == Sent(old(r.State()), name, ms)
    ensures !old(r.attached) ==> r.State() == old(r.State())
  {
    ghost var st := r.State();
    r.ReportAll(name, ms);
    if !st.attached {
      SilentWhenDetached(st, name, ms);
    }
  }

  /**
   * A TFieldVal setter on the destination record, as FieldObj.Set: a throw
   * changes nothing; otherwise the errors are reported and the record holds
   * what the setter computed, unless a var value would make the record too
   * long. The old contents are taken as OldContent says.
   */
  method SetField(d: FieldDispatch.FieldObj, r: Records.Record, x: Val<FieldDispatch.Input>) returns (res: Result<bool>)
    requires d.Valid() && r.Valid() && d.field.offset + d.field.rawSize <= r.fixedSize
    requires (d.field.isVarLength ==> r.containsVarData) && FieldDispatch.InputOk(x.value)
    modifies d, r, d.reporter
    ensures r.Valid() && r.fixedSize == old(r.fixedSize) && r.containsVarData == old(r.containsVarData)
    ensures d.scratch == FieldDispatch.Scratch(d.impl, old(d.scratch), x)
    ensures !old(d.reporter.attached) ==> !d.reporter.attached
    ensures res.Ok? ==> res == Ok(true)
    ensures var e := FieldDispatch.SetFromVal(d.impl, OldContent(d.impl, d.field, old(r.rec)), x);
      (e.Err? ==> res == Err(e.msg) && r.rec == old(r.rec) && d.reporter.State() == old(d.reporter.State()))
      && (e.Ok? ==> d.reporter.State() == Sent(old(d.reporter.State()), d.field.schema.name, e.value.msgs))
      && (e.Ok? && res.Ok? ==> InRecord(d.field, r.rec) && ContentOf(d.field, r.rec) == e.value.store
                               && KeptOutside(d.field, r.fixedSize, old(r.Used()), old(r.rec), r.rec))
      && (e.Ok? && res.Err? ==> res == Err(FieldDispatch.RecordTooBig) && r.rec == old(r.rec))
  {
    var e := FieldDispatch.SetFromVal(d.impl, OldContent(d.impl, d.field, r.rec), x);
    d.scratch := FieldDispatch.Scratch(d.impl, d.scratch, x);
    if e.Err? {
      return Err(e.msg);
    }
    Report(d.reporter, d.field.schema.name, e.value.msgs);
    FieldDispatch.HoldsLaidOut(d.impl, e.value.store);
    if !Fits(d.field, e.value.store) {
      return Err(FieldDispatch.RecordTooBig);
    }
    var ok := Apply(d.field, r, e.value.store);
    if !ok {
      return Err(FieldDispatch.RecordTooBig);
    }
    return Ok(true);
  }

  /** A raw copy after a plan: the bytes its steps write are the block copy. */
  lemma RawStep(cs: seq<CopyCmd>, c: CopyCmd, src: seq<byte>, rec0: seq<byte>, cur: seq<byte>)
    requires Raw(c) && c.srcOffset + c.len <= |src| && c.destOffset + c.len <= |cur|
    requires cur == Replay(Steps(cs), src, rec0)
    ensures Replay(Steps(cs + [c]), src, rec0) == Splice(cur, c.destOffset, src[c.srcOffset..c.srcOffset + c.len])
  {
    StepsSnoc(cs, c);
    ReplayJoin(Steps(cs), StepsOf(c), src, rec0);
    BlockReplay(c, c.len, src, cur);
    assert StepsOf(c)[..c.len] == StepsOf(c);
  }

  /** Fields of one type are both var fields or neither. */
  lemma VarByType(i: FieldDispatch.Impl, j: FieldDispatch.Impl)
    requires FieldDispatch.WellFormed(i) && FieldDispatch.WellFormed(j)
    requires FieldDispatch.TypeOf(i) == FieldDispatch.TypeOf(j)
    ensures FieldDispatch.IsVar(i) == FieldDispatch.IsVar(j)
  {
    FieldDispatch.ClassOfType(i);
    FieldDispatch.ClassOfType(j);
  }

  /**
   * The sort and the merge of DoneAdding on an array: the commands sorted
   * by source offset, and then merged, leaving one value-initialised
   * command when there were none.
   */
  method SortAndMerge(cs: seq<CopyCmd>) returns (ghost sorted: seq<CopyCmd>, r: seq<CopyCmd>)
    ensures SortedBySrc(sorted) && multiset(sorted) == multiset(cs)
    ensures r == Finished(sorted)
  {
    var a := new CopyCmd[|cs|](i requires 0 <= i < |cs| => cs[i]);
    assert a[..] == cs;
    SortBySrc(a);
    sorted := a[..];
    var n := MergeInPlace(a);
    r := Resize(a[..], n);
    if a.Length == 0 {
      assert sorted == [];
      assert r == [Blank];
    } else {
      assert r == a[..n];
    }
  }

  /** Exchanges two commands. */
  method Swap(a: array<CopyCmd>, i: nat, j: nat)
    requires i < a.Length && j < a.Length
    modifies a
    ensures a[..] == old(a[..])[i := old(a[j])][j := old(a[i])]
    ensures multiset(a[..]) == multiset(old(a[..]))
  {
    a[i], a[j] := a[j], a[i];
  }

  /** std::sort on the commands, by source offset: an insertion sort in place. */
  method SortBySrc(a: array<CopyCmd>)
    modifies a
    ensures SortedBySrc(a[..]) && multiset(a[..]) == multiset(old(a[..]))
  {
    for i := 0 to a.Length
      invariant forall p, q :: 0 <= p < q < i ==> a[p].srcOffset <= a[q].srcOffset
      invariant multiset(a[..]) == multiset(old(a[..]))
    {
      SinkLast(a, i);
    }
  }

  /** One pass of the insertion sort: a[i] moved down into the sorted a[..i]. */
  method SinkLast(a: array<CopyCmd>, i: nat)
    requires i < a.Length
    requires forall p, q :: 0 <= p < q < i ==> a[p].srcOffset <= a[q].srcOffset
    modifies a
    ensures forall p, q :: 0 <= p < q <= i ==> a[p].srcOffset <= a[q].srcOffset
    ensures multiset(a[..]) == multiset(old(a[..]))
  {
    var j := i;
    while j > 0 && a[j - 1].srcOffset > a[j].srcOffset
      invariant 0 <= j <= i && multiset(a[..]) == multiset(old(a[..]))
      invariant forall p, q :: 0 <= p < q <= i && q != j ==> a[p].srcOffset <= a[q].srcOffset
      invariant j < i ==> forall p :: 0 <= p < j ==> a[p].srcOffset <= a[j + 1].srcOffset
    {
      Swap(a, j - 1, j);
      j := j - 1;
    }
  }

  /** One more command folded into a merge. */
  lemma MergedNext(s: seq<CopyCmd>, k: nat)
    requires k < |s|
    ensures var m := Merged(s[..k]);
      Merged(s[..k + 1]) == if m != [] && Mergeable(m[|m| - 1], s[k]) then m[..|m| - 1] + [Join(m[|m| - 1], s[k])] else m + [s[k]]
  {
    assert s[..k + 1][..k] == s[..k];
  }

  /** The loop body of MergeInPlace when the next command joins the last merged one. */
  lemma JoinNext(b: seq<CopyCmd>, a0: seq<CopyCmd>, x: nat, p: nat)
    requires p < x < |b| == |a0| && b[..p + 1] == Merged(a0[..x]) && b[x..] == a0[x..]
    requires Mergeable(b[p], a0[x])
    ensures var b' := b[p := Join(b[p], a0[x])]; b'[..p + 1] == Merged(a0[..x + 1]) && b'[x + 1..] == a0[x + 1..]
  {
    MergedNext(a0, x);
    var m := Merged(a0[..x]);
    assert |m| == p + 1 && m[p] == b[p];
    assert m[..p] == b[..p] by {
      assert m[..p] == b[..p + 1][..p];
    }
    UpdatedPrefix(b, p, Join(b[p], a0[x]));
    UpdatedSuffix(b, a0, p, x, Join(b[p], a0[x]));
  }


  /** The loop body of MergeInPlace when the next command starts a new merged one. */
  lemma MoveNext(b: seq<CopyCmd>, a0: seq<CopyCmd>, x: nat, p: nat)
    requires p < x < |b| == |a0| && b[..p + 1] == Merged(a0[..x]) && b[x..] == a0[x..]
    requires !Mergeable(b[p], a0[x])
    ensures var b' := b[p + 1 := a0[x]]; b'[..p + 2] == Merged(a0[..x + 1]) && b'[x + 1..] == a0[x + 1..]
  {
    MergedNext(a0, x);
    var m := Merged(a0[..x]);
    assert |m| == p + 1 && m[p] == b[p];
    UpdatedPrefix(b, p + 1, a0[x]);
    UpdatedSuffix(b, a0, p + 1, x, a0[x]);
  }

  /** An update at i keeps what lies before i. */
  lemma UpdatedPrefix(b: seq<CopyCmd>, i: nat, v: CopyCmd)
    requires i < |b|
    ensures b[i := v][..i + 1] == b[..i] + [v]
  {
    assert b[i := v][..i] == b[..i];
  }

  /** An update at or before x keeps what lies after x. */
  lemma UpdatedSuffix(b: seq<CopyCmd>, a0: seq<CopyCmd>, i: nat, x: nat, v: CopyCmd)
    requires i <= x < |b| == |a0| && b[x..] == a0[x..]
    ensures b[i := v][x + 1..] == a0[x + 1..]
  {
    assert b[i := v][x + 1..] == b[x + 1..] == b[x..][1..];
  }


  /**
   * The merge loop of DoneAdding, in place: prevIndex is the last merged
   * command; each command after it is joined onto it or moved up behind it.
   * The result is prevIndex + 1, and the merged commands are a[..prevIndex + 1].
   */
  method MergeInPlace(a: array<CopyCmd>) returns (n: nat)
    modifies a
    ensures n == (if a.Length == 0 then 1 else |Merged(old(a[..]))|)
    ensures a.Length > 0 ==> n <= a.Length && a[..n] == Merged(old(a[..]))
  {
    if a.Length == 0 {
      return 1;
    }
    ghost var a0 := a[..];
    var prevIndex := 0;
    var x := 1;
    assert a0[..1] == [a0[0]];
    while x < a.Length
      invariant 1 <= x <= a.Length && prevIndex < x
      invariant a[..prevIndex + 1] == Merged(a0[..x])
      invariant a[x..] == a0[x..]
    {
      ghost var b := a[..];
      var cur := a[x];
      assert cur == a0[x];
      var prev := a[prevIndex];
      if Mergeable(prev, cur) {
        JoinNext(b, a0, x, prevIndex);
        a[prevIndex] := Join(prev, cur);
        assert a[..] == b[prevIndex := Join(prev, cur)];
      } else {
        MoveNext(b, a0, x, prevIndex);
        if prevIndex != x - 1 {
          a[prevIndex + 1] := cur;
        }
        assert a[..] == b[prevIndex + 1 := cur];
        prevIndex := prevIndex + 1;
      }
      x := x + 1;
    }
    assert a0[..x] == a0;
    n := prevIndex + 1;
  }
}
