// UTF-16 code units and code points: writing a code point as one unit or a
// surrogate pair, decoding a code point, and the code-point iterator over a
// NUL-terminated buffer of units.

module Utf16 {
  import opened Bytes
  import opened Wrappers

  /** A char32_t: 32 bits, unsigned. */
  type char32 = x: int | 0 <= x < 0x1_0000_0000

  const LeadMin: int := 0xD800
  const LeadMax: int := 0xDBFF
  const TrailMin: int := 0xDC00
  const TrailMax: int := 0xDFFF
  const MaxUnicode: int := 0x10_FFFF
  /** LeadMin - (0x10000 >> 10). */
  const LeadOffset: int := 0xD7C0
  /** 0x10000 - (LeadMin << 10) - TrailMin, which wraps around in 32 bits. */
  const SurrogateOffset: int := 0xFCA0_2400
  const ReplacementChar: char32 := 0xFFFD
  const QuestionMark: char32 := 0x3F

  predicate IsLead(c: int) { LeadMin <= c <= LeadMax }
  predicate IsTrail(c: int) { TrailMin <= c <= TrailMax }

  predicate IsValidUnicode(u: int)
  {
    0 <= u <= MaxUnicode && (u < LeadMin || u > TrailMax) && u % 0x1_0000 < 0xFFFE
  }

  /** A code point that has a UTF-16 form: at most MaxUnicode and not a surrogate. */
  predicate IsScalar(cp: int) { 0 <= cp <= MaxUnicode && !(LeadMin <= cp <= TrailMax) }

  /** The unit at i of a NUL-terminated buffer; NUL at and beyond its end. */
  function At(s: seq<u16>, i: nat): u16
  {
    if i < |s| then s[i] else 0
  }

  /** What a CodePoint built at position p sees: the buffer from p on. */
  function From(s: seq<u16>, p: nat): seq<u16>
  {
    if p <= |s| then s[p..] else []
  }

  // ---------------------------------------------------------------------------
  // Writing and reading one code point

  /** The units TWriteCodePoint stores for cp: the unit itself up to 0xFFFF, else a surrogate pair, each cut to 16 bits. */
  function Encode(cp: char32): seq<u16>
  {
    if cp > 0xFFFF then [(cp / 1024 + LeadOffset) % 0x1_0000, cp % 1024 + TrailMin]
    else [cp]
  }

  /** UnitsForChar. */
  function UnitsFor(cp: char32): nat
  {
    if cp < 0x1_0000 then 1 else 2
  }

  /** Writes the units of cp at buffer[pos..] and returns how many it wrote and where the buffer pointer now is. */
  method WriteCodePoint(cp: char32, buffer: array<u16>, pos: nat) returns (n: nat, pos': nat)
    requires pos + UnitsFor(cp) <= buffer.Length
    modifies buffer
    ensures n == UnitsFor(cp) && n == |Encode(cp)| && pos' == pos + n
    ensures buffer[pos..pos'] == Encode(cp)
    ensures buffer[..pos] == old(buffer[..pos]) && buffer[pos'..] == old(buffer[pos'..])
  {
    if cp > 0xFFFF {
      buffer[pos] := (cp / 1024 + LeadOffset) % 0x1_0000;
      buffer[pos + 1] := cp % 1024 + TrailMin;
      n, pos' := 2, pos + 2;
    } else {
      buffer[pos] := cp;
      n, pos' := 1, pos + 1;
    }
  }

  /** (lead << 10) + trail + SurrogateOffset, in 32-bit char32_t arithmetic. */
  function Combine(lead: u16, trail: u16): char32
  {
    (lead * 1024 + trail + SurrogateOffset) % 0x1_0000_0000
  }

  /** A surrogate pair combines to the supplementary code point it encodes. */
  lemma CombinePair(lead: u16, trail: u16)
    requires IsLead(lead) && IsTrail(trail)
    ensures Combine(lead, trail) == 0x1_0000 + (lead - LeadMin) * 1024 + (trail - TrailMin)
    ensures 0x1_0000 <= Combine(lead, trail) <= MaxUnicode
  {
    var s := lead * 1024 + trail + SurrogateOffset;
    assert s == 0x1_0000_0000 + 0x1_0000 + (lead - LeadMin) * 1024 + (trail - TrailMin);
  }

  /** CodePoint: the units at a position and how many of them belong to the code point. */
  datatype CodePoint = CodePoint(buffer: seq<u16>, length: nat)

  /** CodePoint::Number: the code point the units spell; a lone or mismatched surrogate reads as '?'. */
  function Number(c: CodePoint): char32
  {
    var u := At(c.buffer, 0);
    if IsLead(u) then
      if c.length == 1 || At(c.buffer, 1) == 0 then QuestionMark
      else if IsTrail(At(c.buffer, 1)) then Combine(u, At(c.buffer, 1))
      else QuestionMark
    else if IsTrail(u) then QuestionMark
    else u
  }

  /** Number inverts WriteCodePoint on every code point that has a UTF-16 form, whatever follows. */
  lemma NumberInvertsEncode(cp: char32, rest: seq<u16>)
    requires IsScalar(cp)
    ensures Number(CodePoint(Encode(cp) + rest, UnitsFor(cp))) == cp
  {
    var b := Encode(cp) + rest;
    if cp > 0xFFFF {
      var lead, trail := (cp / 1024 + LeadOffset) % 0x1_0000, cp % 1024 + TrailMin;
      assert lead == cp / 1024 + LeadOffset;
      assert At(b, 0) == lead && At(b, 1) == trail;
      CombinePair(lead, trail);
    } else {
      assert At(b, 0) == cp;
    }
  }

  /** Every unit sequence decodes to '?' exactly where its surrogates are broken, or where it spells '?' itself. */
  lemma {:induction false} NumberBroken(c: CodePoint)
    ensures IsTrail(At(c.buffer, 0)) ==> Number(c) == QuestionMark
    ensures IsLead(At(c.buffer, 0)) && (c.length == 1 || !IsTrail(At(c.buffer, 1))) ==> Number(c) == QuestionMark
    ensures IsLead(At(c.buffer, 0)) && c.length != 1 && IsTrail(At(c.buffer, 1)) ==> IsScalar(Number(c)) && Number(c) > 0xFFFF
  {
    if IsLead(At(c.buffer, 0)) && c.length != 1 && IsTrail(At(c.buffer, 1)) {
      CombinePair(At(c.buffer, 0), At(c.buffer, 1));
    }
  }

  // ---------------------------------------------------------------------------
  // The iterator's steps, as functions of the buffer and a position

  /** operator++: two units past a lead surrogate, unless the unit after it is NUL. */
  function NextPos(s: seq<u16>, p: nat): (q: nat)
  {
    p + if IsLead(At(s, p)) && At(s, p + 1) != 0 then 2 else 1
  }

  /** operator++ never steps over a NUL: every unit it skips is not NUL. */
  lemma NextNeverSkipsNul(s: seq<u16>, p: nat)
    ensures p < NextPos(s, p) <= p + 2
    ensures forall k :: p < k < NextPos(s, p) ==> At(s, k) != 0
  {
  }

  /** operator+= n: n single steps. */
  function NextN(s: seq<u16>, p: nat, n: nat): nat
    decreases n
  {
    if n == 0 then p else NextN(s, NextPos(s, p), n - 1)
  }

  /** operator--: back to the closest earlier unit that is not a trail surrogate, or to 0. */
  function PrevStart(s: seq<u16>, p: nat): (q: nat)
    ensures p == 0 ==> q == 0
    ensures p > 0 ==> q < p
    ensures forall k :: q < k < p ==> IsTrail(At(s, k))
    ensures q > 0 ==> !IsTrail(At(s, q))
  {
    if p == 0 then 0
    else if !IsTrail(At(s, p - 1)) then p - 1
    else PrevStart(s, p - 1)
  }

  /** A position where a well-formed code point starts: not a trail, and a lead is followed by a trail or by NUL. */
  predicate StartsPoint(s: seq<u16>, p: nat)
  {
    !IsTrail(At(s, p)) && (IsLead(At(s, p)) ==> At(s, p + 1) == 0 || IsTrail(At(s, p + 1)))
  }

  /** operator-- undoes operator++ at the start of a well-formed code point. */
  lemma PrevUndoesNext(s: seq<u16>, p: nat)
    requires StartsPoint(s, p)
    ensures PrevStart(s, NextPos(s, p)) == p
  {
    if NextPos(s, p) == p + 2 {
      assert IsTrail(At(s, p + 1));
    }
  }

  /** operator-= n: each step back passes a trail surrogate together with the unit before it; a trail at 0 is an error. */
  function RetreatN(s: seq<u16>, p: nat, n: nat): Option<nat>
    decreases n
  {
    if n == 0 || p == 0 then Some(p)
    else if IsTrail(At(s, p - 1)) then
      if p - 1 == 0 then None else RetreatN(s, p - 2, n - 1)
    else RetreatN(s, p - 1, n - 1)
  }

  /** One step back over a code point that was stepped over lands on its start. */
  lemma RetreatUndoesNext(s: seq<u16>, p: nat)
    requires StartsPoint(s, p)
    ensures RetreatN(s, NextPos(s, p), 1) == Some(p)
  {
    if NextPos(s, p) == p + 2 {
      assert IsTrail(At(s, p + 1));
    }
  }

  /** The number of code points from p to the NUL, counted by operator++ steps. */
  function CountPoints(s: seq<u16>, p: nat): nat
    decreases |s| - p
  {
    if At(s, p) == 0 then 0 else 1 + CountPoints(s, NextPos(s, p))
  }

  /** CountPoints steps land on the NUL, and every earlier step is on a unit that is not NUL. */
  lemma {:induction false} CountPointsReachesNul(s: seq<u16>, p: nat)
    ensures At(s, NextN(s, p, CountPoints(s, p))) == 0
    ensures forall j :: 0 <= j < CountPoints(s, p) ==> At(s, NextN(s, p, j)) != 0
    decreases |s| - p
  {
    if At(s, p) != 0 {
      var q := NextPos(s, p);
      CountPointsReachesNul(s, q);
      forall j | 0 <= j < CountPoints(s, p) ensures At(s, NextN(s, p, j)) != 0 {
        if j > 0 {
          assert NextN(s, p, j) == NextN(s, q, j - 1);
        }
      }
    }
  }

  /**
   * LengthPoints as written: a lead surrogate always moves the position by
   * two, so a lead surrogate just before the NUL steps over it.
   */
  function LengthPointsAsWritten(s: seq<u16>, p: nat): nat
    decreases |s| + 1 - p
  {
    if At(s, p) == 0 then 0
    else 1 + LengthPointsAsWritten(s, if IsLead(At(s, p)) then p + 2 else p + 1)
  }

  /** [D800, 0, 'a', 0]: one code point before the NUL, counted as two. */
  lemma LengthPointsSkipsNul()
    ensures LengthPointsAsWritten([0xD800, 0, 0x61, 0], 0) == 2
    ensures CountPoints([0xD800, 0, 0x61, 0], 0) == 1
  {
    var s: seq<u16> := [0xD800, 0, 0x61, 0];
    assert At(s, 2) == 0x61 && At(s, 3) == 0;
    assert NextPos(s, 0) == 1;
  }

  /** Where no lead surrogate stands right before the NUL, the as-written count is the true one. */
  lemma {:induction false} LengthPointsAgree(s: seq<u16>, p: nat)
    requires forall k :: p <= k < |s| && IsLead(s[k]) ==> At(s, k + 1) != 0
    ensures LengthPointsAsWritten(s, p) == CountPoints(s, p)
    decreases |s| - p
  {
    if At(s, p) != 0 {
      LengthPointsAgree(s, NextPos(s, p));
    }
  }

  /** NumberAdvRepair: the code point at p and the position after it; a broken surrogate gives U+FFFD and one unit. */
  function Repair(s: seq<u16>, p: nat): (r: (char32, nat))
  {
    var u := At(s, p);
    if u < LeadMin || TrailMax < u then (u, p + 1)
    else if LeadMax < u || !IsTrail(At(s, p + 1)) then (ReplacementChar, p + 1)
    else (Combine(u, At(s, p + 1)), p + 2)
  }

  /** NumberAdvRepair reads back every code point WriteCodePoint wrote, and steps over exactly its units. */
  lemma RepairInvertsEncode(cp: char32, rest: seq<u16>)
    requires IsScalar(cp)
    ensures Repair(Encode(cp) + rest, 0) == (cp, UnitsFor(cp))
  {
    var b := Encode(cp) + rest;
    if cp > 0xFFFF {
      var lead, trail := (cp / 1024 + LeadOffset) % 0x1_0000, cp % 1024 + TrailMin;
      assert lead == cp / 1024 + LeadOffset;
      assert At(b, 0) == lead && At(b, 1) == trail;
      CombinePair(lead, trail);
    } else {
      assert At(b, 0) == cp;
    }
  }

  /** Repair agrees with Number where the surrogates are sound, and repairs to U+FFFD exactly where Number gives '?' for a surrogate. */
  lemma RepairAgainstNumber(s: seq<u16>, p: nat)
    ensures var c := CodePoint(From(s, p), if IsLead(At(s, p)) then 2 else 1);
      (Repair(s, p).0 == ReplacementChar && At(s, p) != ReplacementChar) <==>
        ((IsLead(At(s, p)) || IsTrail(At(s, p))) && Number(c) == QuestionMark)
    ensures var c := CodePoint(From(s, p), if IsLead(At(s, p)) then 2 else 1);
      Repair(s, p).0 != ReplacementChar ==> Repair(s, p).0 == Number(c)
  {
    var c := CodePoint(From(s, p), if IsLead(At(s, p)) then 2 else 1);
    assert At(c.buffer, 0) == At(s, p) && At(c.buffer, 1) == At(s, p + 1);
    if IsLead(At(s, p)) && IsTrail(At(s, p + 1)) {
      CombinePair(At(s, p), At(s, p + 1));
    }
  }

  // ---------------------------------------------------------------------------
  // The iterator

  /** CodePointIterator: a position in a NUL-terminated unit buffer. */
  class CodePointIterator {
    const str: seq<u16>
    var pos: nat

    constructor(str: seq<u16>, pos: nat)
      ensures this.str == str && this.pos == pos
    {
      this.str := str;
      this.pos := pos;
    }

    /** operator*: the code point at pos, two units long when it starts with a lead surrogate. */
    function Current(): CodePoint
      reads this
    {
      CodePoint(From(str, pos), if IsLead(At(str, pos)) then 2 else 1)
    }

    /** operator++. */
    method Next()
      modifies this
      ensures pos == NextPos(str, old(pos))
    {
      var amt := 1;
      if IsLead(At(str, pos)) && At(str, pos + 1) != 0 {
        amt := amt + 1;
      }
      pos := pos + amt;
    }

    /** operator--. */
    method Prev()
      modifies this
      ensures pos == PrevStart(str, old(pos))
    {
      ghost var p0 := pos;
      while pos > 0
        invariant PrevStart(str, pos) == PrevStart(str, p0) && (pos < p0 ==> PrevStart(str, p0) == pos || IsTrail(At(str, pos)))
        invariant pos <= p0 && (pos < p0 ==> IsTrail(At(str, pos)))
        decreases pos
      {
        pos := pos - 1;
        if !IsTrail(At(str, pos)) {
          return;
        }
      }
    }

    /** operator+= n. */
    method Advance(n: nat)
      modifies this
      ensures pos == NextN(str, old(pos), n)
    {
      for i := 0 to n
        invariant NextN(str, pos, n - i) == NextN(str, old(pos), n)
      {
        Next();
      }
    }

    /** operator-= n; false where it throws "Invalid UTF-16 trailing surrogate", pos then being 0. */
    method Retreat(n: nat) returns (ok: bool)
      modifies this
      ensures ok <==> RetreatN(str, old(pos), n).Some?
      ensures ok ==> pos == RetreatN(str, old(pos), n).value
      ensures !ok ==> pos == 0
    {
      var k := n;
      while k > 0 && pos > 0
        invariant RetreatN(str, pos, k) == RetreatN(str, old(pos), n)
        decreases k
      {
        pos := pos - 1;
        if IsTrail(At(str, pos)) {
          if pos == 0 {
            return false;
          }
          pos := pos - 1;
        }
        k := k - 1;
      }
      ok := true;
    }

    /**
     * LengthPoints: count from pos to the NUL, two units for a lead
     * surrogate and one for any other unit.
     */
    method LengthPoints() returns (res: nat)
      ensures res == LengthPointsAsWritten(str, pos)
    {
      var p := pos;
      res := 0;
      while At(str, p) != 0
        invariant res + LengthPointsAsWritten(str, p) == LengthPointsAsWritten(str, pos)
        decreases |str| + 1 - p
      {
        if IsLead(At(str, p)) {
          p := p + 2;
        } else {
          p := p + 1;
        }
        res := res + 1;
      }
    }

    /** ValidNumber: the code point at pos when it is sound and valid Unicode, else -1. */
    function ValidNumber(): (v: int)
      reads this
      ensures v == -1 || (IsValidUnicode(v) && v == Number(Current()))
      ensures IsTrail(At(str, pos)) ==> v == -1
    {
      var u := At(str, pos);
      if IsTrail(u) then -1
      else if IsLead(u) && !IsTrail(At(str, pos + 1)) then -1
      else
        var cp := Number(Current());
        if IsValidUnicode(cp) then cp else -1
    }

    /** NumberAdvRepair. */
    method NumberAdvRepair() returns (cp: char32)
      modifies this
      ensures (cp, pos) == Repair(str, old(pos))
    {
      var u := At(str, pos);
      if u < LeadMin || TrailMax < u {
        pos := pos + 1;
        return u;
      }
      if LeadMax < u || !IsTrail(At(str, pos + 1)) {
        pos := pos + 1;
        return ReplacementChar;
      }
      cp := Combine(u, At(str, pos + 1));
      pos := pos + 2;
    }
  }

  /** ValidNumber gives back every valid code point written by WriteCodePoint. */
  lemma ValidNumberOfEncode(cp: char32, rest: seq<u16>, it: CodePointIterator)
    requires IsValidUnicode(cp) && it.str == Encode(cp) + rest && it.pos == 0
    ensures it.ValidNumber() == cp
  {
    var b := it.str;
    NumberInvertsEncode(cp, rest);
    assert From(b, 0) == b;
    if cp > 0xFFFF {
      var lead, trail := (cp / 1024 + LeadOffset) % 0x1_0000, cp % 1024 + TrailMin;
      assert lead == cp / 1024 + LeadOffset;
      assert At(b, 0) == lead && At(b, 1) == trail;
    } else {
      assert At(b, 0) == cp;
    }
  }
}
