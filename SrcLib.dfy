// The string class Tstr and the free helpers of the SrcLib replacement header:
// C-string primitives, ReplaceString, MSG_NoXL, narrow/wide conversion, the
// compact-whitespace comparison and the blob reader.

module SrcLib {
  import opened Wrappers
  import opened Bytes
  import StringHelper

  // ---------------------------------------------------------------------------
  // C strings: a buffer read up to its first NUL (or its end)

  /** The length of the C string at the start of buf. */
  function CLen(buf: string): (n: nat)
    ensures n <= |buf| && (n < |buf| ==> buf[n] == '\0')
    ensures forall k :: 0 <= k < n ==> buf[k] != '\0'
  {
    if |buf| == 0 || buf[0] == '\0' then 0 else 1 + CLen(buf[1..])
  }

  /** The C string at the start of buf, as the constructor from a TChar pointer copies it. */
  function CStr(buf: string): string
  {
    buf[..CLen(buf)]
  }

  lemma {:induction false} CLenOfNoNul(s: string)
    requires forall k :: 0 <= k < |s| ==> s[k] != '\0'
    ensures CLen(s) == |s| && CStr(s) == s
  {
    if |s| > 0 { CLenOfNoNul(s[1..]); }
  }

  /** strlen / TStrLen: walks to the terminating NUL. */
  method Strlen(p: string) returns (n: nat)
    ensures n == CLen(p)
  {
    n := 0;
    while StringHelper.At(p, n) != '\0'
      invariant n <= CLen(p)
      decreases |p| - n
    {
      n := n + 1;
    }
  }

  /** strchr: the first position of c before the NUL; a NUL c is never found. */
  method Strchr(p: string, c: char) returns (r: Option<nat>)
    ensures r.Some? ==> r.value < CLen(p) && p[r.value] == c && forall k :: 0 <= k < r.value ==> p[k] != c
    ensures r.None? ==> forall k :: 0 <= k < CLen(p) ==> p[k] != c
  {
    var i := 0;
    while StringHelper.At(p, i) != '\0'
      invariant i <= CLen(p)
      invariant forall k :: 0 <= k < i ==> p[k] != c
      decreases |p| - i
    {
      if p[i] == c {
        return Some(i);
      }
      i := i + 1;
    }
    return None;
  }

  /** The C string needle occurs in the C string hay at position k. */
  predicate MatchAt(hay: string, needle: string, k: nat)
  {
    k + |CStr(needle)| <= CLen(hay) && hay[k..k + |CStr(needle)|] == CStr(needle)
  }

  /** strstr: the first position at which needle occurs; an empty needle matches at 0. */
  method Strstr(hay: string, needle: string) returns (r: Option<nat>)
    ensures r.Some? ==> MatchAt(hay, needle, r.value) && forall k :: 0 <= k < r.value ==> !MatchAt(hay, needle, k)
    ensures r.None? ==> forall k :: 0 <= k <= CLen(hay) ==> !MatchAt(hay, needle, k)
  {
    var nl := CLen(needle);
    if StringHelper.At(needle, 0) == '\0' {
      assert CStr(needle) == [] && hay[0..0] == [];
      return Some(0);
    }
    var hl := CLen(hay);
    var cp := 0;
    while StringHelper.At(hay, cp) != '\0'
      invariant cp <= hl
      invariant forall k :: 0 <= k < cp ==> !MatchAt(hay, needle, k)
      decreases |hay| - cp
    {
      var s1, s2 := cp, 0;
      while StringHelper.At(hay, s1) != '\0' && StringHelper.At(needle, s2) != '\0'
            && StringHelper.At(hay, s1) == StringHelper.At(needle, s2)
        invariant s1 == cp + s2 && s1 <= hl && s2 <= nl
        invariant forall k :: 0 <= k < s2 ==> hay[cp + k] == needle[k]
        decreases nl - s2
      {
        s1, s2 := s1 + 1, s2 + 1;
      }
      if StringHelper.At(needle, s2) == '\0' {
        assert s2 == nl;
        assert hay[cp..cp + nl] == CStr(needle) by {
          forall k | 0 <= k < nl ensures hay[cp..cp + nl][k] == CStr(needle)[k] {
            assert hay[cp + k] == needle[k];
          }
        }
        return Some(cp);
      }
      assert !MatchAt(hay, needle, cp) by {
        if cp + nl <= hl {
          assert hay[cp..cp + nl][s2] != CStr(needle)[s2];
        }
      }
      cp := cp + 1;
    }
    assert cp == hl;
    assert !MatchAt(hay, needle, hl);
    return None;
  }

  /** The first n places of the C strings a and b agree, up to and including a's NUL. */
  predicate PrefixAgree(a: string, b: string, n: nat)
  {
    forall k :: 0 <= k < n && k <= CLen(a) ==> StringHelper.At(a, k) == StringHelper.At(b, k)
  }

  /** strncmp: zero exactly when the first n places agree up to a NUL; otherwise the difference at the first mismatch. */
  method Strncmp(a: string, b: string, n: nat) returns (r: int)
    ensures r == 0 <==> PrefixAgree(a, b, n)
    ensures r != 0 ==> exists k :: (0 <= k < n && k <= CLen(a) && r == StringHelper.At(a, k) as int - StringHelper.At(b, k) as int &&
      forall j :: 0 <= j < k ==> StringHelper.At(a, j) == StringHelper.At(b, j))
  {
    if n == 0 {
      return 0;
    }
    var i := 0;
    while StringHelper.At(a, i) != '\0' && i < n - 1 && StringHelper.At(a, i) == StringHelper.At(b, i)
      invariant i <= n - 1 && i <= CLen(a)
      invariant forall k :: 0 <= k < i ==> StringHelper.At(a, k) == StringHelper.At(b, k)
      decreases n - i
    {
      i := i + 1;
    }
    r := StringHelper.At(a, i) as int - StringHelper.At(b, i) as int;
  }

  // ---------------------------------------------------------------------------
  // Trimming

  /** s without its trailing white space. */
  function DropTrailingSpaces(s: string): (r: string)
    ensures |r| <= |s| && r == s[..|r|]
    ensures forall k :: |r| <= k < |s| ==> StringHelper.IsSpace(s[k])
    ensures r == [] || !StringHelper.IsSpace(r[|r| - 1])
  {
    if |s| > 0 && StringHelper.IsSpace(s[|s| - 1]) then DropTrailingSpaces(s[..|s| - 1]) else s
  }

  /** The number of white-space characters at the start of s. */
  function LeadingSpaces(s: string): (n: nat)
    ensures n <= |s| && (n < |s| ==> !StringHelper.IsSpace(s[n]))
    ensures forall k :: 0 <= k < n ==> StringHelper.IsSpace(s[k])
  {
    if |s| > 0 && StringHelper.IsSpace(s[0]) then 1 + LeadingSpaces(s[1..]) else 0
  }

  /** The value of Trim: TrimRight (leading spaces, then re-read as a C string) followed by TrimLeft. */
  function Trimmed(s: string): string
  {
    DropTrailingSpaces(CStr(s[LeadingSpaces(s)..]))
  }

  /** Trim keeps exactly the middle of a NUL-free string: no space at either end, only spaces dropped. */
  lemma {:induction false} TrimMeaning(s: string)
    requires forall k :: 0 <= k < |s| ==> s[k] != '\0'
    ensures var i := LeadingSpaces(s); var t := Trimmed(s);
      i + |t| <= |s| && t == s[i..i + |t|]
      && (forall k :: 0 <= k < i || i + |t| <= k < |s| ==> StringHelper.IsSpace(s[k]))
      && (t == [] || (!StringHelper.IsSpace(t[0]) && !StringHelper.IsSpace(t[|t| - 1])))
  {
    var i := LeadingSpaces(s);
    CLenOfNoNul(s[i..]);
    var t := Trimmed(s);
    assert t == s[i..][..|t|];
    if t != [] {
      assert t[0] == s[i];
    }
  }

  /** Trimming twice changes nothing more. */
  lemma {:induction false} TrimIdempotent(s: string)
    requires forall k :: 0 <= k < |s| ==> s[k] != '\0'
    ensures Trimmed(Trimmed(s)) == Trimmed(s)
  {
    TrimMeaning(s);
    var t := Trimmed(s);
    assert forall k :: 0 <= k < |t| ==> t[k] != '\0' by {
      var i := LeadingSpaces(s);
      forall k | 0 <= k < |t| ensures t[k] != '\0' { assert t[k] == s[i + k]; }
    }
    if t != [] {
      assert LeadingSpaces(t) == 0;
      CLenOfNoNul(t);
      assert t[0..] == t;
    }
  }

  // ---------------------------------------------------------------------------
  // ReplaceString

  /** t occurs in s at position k. */
  predicate OccursAt(s: string, t: string, k: nat)
  {
    k + |t| <= |s| && s[k..k + |t|] == t
  }

  /** std::string::find: the first position from `from` on where t occurs in s. */
  function Find(s: string, t: string, from: nat): (r: Option<nat>)
    ensures r.Some? ==> from <= r.value && OccursAt(s, t, r.value)
    ensures r.Some? ==> forall k :: from <= k < r.value ==> !OccursAt(s, t, k)
    ensures r.None? ==> forall k :: from <= k ==> !OccursAt(s, t, k)
    decreases |s| - from
  {
    if from + |t| > |s| then None
    else if s[from..from + |t|] == t then Some(from)
    else Find(s, t, from + 1)
  }

  /** The replacement in u of every t met scanning left to right; the scan resumes after each match. */
  function Replace(u: string, t: string, r: string): string
    requires |t| > 0
    decreases |u|
  {
    if |u| < |t| then u
    else if u[..|t|] == t then r + Replace(u[|t|..], t, r)
    else [u[0]] + Replace(u[1..], t, r)
  }

  /** The replacement of the suffix s[i..]. */
  function ReplaceFrom(s: string, t: string, r: string, i: nat): string
    requires |t| > 0 && i <= |s|
  {
    Replace(s[i..], t, r)
  }

  /** Left-to-right, non-overlapping replacement of every t in s by r; inserted text is not rescanned. */
  function ReplaceAll(s: string, t: string, r: string): string
    requires |t| > 0
  {
    Replace(s, t, r)
  }

  /** With no match ahead, the rest of the string is left as it is. */
  lemma {:induction false} FindNoneReplace(s: string, t: string, r: string, from: nat)
    requires |t| > 0 && from <= |s| && Find(s, t, from).None?
    ensures ReplaceFrom(s, t, r, from) == s[from..]
    decreases |s| - from
  {
    if from + |t| <= |s| {
      assert !OccursAt(s, t, from);
      ReplaceAtMiss(s, t, r, from);
      FindNoneReplace(s, t, r, from + 1);
      assert s[from..] == [s[from]] + s[from + 1..];
    }
  }

  /** One step of the scan at a match: it is replaced and skipped. */
  lemma {:induction false} ReplaceAtMatch(s: string, t: string, r: string, i: nat)
    requires |t| > 0 && OccursAt(s, t, i)
    ensures ReplaceFrom(s, t, r, i) == r + ReplaceFrom(s, t, r, i + |t|)
  {
    assert s[i..][..|t|] == s[i..i + |t|];
    assert s[i..][|t|..] == s[i + |t|..];
  }

  /** One step of the scan elsewhere: the character is kept. */
  lemma {:induction false} ReplaceAtMiss(s: string, t: string, r: string, i: nat)
    requires |t| > 0 && i + |t| <= |s| && !OccursAt(s, t, i)
    ensures ReplaceFrom(s, t, r, i) == [s[i]] + ReplaceFrom(s, t, r, i + 1)
  {
    assert s[i..][..|t|] == s[i..i + |t|];
    assert s[i..][1..] == s[i + 1..];
  }

  lemma {:induction false} ConsAssoc(c: char, mid: string, r: string, rest: string)
    ensures [c] + (mid + r + rest) == ([c] + mid) + r + rest
  {
  }

  /** The first match ahead at p: the text up to p is kept, the match replaced, the rest handled alike. */
  lemma {:induction false} FindSomeReplace(s: string, t: string, r: string, from: nat, p: nat)
    requires |t| > 0 && from <= |s| && Find(s, t, from) == Some(p)
    ensures p + |t| <= |s|
    ensures ReplaceFrom(s, t, r, from) == s[from..p] + r + ReplaceFrom(s, t, r, p + |t|)
  {
    FirstMatchReplace(s, t, r, from, p);
  }

  /** The statement of FindSomeReplace with the first match spelled out. */
  lemma {:induction false} FirstMatchReplace(s: string, t: string, r: string, from: nat, p: nat)
    requires |t| > 0 && from <= p && OccursAt(s, t, p)
    requires forall k :: from <= k < p ==> !OccursAt(s, t, k)
    ensures ReplaceFrom(s, t, r, from) == s[from..p] + r + ReplaceFrom(s, t, r, p + |t|)
    decreases p - from
  {
    if p == from {
      MatchHere(s, t, r, from);
    } else {
      assert !OccursAt(s, t, from);
      FirstMatchReplace(s, t, r, from + 1, p);
      KeepOne(s, t, r, from, p);
    }
  }

  lemma {:induction false} MatchHere(s: string, t: string, r: string, i: nat)
    requires |t| > 0 && OccursAt(s, t, i)
    ensures ReplaceFrom(s, t, r, i) == s[i..i] + r + ReplaceFrom(s, t, r, i + |t|)
  {
    ReplaceAtMatch(s, t, r, i);
    assert s[i..i] + r == r;
  }

  /** Keeping the character at `from` before a later match extends the kept text by one. */
  lemma {:induction false} KeepOne(s: string, t: string, r: string, from: nat, p: nat)
    requires |t| > 0 && from < p && p + |t| <= |s| && !OccursAt(s, t, from)
    requires ReplaceFrom(s, t, r, from + 1) == s[from + 1..p] + r + ReplaceFrom(s, t, r, p + |t|)
    ensures ReplaceFrom(s, t, r, from) == s[from..p] + r + ReplaceFrom(s, t, r, p + |t|)
  {
    ReplaceAtMiss(s, t, r, from);
    var c, mid := s[from], s[from + 1..p];
    assert s[from..p] == [c] + mid;
    ConsAssoc(c, mid, r, ReplaceFrom(s, t, r, p + |t|));
  }

  /** Where find lands decides the replacement of the rest of the string. */
  lemma {:induction false} FindThenReplace(s: string, t: string, r: string, from: nat)
    requires |t| > 0 && from <= |s|
    ensures Find(s, t, from).None? ==> ReplaceFrom(s, t, r, from) == s[from..]
    ensures Find(s, t, from).Some? ==> var p := Find(s, t, from).value;
      p + |t| <= |s| && ReplaceFrom(s, t, r, from) == s[from..p] + r + ReplaceFrom(s, t, r, p + |t|)
  {
    match Find(s, t, from)
    case None => FindNoneReplace(s, t, r, from);
    case Some(p) => FindSomeReplace(s, t, r, from, p);
  }

  /** When t does not occur in s the replacement is the identity. */
  lemma {:induction false} NoMatchUnchanged(s: string, t: string, r: string)
    requires |t| > 0 && Find(s, t, 0).None?
    ensures ReplaceAll(s, t, r) == s
  {
    FindNoneReplace(s, t, r, 0);
    assert s[0..] == s;
  }

  /**
   * The loop of ReplaceString as written: after each replacement it advances
   * by the length of the target, not of the replacement. Fuel bounds the
   * number of rounds; None means the rounds ran out with a match still ahead.
   */
  function ReplaceLoopAsWritten(dest: string, pos: nat, t: string, r: string, fuel: nat): Option<string>
    decreases fuel
  {
    match Find(dest, t, pos)
    case None => Some(dest)
    case Some(p) =>
      if fuel == 0 then None
      else ReplaceLoopAsWritten(dest[..p] + r + dest[p + |t|..], p + |t|, t, r, fuel - 1)
  }

  /**
   * One round of ReplaceString's loop as written: no match ends it with the string, no
   * rounds left end it with None; otherwise the match found is replaced and
   * the search resumes after the target's length.
   */
  method AsWrittenRound(d: string, pos: nat, t: string, r: string, n: nat) returns (stop: bool, out: Option<string>, d': string, pos': nat)
    ensures stop ==> out == ReplaceLoopAsWritten(d, pos, t, r, n)
    ensures !stop ==> n > 0 && ReplaceLoopAsWritten(d', pos', t, r, n - 1) == ReplaceLoopAsWritten(d, pos, t, r, n)
  {
    var f := Find(d, t, pos);
    if f.None? {
      return true, Some(d), d, pos;
    }
    if n == 0 {
      return true, None, d, pos;
    }
    return false, None, d[..f.value] + r + d[f.value + |t|..], f.value + |t|;
  }

  function Bs(n: nat): (r: string)
    ensures |r| == n && forall k :: 0 <= k < n ==> r[k] == 'b'
  {
    if n == 0 then [] else Bs(n - 1) + ['b']
  }

  lemma {:induction false} SpinAsWritten(n: nat, fuel: nat)
    ensures ReplaceLoopAsWritten(Bs(n) + "a", n, "a", "ba", fuel) == None
    decreases fuel
  {
    var d := Bs(n) + "a";
    assert d[n..n + 1] == "a";
    if fuel > 0 {
      var d' := d[..n] + "ba" + d[n + 1..];
      assert d[..n] == Bs(n) && d[n + 1..] == [];
      assert d' == Bs(n + 1) + "a";
      SpinAsWritten(n + 1, fuel - 1);
    }
  }

  /**
   * ReplaceString as written never finishes on "a" with target "a" and
   * replacement "ba": it keeps finding the "a" it has just inserted. With an
   * empty target it never advances. And a replacement shorter than the target
   * makes it skip text: "aaaa" with "aa" -> "" leaves "aa".
   */
  lemma {:induction false} ReplaceAsWrittenDefects(fuel: nat, s: string)
    ensures ReplaceLoopAsWritten("a", 0, "a", "ba", fuel) == None
    ensures s != [] ==> ReplaceLoopAsWritten(s, 0, "", "", fuel) == None
    ensures ReplaceLoopAsWritten("aaaa", 0, "aa", "", 2) == Some("aa") && ReplaceAll("aaaa", "aa", "") == ""
  {
    assert Bs(0) + "a" == "a";
    SpinAsWritten(0, fuel);
    if s != [] {
      EmptyTargetSpins(s, fuel);
    }
    assert Find("aaaa", "aa", 0) == Some(0);
    assert ("aaaa"[..0] + "" + "aaaa"[2..]) == "aa";
    assert Find("aa", "aa", 2) == None;
    assert OccursAt("aaaa", "aa", 0) && OccursAt("aaaa", "aa", 2);
    assert ReplaceFrom("aaaa", "aa", "", 2) == "" + ReplaceFrom("aaaa", "aa", "", 4);
  }

  lemma {:induction false} EmptyTargetSpins(s: string, fuel: nat)
    ensures ReplaceLoopAsWritten(s, 0, "", "", fuel) == None
    decreases fuel
  {
    assert s[0..0] == "";
    if fuel > 0 {
      assert s[..0] + "" + s[0..] == s;
      EmptyTargetSpins(s, fuel - 1);
    }
  }

  /** The number of places of s holding c. */
  function Count(s: string, c: char): nat
  {
    if s == [] then 0 else (if s[0] == c then 1 else 0) + Count(s[1..], c)
  }

  lemma {:induction false} CountSplit(a: string, b: string, c: char)
    ensures Count(a + b, c) == Count(a, c) + Count(b, c)
  {
    if a != [] {
      assert (a + b)[1..] == a[1..] + b;
      CountSplit(a[1..], b, c);
    } else {
      assert a + b == b;
    }
  }

  /** A stretch free of c is copied as it is. */
  lemma {:induction false} ReplaceSkipsFree(s: string, i: nat, j: nat, c: char, r: string)
    requires i <= j <= |s| && forall k :: i <= k < j ==> s[k] != c
    ensures ReplaceFrom(s, [c], r, i) == s[i..j] + ReplaceFrom(s, [c], r, j)
    decreases j - i
  {
    if i < j {
      NoOneCharMatch(s, i, c);
      ReplaceAtMiss(s, [c], r, i);
      ReplaceSkipsFree(s, i + 1, j, c, r);
      SliceCons(s, i, j, ReplaceFrom(s, [c], r, j));
    } else {
      assert s[i..j] + ReplaceFrom(s, [c], r, j) == ReplaceFrom(s, [c], r, j);
    }
  }

  lemma {:induction false} NoOneCharMatch(s: string, i: nat, c: char)
    requires i < |s| && s[i] != c
    ensures !OccursAt(s, [c], i)
  {
    assert s[i..i + 1][0] == s[i];
  }

  lemma {:induction false} SliceCons(s: string, i: nat, j: nat, x: string)
    requires i < j <= |s|
    ensures [s[i]] + (s[i + 1..j] + x) == s[i..j] + x
  {
    assert s[i..j] == [s[i]] + s[i + 1..j];
  }

  /**
   * For a one-character target that does not recur in the replacement after
   * its first place, the loop as written agrees with ReplaceAll: the text it
   * rescans holds no target. This covers every step of the attribute escape.
   */
  lemma {:induction false} AsWrittenAgrees(dest: string, pos: nat, c: char, r: string, fuel: nat)
    requires pos <= |dest| && |r| >= 1 && forall k :: 1 <= k < |r| ==> r[k] != c
    requires fuel >= Count(dest[pos..], c)
    ensures ReplaceLoopAsWritten(dest, pos, [c], r, fuel) == Some(dest[..pos] + ReplaceFrom(dest, [c], r, pos))
    decreases fuel, 1
  {
    if Find(dest, [c], pos).None? {
      AgreeNoMatch(dest, pos, c, r, fuel);
    } else {
      var p := Find(dest, [c], pos).value;
      CountAfterMatch(dest, pos, p, c, r);
      AgreeSome(dest, pos, c, r, fuel, p);
    }
  }

  lemma {:induction false} AgreeNoMatch(dest: string, pos: nat, c: char, r: string, fuel: nat)
    requires pos <= |dest| && Find(dest, [c], pos).None?
    ensures ReplaceLoopAsWritten(dest, pos, [c], r, fuel) == Some(dest[..pos] + ReplaceFrom(dest, [c], r, pos))
  {
    FindNoneReplace(dest, [c], r, pos);
    assert dest == dest[..pos] + dest[pos..];
  }

  /** AsWrittenAgrees at a first match p: the recursive step. */
  lemma {:induction false} AgreeSome(dest: string, pos: nat, c: char, r: string, fuel: nat, p: nat)
    requires pos <= |dest| && |r| >= 1 && forall k :: 1 <= k < |r| ==> r[k] != c
    requires Find(dest, [c], pos) == Some(p) && p < |dest|
    requires fuel >= 1 && fuel - 1 >= Count((dest[..p] + r + dest[p + 1..])[p + 1..], c)
    ensures ReplaceLoopAsWritten(dest, pos, [c], r, fuel) == Some(dest[..pos] + ReplaceFrom(dest, [c], r, pos))
    decreases fuel, 0
  {
    var d' := dest[..p] + r + dest[p + 1..];
    AsWrittenAgrees(d', p + 1, c, r, fuel - 1);
    AgreeAtMatch(dest, pos, c, r, fuel, p);
  }

  /** The step of AsWrittenAgrees at a match p, given its claim for the string after the replacement. */
  lemma {:induction false} AgreeAtMatch(dest: string, pos: nat, c: char, r: string, fuel: nat, p: nat)
    requires pos <= |dest| && |r| >= 1 && forall k :: 1 <= k < |r| ==> r[k] != c
    requires Find(dest, [c], pos) == Some(p) && fuel >= 1
    requires var d' := dest[..p] + r + dest[p + 1..];
      ReplaceLoopAsWritten(d', p + 1, [c], r, fuel - 1) == Some(d'[..p + 1] + ReplaceFrom(d', [c], r, p + 1))
    ensures ReplaceLoopAsWritten(dest, pos, [c], r, fuel) == Some(dest[..pos] + ReplaceFrom(dest, [c], r, pos))
  {
    var t := [c];
    var d' := dest[..p] + r + dest[p + 1..];
    var tail := ReplaceFrom(dest, t, r, p + 1);
    assert ReplaceLoopAsWritten(dest, pos, t, r, fuel) == ReplaceLoopAsWritten(d', p + 1, t, r, fuel - 1);
    RescanTail(dest, p, c, r);
    FindSomeReplace(dest, t, r, pos, p);
    JoinAtMatch(dest, pos, p, r, tail);
  }

  lemma {:induction false} JoinAtMatch(dest: string, pos: nat, p: nat, r: string, tail: string)
    requires pos <= p <= |dest|
    ensures dest[..pos] + (dest[pos..p] + r + tail) == dest[..p] + r + tail
  {
    assert dest[..pos] + dest[pos..p] == dest[..p];
  }

  /**
   * After the loop as written replaces c at p by r and resumes at p + 1, the
   * text it rescans (the rest of r) holds no c, so what it goes on to build is
   * what ReplaceAll builds past the match.
   */
  lemma {:induction false} RescanTail(dest: string, p: nat, c: char, r: string)
    requires p < |dest| && |r| >= 1 && forall k :: 1 <= k < |r| ==> r[k] != c
    ensures var d' := dest[..p] + r + dest[p + 1..];
      d'[..p + 1] + ReplaceFrom(d', [c], r, p + 1) == dest[..p] + r + ReplaceFrom(dest, [c], r, p + 1)
  {
    var d' := dest[..p] + r + dest[p + 1..];
    SpliceParts(dest, p, c, r);
    ReplaceSkipsFree(d', p + 1, p + |r|, c, r);
    assert d'[p + |r|..] == dest[p + 1..];
    Assoc3(d'[..p + 1], d'[p + 1..p + |r|], ReplaceFrom(dest, [c], r, p + 1));
  }

  lemma {:induction false} Assoc3(a: string, b: string, x: string)
    ensures a + (b + x) == (a + b) + x
  {
  }

  /** The pieces of dest with r spliced in at p. */
  lemma {:induction false} SpliceParts(dest: string, p: nat, c: char, r: string)
    requires p < |dest| && |r| >= 1 && forall k :: 1 <= k < |r| ==> r[k] != c
    ensures var d' := dest[..p] + r + dest[p + 1..];
      |d'| == |dest| + |r| - 1
      && (forall k :: p + 1 <= k < p + |r| ==> d'[k] != c)
      && d'[..p + 1] + d'[p + 1..p + |r|] == dest[..p] + r
  {
    var d' := dest[..p] + r + dest[p + 1..];
    forall k | p + 1 <= k < p + |r| ensures d'[k] != c { assert d'[k] == r[k - p]; }
    assert d'[..p + 1] + d'[p + 1..p + |r|] == d'[..p + |r|];
  }

  /** A match of c at p, the first from pos: the loop as written is left with one c fewer to visit. */
  lemma {:induction false} CountAfterMatch(dest: string, pos: nat, p: nat, c: char, r: string)
    requires pos <= |dest| && |r| >= 1 && forall k :: 1 <= k < |r| ==> r[k] != c
    requires Find(dest, [c], pos) == Some(p)
    ensures Count(dest[pos..], c) >= 1
    ensures Count((dest[..p] + r + dest[p + 1..])[p + 1..], c) == Count(dest[pos..], c) - 1
  {
    FindChar(dest, pos, p, c);
    CountFromFirst(dest, pos, p, c);
    assert (dest[..p] + r + dest[p + 1..])[p + 1..] == r[1..] + dest[p + 1..];
    CountFree(r[1..], c);
    CountSplit(r[1..], dest[p + 1..], c);
  }

  /** The first single-character match from pos is the first c from pos. */
  lemma {:induction false} FindChar(dest: string, pos: nat, p: nat, c: char)
    requires pos <= |dest| && Find(dest, [c], pos) == Some(p)
    ensures p < |dest| && dest[p] == c && forall k :: pos <= k < p ==> dest[k] != c
  {
    assert dest[p] == c by { assert OccursAt(dest, [c], p); assert dest[p..p + 1] == [c]; }
    forall k | pos <= k < p ensures dest[k] != c {
      assert !OccursAt(dest, [c], k);
      assert dest[k..k + 1] == [dest[k]];
    }
  }

  /** With the first c from pos at p, the c's from pos are that one and those after p. */
  lemma {:induction false} CountFromFirst(dest: string, pos: nat, p: nat, c: char)
    requires pos <= p < |dest| && dest[p] == c && forall k :: pos <= k < p ==> dest[k] != c
    ensures Count(dest[pos..], c) == 1 + Count(dest[p + 1..], c)
  {
    assert dest[pos..] == dest[pos..p] + ([c] + dest[p + 1..]);
    CountFree(dest[pos..p], c);
    CountSplit(dest[pos..p], [c] + dest[p + 1..], c);
    assert ([c] + dest[p + 1..])[1..] == dest[p + 1..];
  }

  lemma {:induction false} CountFree(u: string, c: char)
    requires forall k :: 0 <= k < |u| ==> u[k] != c
    ensures Count(u, c) == 0
  {
    if u != [] { CountFree(u[1..], c); }
  }

  /** One round of the corrected ReplaceString: the text up to the resume point is final, the rest is still to scan. */
  lemma {:induction false} ReplaceRound(dest: string, pos: nat, t: string, r: string, p: nat)
    requires |t| > 0 && pos <= |dest| && Find(dest, t, pos) == Some(p)
    ensures p + |t| <= |dest|
    ensures var d' := dest[..p] + r + dest[p + |t|..];
      p + |r| <= |d'| && d'[..p + |r|] + ReplaceFrom(d', t, r, p + |r|) == dest[..pos] + ReplaceFrom(dest, t, r, pos)
  {
    FindSomeReplace(dest, t, r, pos, p);
    var d' := dest[..p] + r + dest[p + |t|..];
    assert d'[..p + |r|] == dest[..p] + r;
    assert d'[p + |r|..] == dest[p + |t|..];
    JoinAtMatch(dest, pos, p, r, ReplaceFrom(dest, t, r, p + |t|));
  }

  // ---------------------------------------------------------------------------
  // The string class

  /** Tstr: a std::basic_string of TChar with the helpers the record engine uses. */
  class Tstr {
    var s: string

    /** Tstr(const TChar*): the C string at p. */
    constructor (p: string)
      ensures s == CStr(p)
    {
      s := CStr(p);
    }

    function Length(): nat
      reads this
    {
      |s|
    }

    /** Truncate(n): shortens only when n is below the length. */
    method Truncate(n: nat)
      modifies this
      ensures s == if n < |old(s)| then old(s)[..n] else old(s)
    {
      if n < |s| {
        s := s[..n];
      }
    }

    /** Append(p, nLen): the first nLen characters at p. */
    method AppendN(p: string, n: nat)
      requires n <= |p|
      modifies this
      ensures s == old(s) + p[..n]
    {
      s := s + p[..n];
    }

    /** Append(p): the C string at p, found by walking to its NUL. */
    method Append(p: string)
      modifies this
      ensures s == old(s) + CStr(p)
    {
      var n := Strlen(p);
      s := s + p[..n];
    }

    /** TrimLeft: drops white space from the END of the string (the source's naming). */
    method TrimLeft()
      modifies this
      ensures s == DropTrailingSpaces(old(s))
    {
      while |s| > 0 && StringHelper.IsSpace(s[|s| - 1])
        invariant DropTrailingSpaces(s) == DropTrailingSpaces(old(s))
        decreases |s|
      {
        s := s[..|s| - 1];
      }
    }

    /** TrimRight: drops white space from the START, then re-reads the rest as a C string. */
    method TrimRight()
      modifies this
      ensures s == CStr(old(s)[LeadingSpaces(old(s))..])
    {
      var i := 0;
      assert s[0..] == s;
      while i < |s| && StringHelper.IsSpace(s[i])
        invariant s == old(s)
        invariant i <= |s| && LeadingSpaces(s) == i + LeadingSpaces(s[i..])
        decreases |s| - i
      {
        SkipOneSpace(s, i);
        i := i + 1;
      }
      assert LeadingSpaces(s[i..]) == 0;
      s := CStr(s[i..]);
    }

    /** Trim: TrimRight, then TrimLeft. */
    method Trim()
      modifies this
      ensures s == Trimmed(old(s))
    {
      TrimRight();
      TrimLeft();
    }

    /**
     * ReplaceString as written: replace the first t from pos on, then move
     * pos on by the length of t, until find fails. The loop need not end, so
     * fuel bounds its rounds and None stands for running out of them.
     */
    method ReplaceString(t: string, r: string, fuel: nat) returns (dest: Option<string>)
      ensures dest == ReplaceLoopAsWritten(s, 0, t, r, fuel)
    {
      var d := s;
      var pos: nat := 0;
      var n := fuel;
      while true
        invariant ReplaceLoopAsWritten(d, pos, t, r, n) == ReplaceLoopAsWritten(s, 0, t, r, fuel)
        decreases n
      {
        var stop, out, d', pos' := AsWrittenRound(d, pos, t, r, n);
        if stop {
          return out;
        }
        d, pos, n := d', pos', n - 1;
      }
    }

    /**
     * ReplaceString corrected to resume after the inserted replacement: every
     * non-overlapping t, scanning left to right, is replaced by r. An empty
     * target leaves the string as it is.
     */
    method ReplaceStringResuming(t: string, r: string) returns (dest: string)
      ensures |t| == 0 ==> dest == s
      ensures |t| > 0 ==> dest == ReplaceAll(s, t, r)
    {
      if |t| == 0 {
        return s;
      }
      dest := s;
      var pos: nat := 0;
      assert dest[0..] == dest;
      while true
        invariant pos <= |dest|
        invariant dest[..pos] + ReplaceFrom(dest, t, r, pos) == ReplaceAll(s, t, r)
        decreases |dest| - pos
      {
        var f := Find(dest, t, pos);
        if f.None? {
          FindNoneReplace(dest, t, r, pos);
          assert dest[..pos] + dest[pos..] == dest;
          return dest;
        }
        ReplaceRound(dest, pos, t, r, f.value);
        dest, pos := dest[..f.value] + r + dest[f.value + |t|..], f.value + |r|;
      }
    }

    /** Assign(n): the decimal text sh_itostr writes into a 256-character buffer. */
    method AssignInt(n: int, w: StringHelper.IntWidth)
      requires StringHelper.MinOf(w) <= n <= StringHelper.MaxOf(w)
      modifies this
      ensures s == StringHelper.IntText(n, w, 10)
    {
      var buffer := new char[256];
      var err := StringHelper.Itowcs(n, w, buffer, 0, 256, 10);
      StringHelper.IntTextShort(n, w);
      ghost var text := StringHelper.IntText(n, w, 10);
      assert err == 0;
      CLenAt(buffer[..], text);
      var len := Strlen(buffer[..]);
      s := buffer[..len];
    }
  }

  /** Skipping one leading space leaves one fewer to skip. */
  lemma {:induction false} SkipOneSpace(s: string, i: nat)
    requires i < |s| && StringHelper.IsSpace(s[i]) && LeadingSpaces(s) == i + LeadingSpaces(s[i..])
    ensures LeadingSpaces(s) == i + 1 + LeadingSpaces(s[i + 1..])
  {
    assert s[i..][1..] == s[i + 1..];
  }

  /** A buffer holding a NUL-free text and then a NUL is that C string. */
  lemma {:induction false} CLenAt(buf: string, text: string)
    requires |text| < |buf| && buf[..|text|] == text && buf[|text|] == '\0'
    requires forall k :: 0 <= k < |text| ==> text[k] != '\0'
    ensures CLen(buf) == |text| && buf[..CLen(buf)] == text
  {
  }

  // ---------------------------------------------------------------------------
  // MSG_NoXL

  /** The text "@d" stands for: argument d (1..4) as a C string, or a placeholder naming d. */
  function ArgText(d: char, args: seq<Option<string>>): string
    requires |args| == 4 && '1' <= d <= '9'
  {
    var n := d as int - '1' as int;
    if n >= 4 || args[n].None? then "<Missing Argument Text " + [d] + ">" else CStr(args[n].value)
  }

  /** The expansion of a message key k (a C string without its NUL). */
  function Expand(k: string, args: seq<Option<string>>): string
    requires |args| == 4
    decreases |k|
  {
    if k == [] then []
    else if k[0] != '@' then [k[0]] + Expand(k[1..], args)
    else if |k| > 1 && '1' <= k[1] <= '9' then ArgText(k[1], args) + Expand(k[2..], args)
    else if |k| > 1 && k[1] == '@' then "@" + Expand(k[2..], args)
    else "@" + Expand(k[1..], args)
  }

  /** MSG_NoXL: the key with @1..@4 substituted and "@@" turned into "@". */
  method MsgNoXL(key: string, args: seq<Option<string>>) returns (msg: string)
    requires |args| == 4
    ensures msg == Expand(CStr(key), args)
  {
    var klen := Strlen(key);
    var k := key[..klen];
    assert forall j :: 0 <= j < |k| ==> k[j] != '\0';
    msg := [];
    var i := 0;
    assert k[0..] == k;
    while StringHelper.At(k, i) != '\0'
      invariant i <= |k| && msg + Expand(k[i..], args) == Expand(k, args)
      decreases |k| - i
    {
      var piece, adv := MsgPiece(k, i, args);
      Assoc3(msg, piece, Expand(k[i + adv..], args));
      msg, i := msg + piece, i + adv;
    }
  }

  /** One round of the MSG_NoXL loop at k[i]: the text it appends and how far it moves in the key. */
  method MsgPiece(k: string, i: nat, args: seq<Option<string>>) returns (piece: string, adv: nat)
    requires |args| == 4 && i < |k| && (i + 1 < |k| ==> k[i + 1] != '\0')
    ensures 1 <= adv && i + adv <= |k|
    ensures Expand(k[i..], args) == piece + Expand(k[i + adv..], args)
  {
    var ch := k[i];
    var next := StringHelper.At(k, i + 1);
    if ch != '@' {
      ExpandChar(k, i, args);
      piece, adv := [ch], 1;
    } else if '1' <= next <= '9' {
      var n := next as int - '1' as int;
      if n >= 4 || args[n].None? {
        piece := "<Missing Argument Text " + [next] + ">";
      } else {
        var len := Strlen(args[n].value);
        piece := args[n].value[..len];
      }
      ExpandArgAt(k, i, args);
      adv := 2;
    } else if next == '@' {
      ExpandDoubleAt(k, i, args);
      piece, adv := "@", 2;
    } else {
      ExpandLoneAt(k, i, args);
      piece, adv := "@", 1;
    }
  }

  lemma {:induction false} ExpandChar(k: string, i: nat, args: seq<Option<string>>)
    requires |args| == 4 && i < |k| && k[i] != '@'
    ensures Expand(k[i..], args) == [k[i]] + Expand(k[i + 1..], args)
  {
    assert k[i..][1..] == k[i + 1..];
  }

  lemma {:induction false} ExpandArgAt(k: string, i: nat, args: seq<Option<string>>)
    requires |args| == 4 && i + 1 < |k| && k[i] == '@' && '1' <= k[i + 1] <= '9'
    ensures Expand(k[i..], args) == ArgText(k[i + 1], args) + Expand(k[i + 2..], args)
  {
    assert k[i..][2..] == k[i + 2..];
  }

  lemma {:induction false} ExpandDoubleAt(k: string, i: nat, args: seq<Option<string>>)
    requires |args| == 4 && i + 1 < |k| && k[i] == '@' && k[i + 1] == '@'
    ensures Expand(k[i..], args) == "@" + Expand(k[i + 2..], args)
  {
    assert k[i..][2..] == k[i + 2..];
  }

  lemma {:induction false} ExpandLoneAt(k: string, i: nat, args: seq<Option<string>>)
    requires |args| == 4 && i < |k| && k[i] == '@'
    requires i + 1 == |k| || (k[i + 1] != '@' && !('1' <= k[i + 1] <= '9'))
    ensures Expand(k[i..], args) == "@" + Expand(k[i + 1..], args)
  {
    assert k[i..][1..] == k[i + 1..];
  }

  /** A key without '@' is its own expansion. */
  lemma {:induction false} ExpandPlain(k: string, args: seq<Option<string>>)
    requires |args| == 4 && forall j :: 0 <= j < |k| ==> k[j] != '@'
    ensures Expand(k, args) == k
  {
    if k != [] {
      ExpandPlain(k[1..], args);
    }
  }

  /** s with every '@' doubled, the way a literal at sign is written in a key. */
  function QuoteAt(s: string): string
  {
    if s == [] then [] else (if s[0] == '@' then "@@" else [s[0]]) + QuoteAt(s[1..])
  }

  /** Doubling the at signs is undone by the expansion: "@@" reads as "@". */
  lemma {:induction false} ExpandQuoted(s: string, args: seq<Option<string>>)
    requires |args| == 4
    ensures Expand(QuoteAt(s), args) == s
  {
    if s != [] {
      var q := QuoteAt(s[1..]);
      ExpandQuoted(s[1..], args);
      if s[0] == '@' {
        assert QuoteAt(s) == "@@" + q;
        assert ("@@" + q)[2..] == q;
      } else {
        assert QuoteAt(s) == [s[0]] + q;
        assert ([s[0]] + q)[1..] == q;
      }
    }
  }

  /** "@d" is replaced by argument d when it is present, and by the placeholder otherwise. */
  lemma {:induction false} ExpandArg(d: char, rest: string, args: seq<Option<string>>)
    requires |args| == 4 && '1' <= d <= '9'
    ensures var n := d as int - '1' as int;
      Expand(['@', d] + rest, args) ==
        (if n < 4 && args[n].Some? then CStr(args[n].value) else "<Missing Argument Text " + [d] + ">")
        + Expand(rest, args)
  {
    assert (['@', d] + rest)[2..] == rest;
  }

  // ---------------------------------------------------------------------------
  // Narrow / wide conversion

  /** The unit of a NUL-terminated UTF-16 buffer at i; NUL at and beyond its end. */
  function WAt(w: seq<u16>, i: nat): u16
  {
    if i < |w| then w[i] else 0
  }

  /** The length of the UTF-16 C string at the start of w. */
  function WLen(w: seq<u16>): (n: nat)
    ensures n <= |w| && (n < |w| ==> w[n] == 0)
    ensures forall k :: 0 <= k < n ==> w[k] != 0
  {
    if |w| == 0 || w[0] == 0 then 0 else 1 + WLen(w[1..])
  }

  /** TStrLen over UTF-16 units. */
  method WStrlen(w: seq<u16>) returns (n: nat)
    ensures n == WLen(w)
  {
    n := 0;
    while WAt(w, n) != 0
      invariant n <= WLen(w)
      decreases |w| - n
    {
      n := n + 1;
    }
  }

  /** A UTF-16 unit narrowed on the GNU path: Latin-1 units as they are, any other as '?'. */
  function NarrowUnit(u: u16): char
  {
    if u >= 256 then '?' else u as char
  }

  function Narrowed(w: seq<u16>): (r: string)
  {
    seq(|w|, i requires 0 <= i < |w| => NarrowUnit(w[i]))
  }

  /** A narrow character as (unsigned char) turns it into a UTF-16 unit. */
  function WidenChar(c: char): u16
  {
    (c as int) % 256
  }

  function Widened(s: string): (r: seq<u16>)
  {
    seq(|s|, i requires 0 <= i < |s| => WidenChar(s[i]))
  }

  /**
   * ConvertString(AString&, const U16unit*, len): a null or empty source leaves
   * dest as it was; otherwise dest becomes the len units (the whole C string
   * when len < 0) narrowed one by one.
   */
  method NarrowString(dest: string, p: Option<seq<u16>>, len: int) returns (d: string)
    requires p.Some? && len >= 0 ==> len <= |p.value|
    ensures p.None? || WAt(p.value, 0) == 0 ==> d == dest
    ensures p.Some? && WAt(p.value, 0) != 0 ==>
      d == Narrowed(p.value[..if len < 0 then WLen(p.value) else len])
  {
    if p.None? || WAt(p.value, 0) == 0 {
      return dest;
    }
    var w := p.value;
    var n: nat;
    if len < 0 {
      n := WStrlen(w);
    } else {
      n := len;
    }
    var buf := new char[n](_ => ' ');
    for x := 0 to n
      invariant forall k :: 0 <= k < x ==> buf[k] == NarrowUnit(w[k])
    {
      if w[x] >= 256 {
        buf[x] := '?';
      } else {
        buf[x] := w[x] as char;
      }
    }
    d := buf[..];
    assert d == Narrowed(w[..n]);
  }

  /**
   * ConvertString(WString&, const char*, len): dest is cleared, then a non-null,
   * non-empty source contributes its len characters (its whole C string when
   * len < 0), each widened as an unsigned char.
   */
  method WideString(p: Option<string>, len: int) returns (d: seq<u16>)
    requires p.Some? && len >= 0 ==> len <= |p.value|
    ensures p.None? || StringHelper.At(p.value, 0) == '\0' ==> d == []
    ensures p.Some? && StringHelper.At(p.value, 0) != '\0' ==>
      d == Widened(p.value[..if len < 0 then CLen(p.value) else len])
  {
    d := [];
    if p.None? || StringHelper.At(p.value, 0) == '\0' {
      return;
    }
    var s := p.value;
    var n: nat;
    if len < 0 {
      n := Strlen(s);
    } else {
      n := len;
    }
    for x := 0 to n
      invariant |d| == x && forall k :: 0 <= k < x ==> d[k] == WidenChar(s[k])
    {
      d := d + [WidenChar(s[x])];
    }
    assert d == Widened(s[..n]);
  }

  /** Latin-1 text survives widening and narrowing unchanged. */
  lemma {:induction false} LatinRoundTrip(s: string)
    requires forall i :: 0 <= i < |s| ==> s[i] as int < 256
    ensures Narrowed(Widened(s)) == s
  {
    var w := Widened(s);
    forall i | 0 <= i < |s| ensures Narrowed(w)[i] == s[i] {
      assert w[i] == s[i] as int;
    }
  }

  /** Narrowing loses nothing exactly when every unit is Latin-1; any other unit comes back as '?'. */
  lemma {:induction false} NarrowLossless(w: seq<u16>)
    ensures Widened(Narrowed(w)) == w <==> forall i :: 0 <= i < |w| ==> w[i] < 256
    ensures forall i :: 0 <= i < |w| && w[i] >= 256 ==> Widened(Narrowed(w))[i] == '?' as int
  {
    var n := Narrowed(w);
    if forall i :: 0 <= i < |w| ==> w[i] < 256 {
      forall i | 0 <= i < |w| ensures Widened(n)[i] == w[i] {
        assert n[i] as int == w[i];
      }
    } else {
      var i :| 0 <= i < |w| && w[i] >= 256;
      assert Widened(n)[i] == '?' as int != w[i];
    }
  }

  // ---------------------------------------------------------------------------
  // Whitespace-compacting comparison

  /** s with every space outside double quotes removed; q says whether s starts inside quotes. */
  function Compact(s: string, q: bool): string
  {
    if s == [] then []
    else if !q && StringHelper.IsSpace(s[0]) then Compact(s[1..], q)
    else [s[0]] + Compact(s[1..], if s[0] == '"' then !q else q)
  }

  /** strcmp on two C strings: the unit difference at the first position where they differ (NUL past an end), else 0. */
  function LexDiff(a: string, b: string): int
    decreases |a|
  {
    if a == [] || b == [] || a[0] != b[0] then
      StringHelper.At(a, 0) as int - StringHelper.At(b, 0) as int
    else LexDiff(a[1..], b[1..])
  }

  predicate NoNul(s: string) { forall k :: 0 <= k < |s| ==> s[k] != '\0' }

  /** LexDiff is 0 exactly on equal C strings. */
  lemma {:induction false} LexDiffZero(a: string, b: string)
    requires NoNul(a) && NoNul(b)
    ensures LexDiff(a, b) == 0 <==> a == b
    decreases |a|
  {
    if a != [] && b != [] && a[0] == b[0] {
      LexDiffZero(a[1..], b[1..]);
      if a[1..] == b[1..] {
        assert a == [a[0]] + a[1..] && b == [b[0]] + b[1..];
      }
    } else if a == [] && b != [] {
      assert StringHelper.At(b, 0) != '\0';
    } else if a != [] && b == [] {
      assert StringHelper.At(a, 0) != '\0';
    }
  }

  /** Swapping the operands negates the result. */
  lemma {:induction false} LexDiffAntisymmetric(a: string, b: string)
    ensures LexDiff(b, a) == -LexDiff(a, b)
    decreases |a|
  {
    if a != [] && b != [] && a[0] == b[0] {
      LexDiffAntisymmetric(a[1..], b[1..]);
    }
  }

  /**
   * TCompare_StrCompactWhitespace::Compare as written, on the remaining C
   * strings a and b: the loop runs only while both have a unit left, so it
   * stops with 0 as soon as either is exhausted.
   */
  function CompactCompareAsWritten(a: string, b: string, q: bool): int
    decreases |a| + |b|
  {
    if a == [] || b == [] then 0
    else
      var a' := if q then a else a[LeadingSpaces(a)..];
      var b' := if q then b else b[LeadingSpaces(b)..];
      var ca, cb := StringHelper.At(a', 0), StringHelper.At(b', 0);
      if ca != cb then ca as int - cb as int
      else if a' == [] || b' == [] then 0
      else CompactCompareAsWritten(a'[1..], b'[1..], if ca == '"' then !q else q)
  }

  /** A string compares equal to any string it is a proper prefix of: "ab" against "a" gives 0. */
  lemma PrefixComparesEqual()
    ensures CompactCompareAsWritten("ab", "a", false) == 0
    ensures LexDiff(Compact("ab", false), Compact("a", false)) == 'b' as int
  {
    assert LeadingSpaces("ab") == 0 && LeadingSpaces("a") == 0;
    assert "ab"[1..] == "b" && "a"[1..] == "";
    assert Compact("b", false) == "b" by {
      assert "b"[1..] == "";
    }
    assert Compact("ab", false) == "ab" by {
      assert "ab" == ['a'] + "b";
    }
    assert Compact("a", false) == "a" by {
      assert "a"[1..] == "";
    }
    assert "ab"[1..] == "b" && "a"[1..] == [];
  }

  lemma {:induction false} CompactSkip(s: string, n: nat)
    requires n <= LeadingSpaces(s)
    ensures Compact(s, false) == Compact(s[n..], false)
    decreases n
  {
    if n > 0 {
      CompactSkip(s[1..], n - 1);
      assert s[1..][n - 1..] == s[n..];
    }
  }

  /** One of two strings is a prefix of the other. */
  predicate PrefixRelated(x: string, y: string)
  {
    (|x| <= |y| && x == y[..|x|]) || (|y| <= |x| && y == x[..|y|])
  }

  /**
   * Where the as-written compare returns nonzero it agrees with strcmp on the
   * compacted strings; where it returns 0 one compacted string is a prefix of
   * the other.
   */
  lemma {:induction false} AsWrittenAgainstCompact(a: string, b: string, q: bool)
    requires NoNul(a) && NoNul(b)
    ensures CompactCompareAsWritten(a, b, q) != 0 ==>
      CompactCompareAsWritten(a, b, q) == LexDiff(Compact(a, q), Compact(b, q))
    ensures CompactCompareAsWritten(a, b, q) == 0 ==> PrefixRelated(Compact(a, q), Compact(b, q))
    decreases |a| + |b|
  {
    if a != [] && b != [] {
      var a' := if q then a else a[LeadingSpaces(a)..];
      var b' := if q then b else b[LeadingSpaces(b)..];
      SkipHead(a, q);
      SkipHead(b, q);
      var ca, cb := StringHelper.At(a', 0), StringHelper.At(b', 0);
      if ca != cb {
        MismatchDiff(a', b', q);
      } else if a' != [] && b' != [] {
        var q' := if ca == '"' then !q else q;
        CompactHead(a', q);
        CompactHead(b', q);
        ConsRelated(ca, Compact(a'[1..], q'), Compact(b'[1..], q'));
        NoNulSuffix(a, |a| - |a'| + 1);
        NoNulSuffix(b, |b| - |b'| + 1);
        assert a[|a| - |a'| + 1..] == a'[1..] && b[|b| - |b'| + 1..] == b'[1..];
        AsWrittenAgainstCompact(a'[1..], b'[1..], q');
      } else {
        assert a' == [] && b' == [];
      }
    }
  }

  lemma NoNulSuffix(s: string, n: nat)
    requires NoNul(s) && n <= |s|
    ensures NoNul(s[n..])
  {
    assert forall k :: 0 <= k < |s| - n ==> s[n..][k] == s[n + k];
  }

  /** Skipping the leading spaces outside quotes does not change the compacted string. */
  lemma SkipHead(s: string, q: bool)
    ensures var s' := if q then s else s[LeadingSpaces(s)..];
      Compact(s', q) == Compact(s, q) && (!q && s' != [] ==> !StringHelper.IsSpace(s'[0]))
  {
    if !q {
      CompactSkip(s, LeadingSpaces(s));
    }
  }

  /** A compacted string starts with the first unit of a string whose first unit is kept. */
  lemma CompactHead(s: string, q: bool)
    requires s != [] && (!q ==> !StringHelper.IsSpace(s[0]))
    ensures Compact(s, q) == [s[0]] + Compact(s[1..], if s[0] == '"' then !q else q)
  {
  }

  lemma ConsRelated(c: char, x: string, y: string)
    ensures LexDiff([c] + x, [c] + y) == LexDiff(x, y)
    ensures PrefixRelated([c] + x, [c] + y) <==> PrefixRelated(x, y)
  {
    assert ([c] + x)[1..] == x && ([c] + y)[1..] == y;
    var cx, cy := [c] + x, [c] + y;
    if |x| <= |y| {
      assert cy[..|cx|] == [c] + y[..|x|];
    }
    if |y| <= |x| {
      assert cx[..|cy|] == [c] + x[..|y|];
    }
  }

  /** Where the first kept units differ, so do the compacted strings, by the same amount. */
  lemma MismatchDiff(a: string, b: string, q: bool)
    requires !q ==> (a == [] || !StringHelper.IsSpace(a[0])) && (b == [] || !StringHelper.IsSpace(b[0]))
    requires StringHelper.At(a, 0) != StringHelper.At(b, 0)
    ensures LexDiff(Compact(a, q), Compact(b, q)) == StringHelper.At(a, 0) as int - StringHelper.At(b, 0) as int
  {
    if a != [] {
      CompactHead(a, q);
    }
    if b != [] {
      CompactHead(b, q);
    }
  }

  /**
   * TCompare_StrCompactWhitespace::Compare: past the spaces outside double
   * quotes, the first units that differ decide; the loop runs only while
   * both strings have a unit left.
   */
  method CompareCompact(pA: string, pB: string) returns (r: int)
    ensures r == CompactCompareAsWritten(CStr(pA), CStr(pB), false)
  {
    var la := Strlen(pA);
    var lb := Strlen(pB);
    var a, b := pA[..la], pB[..lb];
    assert NoNul(a) && NoNul(b);
    ghost var goal := CompactCompareAsWritten(a, b, false);
    var q := false;
    while a != [] && b != []
      invariant NoNul(a) && NoNul(b)
      invariant CompactCompareAsWritten(a, b, q) == goal
      decreases |a|
    {
      if !q {
        a := SkipSpaces(a);
        b := SkipSpaces(b);
      }
      var ca, cb := StringHelper.At(a, 0), StringHelper.At(b, 0);
      if ca != cb {
        return ca as int - cb as int;
      }
      if ca == '\0' {
        return 0;
      }
      NoNulSuffix(a, 1);
      NoNulSuffix(b, 1);
      a, b := a[1..], b[1..];
      if ca == '"' {
        q := !q;
      }
    }
    return 0;
  }

  /**
   * The comparison as intended: strcmp on the two C strings with the spaces
   * outside double quotes removed. The loop goes on until a difference or
   * until both strings end together; a and b are what pA and pB point at.
   */
  method CompareCompactToEnd(pA: string, pB: string) returns (r: int)
    ensures r == LexDiff(Compact(CStr(pA), false), Compact(CStr(pB), false))
  {
    var la := Strlen(pA);
    var lb := Strlen(pB);
    var a, b := pA[..la], pB[..lb];
    assert NoNul(a) && NoNul(b);
    ghost var goal := LexDiff(Compact(a, false), Compact(b, false));
    var q := false;
    while true
      invariant NoNul(a) && NoNul(b)
      invariant LexDiff(Compact(a, q), Compact(b, q)) == goal
      decreases |a|
    {
      if !q {
        a := SkipSpaces(a);
        b := SkipSpaces(b);
      }
      var ca, cb := StringHelper.At(a, 0), StringHelper.At(b, 0);
      if ca != cb {
        MismatchDiff(a, b, q);
        return ca as int - cb as int;
      }
      if ca == '\0' {
        assert a == [] && b == [];
        return 0;
      }
      SameHeadStep(a, b, q);
      a, b := a[1..], b[1..];
      if ca == '"' {
        q := !q;
      }
    }
  }

  /** Equal kept first units leave the comparison of the compacted rests, with quotes toggled alike. */
  lemma SameHeadStep(x: string, y: string, q: bool)
    requires x != [] && y != [] && x[0] == y[0]
    requires !q ==> !StringHelper.IsSpace(x[0])
    ensures var q' := if x[0] == '"' then !q else q;
      LexDiff(Compact(x, q), Compact(y, q)) == LexDiff(Compact(x[1..], q'), Compact(y[1..], q'))
  {
    var q' := if x[0] == '"' then !q else q;
    CompactHead(x, q);
    CompactHead(y, q);
    ConsRelated(x[0], Compact(x[1..], q'), Compact(y[1..], q'));
  }

  /** The inner skip loop: advance past the white space at the start of a. */
  method SkipSpaces(a: string) returns (t: string)
    requires NoNul(a)
    ensures NoNul(t) && |t| <= |a| && (t != [] ==> !StringHelper.IsSpace(t[0]))
    ensures Compact(t, false) == Compact(a, false)
    ensures t == a[LeadingSpaces(a)..]
  {
    t := a;
    var i: nat := 0;
    assert a[0..] == a;
    while StringHelper.At(t, 0) != '\0' && StringHelper.IsSpace(StringHelper.At(t, 0))
      invariant NoNul(t) && |t| <= |a| && i <= |a| && t == a[i..]
      invariant LeadingSpaces(a) == i + LeadingSpaces(t)
      invariant Compact(t, false) == Compact(a, false)
      decreases |t|
    {
      SkipOneSpace(a, i);
      assert a[i..][1..] == a[i + 1..];
      t, i := t[1..], i + 1;
    }
  }

  // ---------------------------------------------------------------------------
  // BlobDataRead: a cursor over a blob

  const PastEndOfBlob: string := "Internal Error: Attempt to read past the end of a blob."

  /** A read cursor over the bytes of a blob; next is how far it has been read. */
  class BlobDataRead {
    const blob: seq<byte>
    var next: nat

    predicate Valid()
      reads this
    {
      next <= |blob|
    }

    /** The bytes not yet read. */
    function Remaining(): (r: seq<byte>)
      reads this
      requires Valid()
    {
      blob[next..]
    }

    constructor(blob: seq<byte>)
      ensures Valid() && this.blob == blob && next == 0
    {
      this.blob := blob;
      next := 0;
    }

    function IsEof(): (e: bool)
      reads this
      requires Valid()
      ensures e <==> Remaining() == []
    {
      next >= |blob|
    }

    /** Copies the next n bytes out of the blob; reading past its end is an error and moves nothing. */
    method Read(n: nat) returns (r: Result<seq<byte>>)
      requires Valid() && n < 0x1_0000_0000
      modifies this
      ensures Valid()
      ensures old(next) + n > |blob| ==> r == Err(PastEndOfBlob) && next == old(next)
      ensures old(next) + n <= |blob| ==> r.Ok? && |r.value| == n && next == old(next) + n
      ensures r.Ok? ==> old(Remaining()) == r.value + Remaining()
    {
      if next + n > |blob| {
        return Err(PastEndOfBlob);
      }
      r := Ok(blob[next..next + n]);
      assert blob[next..] == blob[next..next + n] + blob[next + n..];
      next := next + n;
    }

    /** Like Read, but hands back the offset of the n bytes instead of a copy. */
    method Get(n: nat) returns (r: Result<nat>)
      requires Valid() && n < 0x1_0000_0000
      modifies this
      ensures Valid()
      ensures old(next) + n > |blob| ==> r == Err(PastEndOfBlob) && next == old(next)
      ensures old(next) + n <= |blob| ==> r == Ok(old(next)) && next == old(next) + n
    {
      if next + n > |blob| {
        return Err(PastEndOfBlob);
      }
      r := Ok(next);
      next := next + n;
    }
  }
}
