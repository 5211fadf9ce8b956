// The naming half of RecordInfo::ValidateFieldName: how a requested field
// name is prepared, which names are tried when it is taken, and how the map
// from names (compared without case) to field numbers is kept. RecordInfo's
// method is proved against Validate here.

module FieldNames {
  import opened Wrappers
  import opened FieldSchemas
  import SrcLib
  import StringHelper

  /** numDupsToTry: the 999th generated name is not tried. */
  const NumDupsToTry: nat := 999

  predicate IsAlpha(c: char) { 'A' <= c <= 'Z' || 'a' <= c <= 'z' }
  predicate IsDigit(c: char) { '0' <= c <= '9' }
  predicate IsAlnum(c: char) { IsAlpha(c) || IsDigit(c) }

  function Min(a: nat, b: nat): nat { if a <= b then a else b }
  function Max(a: nat, b: nat): nat { if a <= b then b else a }

  /** String().Assign(int) of a non-negative number. */
  function Decimal(n: nat): (d: string)
    ensures d != [] && SrcLib.NoNul(d)
  {
    StringHelper.DecimalDigits(n);
    StringHelper.Digits(n, 10)
  }

  // ---------------------------------------------------------------------------
  // The requested name

  /** The strict-naming pass: every character before the first NUL that is not an ASCII letter or digit becomes '_'. */
  function Sanitize(s: string): (t: string)
    ensures |t| == |s|
    ensures SrcLib.NoNul(s) ==> forall i :: 0 <= i < |t| ==> IsAlnum(t[i]) || t[i] == '_'
    ensures forall i :: 0 <= i < |s| && (IsAlnum(s[i]) || s[i] == '_') ==> t[i] == s[i]
  {
    if s == [] then []
    else if s[0] == '\0' then s
    else
      var rest := Sanitize(s[1..]);
      assert forall i :: 1 <= i < |s| ==> s[1..][i - 1] == s[i];
      [if IsAlnum(s[0]) then s[0] else '_'] + rest
  }

  /** What strict naming leaves: letters, digits and '_', never a digit first. */
  predicate Clean(s: string)
  {
    (forall i :: 0 <= i < |s| ==> IsAlnum(s[i]) || s[i] == '_') && (s != [] ==> !IsDigit(s[0]))
  }

  /**
   * The name as the first candidate: "Field_<n+1>" for an empty name, a '_'
   * in front under strict naming when it does not start with a letter or
   * '_', cut to the length limit, and cleaned under strict naming.
   */
  function Prepared(name: string, numFields: nat, strict: bool, maxLen: nat): (s: string)
    ensures |s| <= maxLen
    ensures maxLen >= 1 ==> s != []
    ensures strict && SrcLib.NoNul(name) ==> Clean(s)
    ensures !strict && name != [] ==> s == name[..Min(|name|, maxLen)]
  {
    var a := if name == [] then "Field_" + Decimal(numFields + 1) else name;
    var b := if strict && !IsAlpha(a[0]) && a[0] != '_' then "_" + a else a;
    var t := b[..Min(|b|, maxLen)];
    if strict then
      assert t != [] ==> t[0] == b[0] && (IsAlpha(t[0]) || t[0] == '_');
      Sanitize(t)
    else t
  }

  /** A cleaned name is clean already: sanitizing twice is sanitizing once. */
  lemma {:induction false} SanitizeTwice(s: string)
    ensures Sanitize(Sanitize(s)) == Sanitize(s)
  {
    if s != [] && s[0] != '\0' {
      SanitizeTwice(s[1..]);
      var t := Sanitize(s);
      assert t[1..] == Sanitize(s[1..]);
    }
  }

  /** Preparing a prepared name again gives it back: a displaced field keeps its original name verbatim. */
  lemma PreparedStable(name: string, k: nat, j: nat, strict: bool, maxLen: nat)
    requires maxLen >= 1
    ensures Prepared(Prepared(name, k, strict, maxLen), j, strict, maxLen) == Prepared(name, k, strict, maxLen)
  {
    var s := Prepared(name, k, strict, maxLen);
    assert s[..Min(|s|, maxLen)] == s;
    if strict {
      var a := if name == [] then "Field_" + Decimal(k + 1) else name;
      var b := if !IsAlpha(a[0]) && a[0] != '_' then "_" + a else a;
      var t := b[..Min(|b|, maxLen)];
      assert s == Sanitize(t) && t[0] == b[0];
      SanitizeTwice(t);
    }
  }

  // ---------------------------------------------------------------------------
  // Generated names

  /** The state of the duplicate loop: root, counter, and the two flags. */
  datatype Gen = Gen(root: string, next: nat, multiDigitOk: bool, append9: bool)

  /**
   * The first duplicate fixes the root: a name ending in one digit from 2 to
   * 8 after a non-digit continues from that digit; one ending in another
   * digit gets '_' and a counter of its own; any other name gets digits
   * right after it.
   */
  function Start(s: string): (g: Gen)
    requires s != []
  {
    var n := |s|;
    if n >= 2 && !IsDigit(s[n - 2]) && '2' <= s[n - 1] <= '8' then
      Gen(s[..n - 1], s[n - 1] as int - '0' as int, false, true)
    else if IsDigit(s[n - 1]) then Gen(s + "_", 1, true, false)
    else Gen(s, 1, false, true)
  }

  /** ++nNextNum; a single digit that reaches 10 becomes "9_" and a counter from 2. */
  function Advance(g: Gen): (h: Gen)
  {
    var m := g.next + 1;
    if m == 10 && !g.multiDigitOk then
      Gen(g.root + (if g.append9 then "9" else "") + "_", 2, true, g.append9)
    else g.(next := m)
  }

  /** The loop state after j attempts. */
  function Nth(g: Gen, j: nat): Gen
  {
    if j == 0 then g else Advance(Nth(g, j - 1))
  }

  /**
   * The candidate: the root cut to leave room for the counter, then the
   * counter. The room is computed unsigned, so a counter longer than the
   * limit leaves the root whole.
   */
  function Candidate(g: Gen, maxLen: nat): (c: string)
    ensures |Decimal(g.next)| <= maxLen ==> |c| <= maxLen
    ensures |g.root| + |Decimal(g.next)| <= maxLen ==> c == g.root + Decimal(g.next)
    ensures |Decimal(g.next)| <= |c| && c[|c| - |Decimal(g.next)|..] == Decimal(g.next)
  {
    var d := Decimal(g.next);
    var keep := if |d| <= maxLen then Min(|g.root|, maxLen - |d|) else |g.root|;
    var c := g.root[..keep] + d;
    assert c[|c| - |d|..] == d;
    c
  }

  /** The name of the j-th attempt from loop state g0. */
  function Attempt(g0: Gen, j: nat, maxLen: nat): string
  {
    Candidate(Nth(g0, j), maxLen)
  }

  /** The loop from its k-th attempt on: the first candidate not in the map, or None once 999 is reached. */
  function Search(nums: map<string, nat>, g: Gen, k: nat, maxLen: nat): (r: Option<string>)
    requires 1 <= k
    ensures r.Some? ==> NameKey(r.value) !in nums
    decreases NumDupsToTry - k
  {
    if k >= NumDupsToTry then None
    else
      var h := Advance(g);
      var c := Candidate(h, maxLen);
      if NameKey(c) !in nums then Some(c) else Search(nums, h, k + 1, maxLen)
  }

  /** Attempts k up to j (excluded) all give names already in the map. */
  predicate TakenFrom(nums: map<string, nat>, g0: Gen, k: nat, j: nat, maxLen: nat)
  {
    forall i :: k <= i < j ==> NameKey(Attempt(g0, i, maxLen)) in nums
  }

  /**
   * The search from attempt k yields the first free attempt j, with every
   * attempt from k to j taken, or nothing exactly when attempts k to 998 are
   * all taken.
   */
  lemma {:induction false} SearchFirstFree(nums: map<string, nat>, g0: Gen, k: nat, maxLen: nat) returns (j: nat)
    requires 1 <= k
    ensures var r := Search(nums, Nth(g0, k - 1), k, maxLen);
      (r.None? <==> TakenFrom(nums, g0, k, NumDupsToTry, maxLen))
      && (r.Some? ==> k <= j < NumDupsToTry && r.value == Attempt(g0, j, maxLen) && TakenFrom(nums, g0, k, j, maxLen))
    decreases NumDupsToTry - k
  {
    j := k;
    if k < NumDupsToTry {
      var r := Search(nums, Nth(g0, k - 1), k, maxLen);
      var a := Attempt(g0, k, maxLen);
      SearchStep(nums, g0, k, maxLen);
      TakenStep(nums, g0, k, NumDupsToTry, maxLen);
      if NameKey(a) in nums {
        var r' := Search(nums, Nth(g0, k), k + 1, maxLen);
        assert r == r';
        j := SearchFirstFree(nums, g0, k + 1, maxLen);
        assert Nth(g0, k + 1 - 1) == Nth(g0, k);
        if r'.Some? {
          TakenStep(nums, g0, k, j, maxLen);
        }
      } else {
        assert r == Some(a);
      }
    }
  }

  /** One turn of the search: attempt k, then the search from k + 1. */
  lemma SearchStep(nums: map<string, nat>, g0: Gen, k: nat, maxLen: nat)
    requires 1 <= k < NumDupsToTry
    ensures Search(nums, Nth(g0, k - 1), k, maxLen)
      == if NameKey(Attempt(g0, k, maxLen)) !in nums then Some(Attempt(g0, k, maxLen)) else Search(nums, Nth(g0, k), k + 1, maxLen)
  {
    assert Advance(Nth(g0, k - 1)) == Nth(g0, k);
  }

  /** Attempts k to j are taken when attempt k is and those after it are. */
  lemma TakenStep(nums: map<string, nat>, g0: Gen, k: nat, j: nat, maxLen: nat)
    requires k < j
    ensures TakenFrom(nums, g0, k, j, maxLen) <==> NameKey(Attempt(g0, k, maxLen)) in nums && TakenFrom(nums, g0, k + 1, j, maxLen)
  {
  }

  // ---------------------------------------------------------------------------
  // The order of generated names

  /**
   * The attempts after a name not ending in a digit are name2 to name9, then
   * name9_2, name9_3, and so on.
   */
  lemma {:induction false} PlainSequence(s: string, j: nat)
    requires s != [] && !IsDigit(s[|s| - 1]) && 1 <= j
    ensures Nth(Start(s), j) == if j <= 8 then Gen(s, j + 1, false, true) else Gen(s + "9_", j - 7, true, true)
  {
    if j > 1 {
      PlainSequence(s, j - 1);
      if j == 9 {
        assert s + "9" + "_" == s + "9_";
      }
    }
  }

  /**
   * After root + d for a single digit d from 2 to 8 the attempts are
   * root(d+1) to root9, then root9_2, root9_3, and so on.
   */
  lemma {:induction false} DigitSequence(s: string, j: nat)
    requires |s| >= 2 && !IsDigit(s[|s| - 2]) && '2' <= s[|s| - 1] <= '8' && 1 <= j
    ensures var d := s[|s| - 1] as int - '0' as int; var root := s[..|s| - 1];
      Nth(Start(s), j) == if d + j <= 9 then Gen(root, d + j, false, true) else Gen(root + "9_", d + j - 8, true, true)
  {
    var d := s[|s| - 1] as int - '0' as int;
    var root := s[..|s| - 1];
    if j > 1 {
      DigitSequence(s, j - 1);
      if d + j == 10 {
        assert root + "9" + "_" == root + "9_";
      }
    }
  }

  /** After a name ending in any other digit the attempts are name_2, name_3, and so on. */
  lemma {:induction false} UnderscoreSequence(s: string, j: nat)
    requires s != [] && IsDigit(s[|s| - 1]) && !(|s| >= 2 && !IsDigit(s[|s| - 2]) && '2' <= s[|s| - 1] <= '8')
    ensures Nth(Start(s), j) == Gen(s + "_", j + 1, true, false)
  {
    if j > 0 {
      UnderscoreSequence(s, j - 1);
    }
  }

  lemma ShortRoot(g: Gen, maxLen: nat)
    requires |g.root| + |Decimal(g.next)| <= maxLen
    ensures Candidate(g, maxLen) == g.root + Decimal(g.next)
  {
  }

  // ---------------------------------------------------------------------------
  // Length of generated names

  /** The counter never passes the number of attempts, or 9 while it is a single digit. */
  predicate CounterBound(g: Gen, k: nat)
  {
    1 <= g.next && (if g.multiDigitOk then g.next <= k else g.next <= 9)
  }

  lemma {:induction false} DecimalAtMost3(u: nat)
    requires u < 1000
    ensures |Decimal(u)| <= 3
  {
    assert StringHelper.Pow10(3) == 1000 by {
      assert StringHelper.Pow10(1) == 10;
      assert StringHelper.Pow10(2) == 100;
    }
    StringHelper.DecimalLength(u, 3);
  }

  /** A generated name is never longer than a limit of at least 3 characters. */
  lemma {:induction false} SearchFits(nums: map<string, nat>, g: Gen, k: nat, maxLen: nat)
    requires 1 <= k && CounterBound(g, k) && maxLen >= 3
    ensures var r := Search(nums, g, k, maxLen); r.Some? ==> |r.value| <= maxLen
    decreases NumDupsToTry - k
  {
    if k < NumDupsToTry {
      var h := Advance(g);
      assert CounterBound(h, k + 1);
      DecimalAtMost3(h.next);
      SearchFits(nums, h, k + 1, maxLen);
    }
  }

  lemma StartBound(s: string)
    requires s != []
    ensures CounterBound(Start(s), 1)
  {
  }

  /**
   * Below 3 the unsigned room wraps: with a limit of 1, a root "A9_" and the
   * counter at 10, the candidate is "A9_10".
   */
  lemma ShortLimitOverflow()
    ensures Candidate(Gen("A9_", 10, true, true), 1) == "A9_10"
  {
    var d := Decimal(10);
    StringHelper.DigitsStep(10, 10);
    StringHelper.DigitsStep(1, 10);
    assert d == "10";
  }

  // ---------------------------------------------------------------------------
  // The naming state

  /** Field names, the names each field asked for, and the map from names (without case) to field numbers. */
  datatype Names = Names(names: seq<string>, originals: seq<string>, nums: map<string, nat>)

  /** The limit and strictness of a RecordInfo, and whether the rename branch rebinds the name it takes. */
  datatype Config = Config(maxLen: nat, strict: bool, overwrite: bool)

  /** A name given: the new state, the name, and whether the duplicate warning is due. */
  datatype Outcome = Outcome(st: Names, name: string, warned: bool)

  /** m_vOriginalFieldNames, grown with empty names up to field n, with s at n. */
  function Remember(originals: seq<string>, n: nat, s: string): (o: seq<string>)
    ensures |o| == Max(|originals|, n + 1) && o[n] == s
    ensures forall j :: 0 <= j < |originals| && j != n ==> o[j] == originals[j]
  {
    (if n < |originals| then originals else originals + seq(n + 1 - |originals|, _ => ""))[n := s]
  }

  /**
   * Every entry is a field number with an original name; one beyond the
   * first len fields is keyed by that field's original name.
   */
  predicate Bounded(st: Names, len: nat)
  {
    forall k :: k in st.nums ==>
      st.nums[k] < |st.originals| && (st.nums[k] < len || k == NameKey(st.originals[st.nums[k]]))
  }

  function NoUniqueName(original: string, n: nat): string
  {
    "Could not generate a unique name for field <" + original + ">, number " + Decimal(n + 1)
    + ", after attempting " + Decimal(NumDupsToTry) + " generated names"
  }

  const RenameChainTooLong: string := "Field renames chained further than the number of fields"

  /**
   * Outside field n, every original of a is kept in b, or prepared again
   * (the name a displaced field asked for, which the rename chain passes
   * back through the naming).
   */
  predicate Refreshed(a: seq<string>, b: seq<string>, n: nat, numFields: nat, c: Config)
  {
    |a| <= |b| &&
    forall j :: 0 <= j < |a| && j != n ==> b[j] == a[j] || b[j] == Prepared(a[j], numFields, c.strict, c.maxLen)
  }

  /** What the entry of the first candidate's key must satisfy for the rename branch to act. */
  predicate Displaces(st: Names, o: seq<string>, s: string)
  {
    NameKey(s) in st.nums && st.nums[NameKey(s)] < |o| && !SameName(s, o[st.nums[NameKey(s)]])
  }

  /**
   * ValidateFieldName(name, n, warn). A free name is entered for n. A name
   * another field was given by a duplicate rename goes to n, and that field
   * is named again from its own original name, without a warning. Otherwise
   * generated names are tried; the warning is due when warn is set. fuel
   * bounds the chain of renames.
   */
  function Validate(c: Config, st: Names, name: string, n: nat, warn: bool, fuel: nat): (r: Result<Outcome>)
    requires c.maxLen >= 1 && n <= |st.names| && Bounded(st, |st.names|)
    requires n == |st.names| ==> forall k :: k in st.nums ==> st.nums[k] != n
    ensures r.Ok? ==> var t := r.value.st;
      |t.names| == |st.names| && |t.originals| == Max(|st.originals|, n + 1)
      && Bounded(t, Max(|st.names|, n + 1)) && (r.value.warned ==> warn)
    decreases fuel, 1
  {
    var s := Prepared(name, |st.names|, c.strict, c.maxLen);
    var o := Remember(st.originals, n, s);
    if NameKey(s) !in st.nums then Ok(Enter(st, o, n, s, false))
    else if Displaces(st, o, s) then
      if fuel == 0 then Err(RenameChainTooLong) else Rename(c, st, o, n, s, fuel)
    else Generate(st, o, name, n, s, warn, c.maxLen)
  }

  /** m_mapFieldNums.insert of a name not in the map, with the originals updated. */
  function Enter(st: Names, o: seq<string>, n: nat, name: string, warned: bool): (out: Outcome)
    requires |o| == Max(|st.originals|, n + 1) && Bounded(st, |st.names|)
    requires forall j :: 0 <= j < |st.originals| && j != n ==> o[j] == st.originals[j]
    ensures Bounded(out.st, Max(|st.names|, n + 1)) && |out.st.originals| == |o| && out.name == name
  {
    Outcome(Names(st.names, o, st.nums[NameKey(name) := n]), name, warned)
  }

  /** The duplicate loop: the first free generated name is entered, or the exception after 998 attempts. */
  function Generate(st: Names, o: seq<string>, name: string, n: nat, s: string, warn: bool, maxLen: nat): (r: Result<Outcome>)
    requires s != [] && |o| == Max(|st.originals|, n + 1) && Bounded(st, |st.names|)
    requires forall j :: 0 <= j < |st.originals| && j != n ==> o[j] == st.originals[j]
    ensures r.Ok? ==> (Bounded(r.value.st, Max(|st.names|, n + 1)) && |r.value.st.originals| == |o|
      && r.value.st.names == st.names && NameKey(r.value.name) !in st.nums)
  {
    var found := Search(st.nums, Start(s), 1, maxLen);
    if found.None? then Err(NoUniqueName(name, n)) else Ok(Enter(st, o, n, found.value, warn))
  }

  /** The rename branch: n keeps s, and the field that had s is named again from its original name. */
  function Rename(c: Config, st: Names, o: seq<string>, n: nat, s: string, fuel: nat): (r: Result<Outcome>)
    requires c.maxLen >= 1 && n <= |st.names| && 1 <= fuel && Bounded(st, |st.names|)
    requires |o| == Max(|st.originals|, n + 1) && o[n] == s && Displaces(st, o, s)
    requires forall j :: 0 <= j < |st.originals| && j != n ==> o[j] == st.originals[j]
    requires n == |st.names| ==> forall k :: k in st.nums ==> st.nums[k] != n
    ensures r.Ok? ==> var t := r.value.st;
      |t.names| == |st.names| && |t.originals| == |o| && Bounded(t, Max(|st.names|, n + 1))
      && r.value.name == s
    decreases fuel, 0
  {
    var p := st.nums[NameKey(s)];
    var st1 := Names(st.names, o, if c.overwrite then st.nums[NameKey(s) := n] else st.nums);
    assert Bounded(st1, |st.names|);
    var inner := Validate(c, st1, o[p], p, false, fuel - 1);
    if inner.Err? then Err(inner.msg)
    else Ok(Outcome(Named(inner.value.st, p, inner.value.name), s, false))
  }

  /** The state after the caller gives field n its name (SetFieldName, or push_back for a new field). */
  function Named(t: Names, n: nat, name: string): (u: Names)
    requires n <= |t.names|
    ensures |u.names| == Max(|t.names|, n + 1) && u.names[n] == name
    ensures forall i :: 0 <= i < |t.names| && i != n ==> u.names[i] == t.names[i]
    ensures u.originals == t.originals && u.nums == t.nums
  {
    t.(names := if n < |t.names| then t.names[n := name] else t.names + [name])
  }

  /**
   * Naming field n records the name it asked for, prepared, as its
   * original; every other original is kept, or prepared again when the
   * rename chain named that field anew.
   */
  lemma {:induction false} ValidateRemembers(c: Config, st: Names, name: string, n: nat, warn: bool, fuel: nat)
    requires c.maxLen >= 1 && n <= |st.names| && Bounded(st, |st.names|)
    requires n == |st.names| ==> forall k :: k in st.nums ==> st.nums[k] != n
    ensures var r := Validate(c, st, name, n, warn, fuel);
      r.Ok? ==> (r.value.st.originals[n] == Prepared(name, |st.names|, c.strict, c.maxLen)
        && Refreshed(st.originals, r.value.st.originals, n, |st.names|, c))
    decreases fuel, 1
  {
    var s := Prepared(name, |st.names|, c.strict, c.maxLen);
    var o := Remember(st.originals, n, s);
    if NameKey(s) in st.nums && Displaces(st, o, s) && fuel > 0 {
      PreparedStable(name, |st.names|, |st.names|, c.strict, c.maxLen);
      RenameRemembers(c, st, o, n, s, fuel);
    }
  }

  /**
   * The rename branch leaves n its name s: the displaced field is another
   * one, and should the chain come back to n, s prepared again is s.
   */
  lemma {:induction false} RenameRemembers(c: Config, st: Names, o: seq<string>, n: nat, s: string, fuel: nat)
    requires c.maxLen >= 1 && n <= |st.names| && 1 <= fuel && Bounded(st, |st.names|)
    requires |o| == Max(|st.originals|, n + 1) && o[n] == s && Displaces(st, o, s)
    requires forall j :: 0 <= j < |st.originals| && j != n ==> o[j] == st.originals[j]
    requires n == |st.names| ==> forall k :: k in st.nums ==> st.nums[k] != n
    requires Prepared(s, |st.names|, c.strict, c.maxLen) == s
    ensures var r := Rename(c, st, o, n, s, fuel);
      r.Ok? ==> r.value.st.originals[n] == s && Refreshed(o, r.value.st.originals, n, |st.names|, c)
    decreases fuel, 0
  {
    var p := st.nums[NameKey(s)];
    var st1 := Names(st.names, o, if c.overwrite then st.nums[NameKey(s) := n] else st.nums);
    assert Bounded(st1, |st.names|);
    assert p != n;
    ValidateRemembers(c, st1, o[p], p, false, fuel - 1);
  }

  /** AddField's naming of a new last field: ValidateFieldName, then push_back. */
  function NamedNext(c: Config, st: Names, name: string, warn: bool, fuel: nat): (r: Result<Names>)
    requires c.maxLen >= 1 && |st.originals| == |st.names| && Bounded(st, |st.names|)
    ensures r.Ok? ==> |r.value.names| == |r.value.originals| == |st.names| + 1 && Bounded(r.value, |st.names| + 1)
  {
    var n := |st.names|;
    var v := Validate(c, st, name, n, warn, fuel);
    if v.Err? then Err(v.msg) else Ok(Named(v.value.st, n, v.value.name))
  }

  // ---------------------------------------------------------------------------
  // The map stays exact

  /** Every field outside pending is found under its own name. */
  predicate Indexed(st: Names, pending: set<nat>)
  {
    forall i :: 0 <= i < |st.names| && i !in pending ==>
      NameKey(st.names[i]) in st.nums && st.nums[NameKey(st.names[i])] == i
  }

  /**
   * Every entry is a field with an original name, keyed by the field's
   * current name, or by its original name while the field is pending.
   */
  predicate Exact(st: Names, pending: set<nat>)
  {
    forall k :: k in st.nums ==>
      st.nums[k] < |st.originals|
      && (st.nums[k] in pending ==> k == NameKey(st.originals[st.nums[k]]))
      && (st.nums[k] !in pending ==> st.nums[k] < |st.names| && k == NameKey(st.names[st.nums[k]]))
  }

  /** The entries for pending fields are the same before and after. */
  predicate PendingKept(a: map<string, nat>, b: map<string, nat>, pending: set<nat>)
  {
    (forall k :: k in a && a[k] in pending ==> k in b && b[k] == a[k])
    && (forall k :: k in b && b[k] in pending ==> k in a && a[k] == b[k])
  }

  /** What naming field n with pending fields promises, once n has its name. */
  predicate NamedWell(st: Names, n: nat, pending: set<nat>, r: Result<Outcome>)
    requires n <= |st.names|
  {
    r.Ok? && n <= |r.value.st.names| ==>
      var t := r.value.st; var u := Named(t, n, r.value.name);
      Exact(u, pending) && Indexed(u, pending)
      && PendingKept(st.nums, t.nums, pending)
      && (forall j :: j in pending && j < |st.originals| ==> j < |t.originals| && t.originals[j] == st.originals[j])
  }

  /** What naming field n needs of the state: exact apart from n, and nothing pointing at n. */
  predicate Ready(st: Names, n: nat, pending: set<nat>)
  {
    n <= |st.names| && n !in pending && Exact(st, pending) && Indexed(st, pending + {n})
    && Bounded(st, |st.names|) && (forall k :: k in st.nums ==> st.nums[k] != n)
  }

  lemma ExactBounded(st: Names, pending: set<nat>)
    requires Exact(st, pending)
    ensures Bounded(st, |st.names|)
  {
  }

  /** Entering a free name for n, as the free branch and the duplicate loop do. */
  lemma EnterIndexes(st: Names, o: seq<string>, n: nat, name: string, warned: bool, pending: set<nat>)
    requires Ready(st, n, pending) && NameKey(name) !in st.nums
    requires |o| == Max(|st.originals|, n + 1)
    requires forall j :: 0 <= j < |st.originals| && j != n ==> o[j] == st.originals[j]
    ensures NamedWell(st, n, pending, Ok(Enter(st, o, n, name, warned)))
  {
    ExactBounded(st, pending);
    var t := Enter(st, o, n, name, warned).st;
    var u := Named(t, n, name);
    assert Exact(u, pending);
    assert Indexed(u, pending);
  }

  /**
   * With the rename branch rebinding the name it hands over, naming field n
   * keeps the map exact: once n has its name, every field outside pending is
   * found under its name, every entry names its field, and the entries and
   * originals of pending fields are untouched.
   */
  lemma {:induction false} ValidateIndexes(c: Config, st: Names, name: string, n: nat, warn: bool, fuel: nat, pending: set<nat>)
    requires c.overwrite && c.maxLen >= 1 && Ready(st, n, pending)
    ensures NamedWell(st, n, pending, Validate(c, st, name, n, warn, fuel))
    decreases fuel, 2
  {
    ExactBounded(st, pending);
    var s := Prepared(name, |st.names|, c.strict, c.maxLen);
    var o := Remember(st.originals, n, s);
    if NameKey(s) !in st.nums {
      EnterIndexes(st, o, n, s, false, pending);
    } else if Displaces(st, o, s) {
      if fuel > 0 {
        RenameIndexes(c, st, o, n, s, fuel, pending);
      }
    } else {
      var found := Search(st.nums, Start(s), 1, c.maxLen);
      if found.Some? {
        EnterIndexes(st, o, n, found.value, warn, pending);
      }
    }
  }

  lemma {:induction false} RenameIndexes(c: Config, st: Names, o: seq<string>, n: nat, s: string, fuel: nat, pending: set<nat>)
    requires c.overwrite && c.maxLen >= 1 && 1 <= fuel && Ready(st, n, pending)
    requires |o| == Max(|st.originals|, n + 1) && o[n] == s && Displaces(st, o, s)
    requires forall j :: 0 <= j < |st.originals| && j != n ==> o[j] == st.originals[j]
    ensures NamedWell(st, n, pending, Rename(c, st, o, n, s, fuel))
    decreases fuel, 1
  {
    RenameInner(c, st, o, n, s, fuel, pending);
  }

  /** The inner naming's promise for the displaced field gives the outer one for n. */
  lemma {:induction false} RenameInner(c: Config, st: Names, o: seq<string>, n: nat, s: string, fuel: nat, pending: set<nat>)
    requires c.overwrite && c.maxLen >= 1 && 1 <= fuel && Ready(st, n, pending)
    requires |o| == Max(|st.originals|, n + 1) && o[n] == s && Displaces(st, o, s)
    requires forall j :: 0 <= j < |st.originals| && j != n ==> o[j] == st.originals[j]
    ensures var p := st.nums[NameKey(s)]; var st1 := Names(st.names, o, st.nums[NameKey(s) := n]);
      p < |st.names| && Bounded(st1, |st.names|) &&
      var inner := Validate(c, st1, o[p], p, false, fuel - 1);
      inner.Ok? ==> NamedWell(st, n, pending, Ok(Outcome(Named(inner.value.st, p, inner.value.name), s, false)))
    decreases fuel, 0
  {
    var key := NameKey(s);
    var p := st.nums[key];
    var st1 := Names(st.names, o, st.nums[key := n]);
    var q := pending + {n};
    RenameReady(st, o, n, s, pending);
    ValidateIndexes(c, st1, o[p], p, false, fuel - 1, q);
    var inner := Validate(c, st1, o[p], p, false, fuel - 1);
    if inner.Ok? {
      RenameAssemble(st, o, n, s, pending, inner.value);
    }
  }

  /** Assembling the outer promise from the inner one. */
  lemma RenameAssemble(st: Names, o: seq<string>, n: nat, s: string, pending: set<nat>, inner: Outcome)
    requires Ready(st, n, pending)
    requires |o| == Max(|st.originals|, n + 1) && o[n] == s && Displaces(st, o, s)
    requires forall j :: 0 <= j < |st.originals| && j != n ==> o[j] == st.originals[j]
    requires var p := st.nums[NameKey(s)];
      p != n && p !in pending && p < |st.names| && |inner.st.names| == |st.names|
      && NamedWell(Names(st.names, o, st.nums[NameKey(s) := n]), p, pending + {n}, Ok(inner))
    ensures NamedWell(st, n, pending, Ok(Outcome(Named(inner.st, st.nums[NameKey(s)], inner.name), s, false)))
  {
    var key := NameKey(s);
    var p := st.nums[key];
    var st1 := Names(st.names, o, st.nums[key := n]);
    var q := pending + {n};
    var t := inner.st;
    var u1 := Named(t, p, inner.name);
    assert Exact(u1, q) && Indexed(u1, q) && PendingKept(st1.nums, t.nums, q);
    FinishKept(st.nums, t.nums, key, n, pending);
    FinishExact(u1, n, s, pending);
    FinishIndexed(u1, n, s, pending);
  }

  /** Before the displaced field is named again: n holds its key by its original name, and that field is pending. */
  lemma RenameReady(st: Names, o: seq<string>, n: nat, s: string, pending: set<nat>)
    requires Ready(st, n, pending)
    requires |o| == Max(|st.originals|, n + 1) && o[n] == s && Displaces(st, o, s)
    requires forall j :: 0 <= j < |st.originals| && j != n ==> o[j] == st.originals[j]
    ensures var p := st.nums[NameKey(s)];
      p != n && p !in pending && p < |st.names|
      && Ready(Names(st.names, o, st.nums[NameKey(s) := n]), p, pending + {n})
  {
    var key := NameKey(s);
    var p := st.nums[key];
    assert p != n && p !in pending && p < |st.names|;
    var st1 := Names(st.names, o, st.nums[key := n]);
    var q := pending + {n};
    assert Exact(st1, q);
    assert Indexed(st1, q + {p});
  }

  /** Entries for pending fields survive rebinding a key from a field outside them to n, and back. */
  lemma FinishKept(a: map<string, nat>, b: map<string, nat>, key: string, n: nat, pending: set<nat>)
    requires key in a && a[key] !in pending && n !in pending
    requires PendingKept(a[key := n], b, pending + {n})
    requires forall k :: k in a ==> a[k] != n
    ensures PendingKept(a, b, pending)
    ensures key in b && b[key] == n && forall k :: k in b && b[k] == n ==> k == key
  {
  }

  /** Giving n the name of the one entry that leads to n makes the map exact outside pending. */
  lemma FinishExact(u1: Names, n: nat, s: string, pending: set<nat>)
    requires n <= |u1.names| && Exact(u1, pending + {n})
    requires forall k :: k in u1.nums && u1.nums[k] == n ==> k == NameKey(s)
    ensures Exact(Named(u1, n, s), pending)
  {
    var u := Named(u1, n, s);
    forall k | k in u.nums
      ensures u.nums[k] !in pending ==> u.nums[k] < |u.names| && k == NameKey(u.names[u.nums[k]])
    {
      if u.nums[k] == n {
        assert k == NameKey(s);
      }
    }
  }

  /** Giving n a name that leads to n makes every field outside pending found. */
  lemma FinishIndexed(u1: Names, n: nat, s: string, pending: set<nat>)
    requires n <= |u1.names| && Indexed(u1, pending + {n})
    requires NameKey(s) in u1.nums && u1.nums[NameKey(s)] == n
    ensures Indexed(Named(u1, n, s), pending)
  {
  }

  /** Where the map is indexed, no two fields have the same name. */
  lemma DistinctNames(st: Names)
    requires Indexed(st, {})
    ensures forall i, j :: 0 <= i < j < |st.names| ==> !SameName(st.names[i], st.names[j])
  {
  }

  /** Where the map is exact, a name that is found is the name of the field it leads to. */
  lemma LookupNamesField(st: Names, name: string)
    requires Exact(st, {}) && NameKey(name) in st.nums
    ensures st.nums[NameKey(name)] < |st.names| && SameName(st.names[st.nums[NameKey(name)]], name)
  {
  }

  // ---------------------------------------------------------------------------
  // As written: std::map::insert does not rebind

  /**
   * As written, the rename branch hands the prepared name to field n while
   * its entry is left pointing at the field it was taken from, which has
   * meanwhile been named again: the name of n is not found as n.
   */
  lemma StaleEntryAsWritten(c: Config, st: Names, name: string, n: nat, warn: bool, fuel: nat)
    requires !c.overwrite && c.maxLen >= 1 && n <= |st.names| && Bounded(st, |st.names|)
    requires forall k :: k in st.nums ==> st.nums[k] != n
    requires var s := Prepared(name, |st.names|, c.strict, c.maxLen);
      Displaces(st, Remember(st.originals, n, s), s)
    ensures var s := Prepared(name, |st.names|, c.strict, c.maxLen); var r := Validate(c, st, name, n, warn, fuel);
      r.Ok? ==> r.value.name == s && NameKey(s) in r.value.st.nums && r.value.st.nums[NameKey(s)] != n
  {
    var s := Prepared(name, |st.names|, c.strict, c.maxLen);
    var o := Remember(st.originals, n, s);
    if fuel > 0 {
      var p := st.nums[NameKey(s)];
      var st1 := Names(st.names, o, st.nums);
      assert Bounded(st1, |st.names|);
      KeepsEntries(c, st1, o[p], p, false, fuel - 1);
    }
  }

  /** As written, naming a field never drops or rebinds an entry. */
  lemma {:induction false} KeepsEntries(c: Config, st: Names, name: string, n: nat, warn: bool, fuel: nat)
    requires !c.overwrite && c.maxLen >= 1 && n <= |st.names| && Bounded(st, |st.names|)
    requires n == |st.names| ==> forall k :: k in st.nums ==> st.nums[k] != n
    ensures var r := Validate(c, st, name, n, warn, fuel);
      r.Ok? ==> forall k :: k in st.nums ==> k in r.value.st.nums && r.value.st.nums[k] == st.nums[k]
    decreases fuel
  {
    var s := Prepared(name, |st.names|, c.strict, c.maxLen);
    var o := Remember(st.originals, n, s);
    if NameKey(s) in st.nums && Displaces(st, o, s) && fuel > 0 {
      var p := st.nums[NameKey(s)];
      var st1 := Names(st.names, o, st.nums);
      assert Bounded(st1, |st.names|);
      KeepsEntries(c, st1, o[p], p, false, fuel - 1);
    }
  }

  /**
   * Either way, naming a field drops no key, and the name it gets is a key
   * of the map afterwards (as written, possibly one leading to another field).
   */
  lemma {:induction false} KeysGrow(c: Config, st: Names, name: string, n: nat, warn: bool, fuel: nat)
    requires c.maxLen >= 1 && n <= |st.names| && Bounded(st, |st.names|)
    requires n == |st.names| ==> forall k :: k in st.nums ==> st.nums[k] != n
    ensures var r := Validate(c, st, name, n, warn, fuel);
      r.Ok? ==> st.nums.Keys <= r.value.st.nums.Keys && NameKey(r.value.name) in r.value.st.nums
    decreases fuel
  {
    var s := Prepared(name, |st.names|, c.strict, c.maxLen);
    var o := Remember(st.originals, n, s);
    if NameKey(s) in st.nums && Displaces(st, o, s) && fuel > 0 {
      var p := st.nums[NameKey(s)];
      var st1 := Names(st.names, o, if c.overwrite then st.nums[NameKey(s) := n] else st.nums);
      assert Bounded(st1, |st.names|);
      KeysGrow(c, st1, o[p], p, false, fuel - 1);
    }
  }

  // ---------------------------------------------------------------------------
  // Length of the name given

  /** From a limit of 3 characters on, the name a field is given is never longer than the limit. */
  lemma ValidateFits(c: Config, st: Names, name: string, n: nat, warn: bool, fuel: nat)
    requires c.maxLen >= 3 && n <= |st.names| && Bounded(st, |st.names|)
    requires n == |st.names| ==> forall k :: k in st.nums ==> st.nums[k] != n
    ensures var r := Validate(c, st, name, n, warn, fuel); r.Ok? ==> |r.value.name| <= c.maxLen
  {
    var s := Prepared(name, |st.names|, c.strict, c.maxLen);
    var o := Remember(st.originals, n, s);
    if NameKey(s) in st.nums && !Displaces(st, o, s) {
      StartBound(s);
      SearchFits(st.nums, Start(s), 1, c.maxLen);
    }
  }
}

module FieldNamesExample {
  import opened Wrappers
  import opened FieldSchemas
  import opened FieldNames
  import StringHelper

  lemma SmallDecimal(d: nat)
    requires 1 <= d <= 9
    ensures Decimal(d) == [StringHelper.DigitChar(d)]
  {
    StringHelper.DigitsStep(d, 10);
  }

  /** The first "A" is free. */
  lemma FirstA(c: Config, e: Names, a: string, s1: Names)
    requires c == Config(255, false, false) && e == Names([], [], map[]) && a == "A"
    requires s1 == Names([a], [a], map[a := 0])
    ensures NamedNext(c, e, a, true, 1) == Ok(s1)
  {
    assert NameKey(a) == a;
    assert a[..1] == a;
    assert Prepared(a, 0, false, 255) == a;
    assert Remember([], 0, a) == [a];
    AddedStep(c, e, a, true, 1, Outcome(Names([], [a], map[a := 0]), a, false), s1);
  }

  /** The second "A" is a duplicate: it gets "A2", with the warning. */
  lemma SecondA(c: Config, s1: Names, a: string, a2: string, s2: Names)
    requires c == Config(255, false, false) && a == "A" && a2 == "A2"
    requires s1 == Names([a], [a], map[a := 0]) && s2 == Names([a, a2], [a, a], map[a := 0, a2 := 1])
    ensures NamedNext(c, s1, a, true, 1) == Ok(s2)
  {
    SecondValidate(c, s1, a, a2);
    AddedStep(c, s1, a, true, 1, Outcome(Names([a], [a, a], map[a := 0, a2 := 1]), a2, true), s2);
  }

  /** The second "A" is taken, so it is renamed "A2", with a warning. */
  lemma SecondValidate(c: Config, s1: Names, a: string, a2: string)
    requires c == Config(255, false, false) && a == "A" && a2 == "A2" && s1 == Names([a], [a], map[a := 0])
    ensures Validate(c, s1, a, 1, true, 1) == Ok(Outcome(Names([a], [a, a], map[a := 0, a2 := 1]), a2, true))
  {
    SecondSearch(a, a2);
    SecondParts(s1, a, a2);
  }

  /** The second "A" keeps its spelling, is remembered as field 1's original and displaces nothing. */
  lemma SecondParts(s1: Names, a: string, a2: string)
    requires a == "A" && a2 == "A2" && s1 == Names([a], [a], map[a := 0])
    ensures NameKey(a) == a && NameKey(a2) == a2
    ensures Prepared(a, 1, false, 255) == a && Remember([a], 1, a) == [a, a] && !Displaces(s1, [a, a], a)
  {
    assert NameKey(a) == a && NameKey(a2) == a2;
    assert a[..1] == a;
  }

  lemma SecondSearch(a: string, a2: string)
    requires a == "A" && a2 == "A2"
    ensures Search(map[a := 0], Start(a), 1, 255) == Some(a2)
  {
    SmallDecimal(2);
    assert NameKey(a2) == a2;
    assert Start(a) == Gen(a, 1, false, true);
    assert Candidate(Gen(a, 2, false, true), 255) == a2;
  }

  /** Inside the rename branch of the third field: field 1 is named again from "A" and gets "A3". */
  lemma RenameOne(c: Config, a: string, a2: string, a3: string)
    requires c == Config(255, false, false) && a == "A" && a2 == "A2" && a3 == "A3"
    ensures var r := Validate(c, Names([a, a2], [a, a, a2], map[a := 0, a2 := 1]), a, 1, false, 0);
      r == Ok(Outcome(Names([a, a2], [a, a, a2], map[a := 0, a2 := 1, a3 := 1]), a3, false))
  {
    RenameSearch(map[a := 0, a2 := 1], a, a2, a3);
    assert NameKey(a) == a && NameKey(a3) == a3;
    assert a[..1] == a;
    assert Prepared(a, 2, false, 255) == a;
    assert Remember([a, a, a2], 1, a) == [a, a, a2];
    assert !Displaces(Names([a, a2], [a, a, a2], map[a := 0, a2 := 1]), [a, a, a2], a);
  }

  lemma RenameSearch(nums: map<string, nat>, a: string, a2: string, a3: string)
    requires a == "A" && a2 == "A2" && a3 == "A3" && nums == map[a := 0, a2 := 1]
    ensures Search(nums, Start(a), 1, 255) == Some(a3)
  {
    SmallDecimal(2);
    SmallDecimal(3);
    assert NameKey(a2) == a2 && NameKey(a3) == a3;
    assert Start(a) == Gen(a, 1, false, true);
    assert Candidate(Gen(a, 2, false, true), 255) == a2;
    assert Candidate(Gen(a, 3, false, true), 255) == a3;
    assert a3 !in nums;
    assert Search(nums, Gen(a, 2, false, true), 2, 255) == Some(a3);
  }

  /** The third field asks for "A2", which field 1 was given: it takes it, and field 1 becomes "A3". */
  lemma ThirdA2(c: Config, s2: Names, a: string, a2: string, a3: string, s3: Names)
    requires c == Config(255, false, false) && a == "A" && a2 == "A2" && a3 == "A3"
    requires s2 == Names([a, a2], [a, a], map[a := 0, a2 := 1])
    requires s3 == Names([a, a3, a2], [a, a, a2], map[a := 0, a2 := 1, a3 := 1])
    ensures NamedNext(c, s2, a2, true, 1) == Ok(s3)
  {
    var o := Outcome(Names([a, a3], [a, a, a2], map[a := 0, a2 := 1, a3 := 1]), a2, false);
    ThirdValidate(c, s2, a, a2, a3, o);
    AddedStep(c, s2, a2, true, 1, o, s3);
  }

  /** The rename branch for the third field: field 1 named again from "A", and "A2" kept for field 2. */
  lemma ThirdValidate(c: Config, s2: Names, a: string, a2: string, a3: string, o: Outcome)
    requires c == Config(255, false, false) && a == "A" && a2 == "A2" && a3 == "A3"
    requires s2 == Names([a, a2], [a, a], map[a := 0, a2 := 1])
    requires o == Outcome(Names([a, a3], [a, a, a2], map[a := 0, a2 := 1, a3 := 1]), a2, false)
    ensures Validate(c, s2, a2, 2, true, 1) == Ok(o)
  {
    assert NameKey(a2) == a2;
    assert a2[..2] == a2;
    assert Prepared(a2, 2, false, 255) == a2;
    assert Remember([a, a], 2, a2) == [a, a, a2];
    assert !SameName(a2, a) by {
      assert NameKey(a) == a;
    }
    assert Displaces(s2, [a, a, a2], a2);
    RenameOne(c, a, a2, a3);
    var inner := Validate(c, Names([a, a2], [a, a, a2], map[a := 0, a2 := 1]), a, 1, false, 0);
    assert Named(inner.value.st, 1, a3) == o.st;
  }

  /**
   * As written, adding fields "A", "A" and "A2" names them A, A3 and A2,
   * while the map still sends "A2" to field 1.
   */
  lemma ThreeFieldsAsWritten(c: Config, e: Names, a: string, a2: string, a3: string)
    requires c == Config(255, false, false) && e == Names([], [], map[]) && a == "A" && a2 == "A2" && a3 == "A3"
    ensures var r1 := NamedNext(c, e, a, true, 1);
      r1.Ok? &&
      var r2 := NamedNext(c, r1.value, a, true, 1);
      r2.Ok? &&
      var r3 := NamedNext(c, r2.value, a2, true, 1);
      r3.Ok? && r3.value.names == [a, a3, a2] && r3.value.nums == map[a := 0, a2 := 1, a3 := 1]
  {
    var s1 := Names([a], [a], map[a := 0]);
    var s2 := Names([a, a2], [a, a], map[a := 0, a2 := 1]);
    var s3 := Names([a, a3, a2], [a, a, a2], map[a := 0, a2 := 1, a3 := 1]);
    FirstA(c, e, a, s1);
    SecondA(c, s1, a, a2, s2);
    ThirdA2(c, s2, a, a2, a3, s3);
  }

  /** Generated names for "A" against A, A2 and A3: the first free one is "A4". */
  lemma FourthSearch(nums: map<string, nat>, a: string, a2: string, a3: string, a4: string)
    requires a == "A" && a2 == "A2" && a3 == "A3" && a4 == "A4" && nums == map[a := 0, a2 := 1, a3 := 1]
    ensures Search(nums, Start(a), 1, 255) == Some(a4)
  {
    FourthCandidates(a, a2, a3, a4);
    assert a4 !in nums;
    assert Search(nums, Gen(a, 3, false, true), 3, 255) == Some(a4);
    assert Search(nums, Gen(a, 2, false, true), 2, 255) == Some(a4);
  }

  /** The second, third and fourth attempts from "A" are "A2", "A3" and "A4". */
  lemma FourthCandidates(a: string, a2: string, a3: string, a4: string)
    requires a == "A" && a2 == "A2" && a3 == "A3" && a4 == "A4"
    ensures NameKey(a2) == a2 && NameKey(a3) == a3 && NameKey(a4) == a4
    ensures Start(a) == Gen(a, 1, false, true)
    ensures Candidate(Gen(a, 2, false, true), 255) == a2 && Candidate(Gen(a, 3, false, true), 255) == a3
    ensures Candidate(Gen(a, 4, false, true), 255) == a4
  {
    SmallDecimal(2);
    SmallDecimal(3);
    SmallDecimal(4);
    assert NameKey(a2) == a2 && NameKey(a3) == a3 && NameKey(a4) == a4;
  }

  /** Inside the rename branch of the fourth field: field 1 is named again from "A" and gets "A4". */
  lemma RenameOneAgain(c: Config, a: string, a2: string, a3: string, a4: string, st: Names)
    requires c == Config(255, false, false) && a == "A" && a2 == "A2" && a3 == "A3" && a4 == "A4"
    requires st == Names([a, a3, a2], [a, a, a2, a2], map[a := 0, a2 := 1, a3 := 1])
    ensures Validate(c, st, a, 1, false, 0)
      == Ok(Outcome(Names([a, a3, a2], [a, a, a2, a2], map[a := 0, a2 := 1, a3 := 1, a4 := 1]), a4, false))
  {
    FourthSearch(st.nums, a, a2, a3, a4);
    assert NameKey(a) == a && NameKey(a4) == a4;
    assert a[..1] == a;
    assert Prepared(a, 3, false, 255) == a;
    assert Remember([a, a, a2, a2], 1, a) == [a, a, a2, a2];
    assert !Displaces(st, [a, a, a2, a2], a);
  }

  /** The rename branch for the fourth field: "A2" leads to field 1, whose original is "A", so field 1 is named again. */
  lemma FourthValidate(c: Config, s3: Names, a: string, a2: string, a3: string, a4: string, o: Outcome)
    requires c == Config(255, false, false) && a == "A" && a2 == "A2" && a3 == "A3" && a4 == "A4"
    requires s3 == Names([a, a3, a2], [a, a, a2], map[a := 0, a2 := 1, a3 := 1])
    requires o == Outcome(Names([a, a4, a2], [a, a, a2, a2], map[a := 0, a2 := 1, a3 := 1, a4 := 1]), a2, false)
    ensures Validate(c, s3, a2, 3, true, 1) == Ok(o)
  {
    assert NameKey(a2) == a2;
    assert a2[..2] == a2;
    assert Prepared(a2, 3, false, 255) == a2;
    assert Remember([a, a, a2], 3, a2) == [a, a, a2, a2];
    assert !SameName(a2, a) by {
      assert NameKey(a) == a;
    }
    assert Displaces(s3, [a, a, a2, a2], a2);
    var st1 := Names([a, a3, a2], [a, a, a2, a2], map[a := 0, a2 := 1, a3 := 1]);
    RenameOneAgain(c, a, a2, a3, a4, st1);
    var inner := Validate(c, st1, a, 1, false, 0);
    assert Named(inner.value.st, 1, a4) == o.st;
  }

  /**
   * As written, adding fields "A", "A", "A2" and "A2" names them A, A4, A2
   * and A2: two fields get the same name.
   */
  lemma FourFieldsAsWritten(c: Config, e: Names, a: string, a2: string, a3: string, a4: string)
    requires c == Config(255, false, false) && e == Names([], [], map[]) && a == "A" && a2 == "A2" && a3 == "A3" && a4 == "A4"
    ensures var r1 := NamedNext(c, e, a, true, 1);
      r1.Ok? &&
      var r2 := NamedNext(c, r1.value, a, true, 1);
      r2.Ok? &&
      var r3 := NamedNext(c, r2.value, a2, true, 1);
      r3.Ok? &&
      var r4 := NamedNext(c, r3.value, a2, true, 1);
      r4.Ok? && r4.value.names == [a, a4, a2, a2] && SameName(r4.value.names[2], r4.value.names[3])
  {
    var s1 := Names([a], [a], map[a := 0]);
    var s2 := Names([a, a2], [a, a], map[a := 0, a2 := 1]);
    var s3 := Names([a, a3, a2], [a, a, a2], map[a := 0, a2 := 1, a3 := 1]);
    var s4 := Names([a, a4, a2, a2], [a, a, a2, a2], map[a := 0, a2 := 1, a3 := 1, a4 := 1]);
    FirstA(c, e, a, s1);
    SecondA(c, s1, a, a2, s2);
    ThirdA2(c, s2, a, a2, a3, s3);
    FourthA2(c, s3, a, a2, a3, a4, s4);
    assert NameKey(a2) == a2;
  }

  /** The fourth field asks for "A2" again: it keeps it, and field 1 becomes "A4". */
  lemma FourthA2(c: Config, s3: Names, a: string, a2: string, a3: string, a4: string, s4: Names)
    requires c == Config(255, false, false) && a == "A" && a2 == "A2" && a3 == "A3" && a4 == "A4"
    requires s3 == Names([a, a3, a2], [a, a, a2], map[a := 0, a2 := 1, a3 := 1])
    requires s4 == Names([a, a4, a2, a2], [a, a, a2, a2], map[a := 0, a2 := 1, a3 := 1, a4 := 1])
    ensures NamedNext(c, s3, a2, true, 1) == Ok(s4)
  {
    var o := Outcome(Names([a, a4, a2], [a, a, a2, a2], map[a := 0, a2 := 1, a3 := 1, a4 := 1]), a2, false);
    FourthValidate(c, s3, a, a2, a3, a4, o);
    AddedStep(c, s3, a2, true, 1, o, s4);
  }

  /** NamedNext is Validate for the next field followed by its push_back. */
  lemma AddedStep(c: Config, st: Names, name: string, warn: bool, fuel: nat, o: Outcome, s: Names)
    requires c.maxLen >= 1 && |st.originals| == |st.names| && Bounded(st, |st.names|)
    requires Validate(c, st, name, |st.names|, warn, fuel) == Ok(o)
    requires s == Named(o.st, |st.names|, o.name)
    ensures NamedNext(c, st, name, warn, fuel) == Ok(s)
  {
  }
}
