// The message interpolation of the translation kernel: Interp expands "@1".."@9"
// and "@@" in a message key into a caller's buffer of fixed capacity, and
// CopyTextToBuffer copies a text into such a buffer. Both report the length of
// the text they wanted to write, which may exceed the capacity.

module GlotKernel {
  import opened Wrappers
  import SrcLib

  // ---------------------------------------------------------------------------
  // The buffer

  /** The buffer b after writing t from position at on, keeping only what fits. */
  function Fill(b: seq<char>, at: nat, t: string): (r: seq<char>)
    ensures |r| == |b|
    decreases |t|
  {
    if t == [] || at >= |b| then b else Fill(b[at := t[0]], at + 1, t[1..])
  }

  /** Each position of the filled buffer: from t inside the written range, from b outside it. */
  lemma {:induction false} FillAt(b: seq<char>, at: nat, t: string, p: nat)
    requires p < |b|
    ensures Fill(b, at, t)[p] == if at <= p < at + |t| then t[p - at] else b[p]
    decreases |t|
  {
    if t != [] && at < |b| {
      FillAt(b[at := t[0]], at + 1, t[1..], p);
    }
  }

  /** A buffer that agrees position by position with the filled one is the filled one. */
  lemma FillExt(b: seq<char>, at: nat, t: string, r: seq<char>)
    requires |r| == |b|
    requires forall p | 0 <= p < |b| :: r[p] == if at <= p < at + |t| then t[p - at] else b[p]
    ensures r == Fill(b, at, t)
  {
    forall p | 0 <= p < |b| ensures r[p] == Fill(b, at, t)[p] {
      FillAt(b, at, t, p);
    }
  }

  /** Two writes one after the other are one write of the joined text. */
  lemma {:induction false} FillConcat(b: seq<char>, at: nat, t: string, u: string)
    ensures Fill(Fill(b, at, t), at + |t|, u) == Fill(b, at, t + u)
    decreases |t|
  {
    if t == [] {
      assert t + u == u;
    } else if at < |b| {
      FillConcat(b[at := t[0]], at + 1, t[1..], u);
      assert (t + u)[0] == t[0] && (t + u)[1..] == t[1..] + u;
    }
  }

  /** A write from the start keeps the first min(|t|, |b|) characters of t and the rest of b. */
  lemma FillFromStart(b: seq<char>, t: string)
    ensures var m := if |t| < |b| then |t| else |b|;
      Fill(b, 0, t) == t[..m] + b[m..]
  {
    var m := if |t| < |b| then |t| else |b|;
    forall p | 0 <= p < |b| ensures Fill(b, 0, t)[p] == (t[..m] + b[m..])[p] {
      FillAt(b, 0, t, p);
    }
  }

  /** A NUL written after t lands in the buffer exactly when t is shorter than the buffer. */
  lemma NulOnlyIfRoom(b: seq<char>, t: string)
    ensures |t| < |b| ==> Fill(b, 0, t + ['\0'])[|t|] == '\0'
    ensures |t| >= |b| ==> Fill(b, 0, t + ['\0']) == Fill(b, 0, t)
  {
    FillConcat(b, 0, t, ['\0']);
    if |t| < |b| {
      FillAt(Fill(b, 0, t), |t|, ['\0'], |t|);
    }
  }

  /** The number of characters AppendBuf copies, corrected: nothing once the buffer is full. */
  function AppendCount(nFill: nat, cap: nat, len: nat): (c: nat)
    ensures c <= nFill
    ensures len + c <= cap || c == 0
    ensures len < cap ==> c == if nFill < cap - len then nFill else cap - len
  {
    if len >= cap then 0 else if nFill < cap - len then nFill else cap - len
  }

  /** AppendBuf as written: memcpy of min(nFill, cap - len) characters. */
  function AppendCountAsWritten(nFill: int, cap: int, len: int): int
  {
    if nFill < cap - len then nFill else cap - len
  }

  /** While the length has not passed the capacity, the two counts agree; once it has, the one as written is negative. */
  lemma AppendCountAgrees(nFill: nat, cap: nat, len: nat)
    ensures len <= cap ==> AppendCountAsWritten(nFill, cap, len) == AppendCount(nFill, cap, len)
    ensures len > cap <==> AppendCountAsWritten(nFill, cap, len) < 0
  {
  }

  /**
   * Interp with capacity 1 on "ab@1" and the argument "x": the first AppendBuf
   * leaves the length at 2, past the capacity, and the next one asks memcpy
   * for -1 characters.
   */
  lemma AppendBufOverrun()
    ensures AppendCountAsWritten(2, 1, 0) == 1
    ensures AppendCountAsWritten(|"x"|, 1, 0 + |"ab"|) == -1
    ensures MainText("ab@1", [Some("x")]) == "abx"
  {
    assert "ab@1"[1..] == "b@1";
    assert "b@1"[1..] == "@1";
    assert "@1"[2..] == [];
  }

  /**
   * AppendBuf as written: memcpy of min(nFill, cap - len) characters at len,
   * and len advanced by the whole text. Once len has passed the capacity the
   * count is negative, and memcpy would be handed it as a huge size_t; the
   * model reports that as overrun and writes nothing.
   */
  method AppendBuf(buffer: array<char>, len: nat, text: string) returns (len': nat, overrun: bool)
    modifies buffer
    ensures overrun <==> AppendCountAsWritten(|text|, buffer.Length, len) < 0
    ensures len' == len + |text|
    ensures !overrun ==> buffer[..] == Fill(old(buffer[..]), len, text)
    ensures overrun ==> buffer[..] == old(buffer[..])
  {
    var count := AppendCountAsWritten(|text|, buffer.Length, len);
    len' := len + |text|;
    if count < 0 {
      return len', true;
    }
    for i := 0 to count
      invariant forall p | 0 <= p < buffer.Length ::
        buffer[p] == if len <= p < len + i then text[p - len] else old(buffer[p])
    {
      buffer[len + i] := text[i];
    }
    FillExt(old(buffer[..]), len, text, buffer[..]);
    overrun := false;
  }

  /** AppendBuf with the count clamped to what is left of the buffer: what fits of text at len, len advanced by the whole text. */
  method AppendBufClamped(buffer: array<char>, len: nat, text: string) returns (len': nat)
    modifies buffer
    ensures len' == len + |text|
    ensures buffer[..] == Fill(old(buffer[..]), len, text)
  {
    var count := AppendCount(|text|, buffer.Length, len);
    for i := 0 to count
      invariant forall p | 0 <= p < buffer.Length ::
        buffer[p] == if len <= p < len + i then text[p - len] else old(buffer[p])
    {
      buffer[len + i] := text[i];
    }
    FillExt(old(buffer[..]), len, text, buffer[..]);
    len' := len + |text|;
  }

  /** CopyTextToBuffer: copy min(cap, N) characters, a NUL after them when N < cap, and return N. */
  method CopyTextToBuffer(buffer: array<char>, text: string) returns (n: nat)
    modifies buffer
    ensures n == |text|
    ensures buffer[..] == Fill(old(buffer[..]), 0, text + ['\0'])
  {
    ghost var b := buffer[..];
    n := AppendBufClamped(buffer, 0, text);
    PutNul(buffer, n);
    FillConcat(b, 0, text, ['\0']);
  }

  // ---------------------------------------------------------------------------
  // What Interp writes

  const AtSign: string := "@"
  const MissingArgOpen: string := "<Missing Arg Text "
  const UnusedArgOpen: string := "; <Internal error, arg "
  const UnusedArgMid: string := " unused: "
  const Close: string := ">"

  /** The text for "@d": argument d when it is given, else the missing-argument note. */
  function ArgText(d: char, args: seq<Option<string>>): string
    requires '1' <= d <= '9'
  {
    var j := d as int - '1' as int;
    if j < |args| && args[j].Some? then args[j].value else MissingText(d)
  }

  /** The note for a missing argument "@d". */
  function MissingText(d: char): string
  {
    MissingArgOpen + ['@', d] + Close
  }

  /** The expansion of the message key k, the loop of Interp. */
  function MainText(k: string, args: seq<Option<string>>): string
    decreases |k|
  {
    if k == [] then []
    else if k[0] == '@' && |k| > 1 && k[1] == '@' then AtSign + MainText(k[2..], args)
    else if k[0] == '@' && |k| > 1 && '1' <= k[1] <= '9' then ArgText(k[1], args) + MainText(k[2..], args)
    else [k[0]] + MainText(k[1..], args)
  }

  /** The arguments Main inserts. */
  function Used(k: string, args: seq<Option<string>>): set<nat>
    decreases |k|
  {
    if k == [] then {}
    else if k[0] == '@' && |k| > 1 && k[1] == '@' then Used(k[2..], args)
    else if k[0] == '@' && |k| > 1 && '1' <= k[1] <= '9' then
      var j := k[1] as int - '1' as int;
      (if j < |args| && args[j].Some? then {j} else {}) + Used(k[2..], args)
    else Used(k[1..], args)
  }

  /** The note for argument j when it was not used and is not empty. */
  function Note(args: seq<Option<string>>, used: set<nat>, j: nat): string
    requires j < |args| <= 9
  {
    if j !in used && args[j].Some? && args[j].value != [] then UnusedText(j, args[j].value) else []
  }

  /** The note for an unused argument j with text a. */
  function UnusedText(j: nat, a: string): string
    requires j < 9
  {
    UnusedArgOpen + ['@', ('1' as int + j) as char] + UnusedArgMid + a + Close
  }

  /** The notes for the first n arguments, in order. */
  function Notes(args: seq<Option<string>>, used: set<nat>, n: nat): string
    requires n <= |args| <= 9
  {
    if n == 0 then [] else Notes(args, used, n - 1) + Note(args, used, n - 1)
  }

  /** Everything Interp wants to write, without the NUL. */
  function Wanted(k: string, args: seq<Option<string>>): string
    requires |args| <= 9
  {
    MainText(k, args) + Notes(args, Used(k, args), |args|)
  }

  /** A key without '@' expands to itself. */
  lemma {:induction false} MainNoAt(k: string, args: seq<Option<string>>)
    requires forall i | 0 <= i < |k| :: k[i] != '@'
    ensures MainText(k, args) == k
    decreases |k|
  {
    if k != [] {
      MainNoAt(k[1..], args);
      assert k == [k[0]] + k[1..];
    }
  }

  /** Only given arguments are ever marked used. */
  lemma {:induction false} UsedAreGiven(k: string, args: seq<Option<string>>)
    ensures forall j | j in Used(k, args) :: j < |args| && args[j].Some?
    decreases |k|
  {
    if k == [] {
    } else if k[0] == '@' && |k| > 1 && (k[1] == '@' || '1' <= k[1] <= '9') {
      UsedAreGiven(k[2..], args);
    } else {
      UsedAreGiven(k[1..], args);
    }
  }

  /** With every argument used, absent or empty, no note is appended. */
  lemma {:induction false} NoNotesWhenAllUsed(args: seq<Option<string>>, used: set<nat>, n: nat)
    requires n <= |args| <= 9
    requires forall j | 0 <= j < n :: j in used || args[j].None? || args[j].value == []
    ensures Notes(args, used, n) == []
    decreases n
  {
    if n > 0 {
      NoNotesWhenAllUsed(args, used, n - 1);
    }
  }

  /** An unused, non-empty argument always shows up in a note. */
  lemma {:induction false} UnusedArgReported(args: seq<Option<string>>, used: set<nat>, n: nat, j: nat)
    requires j < n <= |args| <= 9
    requires j !in used && args[j].Some? && args[j].value != []
    ensures |Notes(args, used, n)| >= |UnusedText(j, args[j].value)|
    decreases n
  {
    if j < n - 1 {
      UnusedArgReported(args, used, n - 1, j);
    }
  }

  // ---------------------------------------------------------------------------
  // Interp

  /**
   * Interp: the expansion and the notes are written into buffer as far as they
   * fit, followed by a NUL when there is room for it; the result is the length
   * of the whole text. Every copy goes through AppendBufClamped: once the
   * length passes the capacity the as-written AppendBuf copies a negative
   * count (see AppendBufOverrun), so the behaviour is only defined clamped.
   */
  method Interp(buffer: array<char>, msgKey: string, args: seq<Option<string>>) returns (n: nat)
    requires |args| <= 9 && SrcLib.NoNul(msgKey)
    requires forall j | 0 <= j < |args| :: args[j].Some? ==> SrcLib.NoNul(args[j].value)
    modifies buffer
    ensures n == |Wanted(msgKey, args)|
    ensures buffer[..] == Fill(old(buffer[..]), 0, Wanted(msgKey, args) + ['\0'])
  {
    ghost var b0 := buffer[..];
    var len, used := ExpandKey(buffer, msgKey, args);
    len := AppendNotes(buffer, b0, len, MainText(msgKey, args), args, used);
    FillConcat(b0, 0, Wanted(msgKey, args), ['\0']);
    PutNul(buffer, len);
    n := len;
  }

  /** The main loop of Interp and the AppendBuf of the text left after it. */
  method ExpandKey(buffer: array<char>, msgKey: string, args: seq<Option<string>>) returns (len: nat, used: set<nat>)
    requires SrcLib.NoNul(msgKey)
    modifies buffer
    ensures len == |MainText(msgKey, args)| && buffer[..] == Fill(old(buffer[..]), 0, MainText(msgKey, args))
    ensures used == Used(msgKey, args)
  {
    ghost var b0 := buffer[..];
    ghost var w: string := [];
    len, used := 0, {};
    var rest := msgKey;
    var pend: string := [];
    while rest != []
      invariant SrcLib.NoNul(rest)
      invariant len == |w| && buffer[..] == Fill(b0, 0, w)
      invariant w + (pend + MainText(rest, args)) == MainText(msgKey, args)
      invariant used + Used(rest, args) == Used(msgKey, args)
      decreases |rest|
    {
      ghost var w1;
      len, w1, pend, rest, used := InterpStep(buffer, b0, len, w, pend, rest, args, used);
      w := w1;
    }
    len := AppendStep(buffer, b0, 0, len, w, pend);
    assert pend + MainText(rest, args) == pend;
  }

  /** The loop of Interp over the arguments: a note for each unused, non-empty one. */
  method AppendNotes(buffer: array<char>, ghost b0: seq<char>, len: nat, ghost m: string,
                     args: seq<Option<string>>, used: set<nat>) returns (len': nat)
    requires |args| <= 9
    requires len == |m| && buffer[..] == Fill(b0, 0, m)
    modifies buffer
    ensures len' == |m + Notes(args, used, |args|)| && buffer[..] == Fill(b0, 0, m + Notes(args, used, |args|))
  {
    ghost var w := m;
    len' := len;
    for j := 0 to |args|
      invariant len' == |w| && buffer[..] == Fill(b0, 0, w)
      invariant w == m + Notes(args, used, j)
    {
      len' := AppendNote(buffer, b0, len', w, args, used, j);
      NotesStep(args, used, j, m);
      w := w + Note(args, used, j);
    }
  }

  /** One more AppendBuf after the text w already written from `at` on. */
  method AppendStep(buffer: array<char>, ghost b: seq<char>, ghost at: nat, len: nat, ghost w: string, text: string)
    returns (len': nat)
    requires len == at + |w| && buffer[..] == Fill(b, at, w)
    modifies buffer
    ensures len' == at + |w + text| && buffer[..] == Fill(b, at, w + text)
  {
    FillConcat(b, at, w, text);
    len' := AppendBufClamped(buffer, len, text);
  }

  /** The final NUL, written only when it fits. */
  method PutNul(buffer: array<char>, len: nat)
    modifies buffer
    ensures buffer[..] == Fill(old(buffer[..]), len, ['\0'])
  {
    if len < buffer.Length {
      buffer[len] := '\0';
    }
  }

  /**
   * One pass of the loop of Interp over the rest of the key: an "@@", an "@d",
   * or a character kept pending until the next AppendBuf. The text written so
   * far grows from w to w'.
   */
  method InterpStep(buffer: array<char>, ghost b0: seq<char>, len: nat, ghost w: string, pend: string, rest: string,
                    args: seq<Option<string>>, used: set<nat>)
    returns (len': nat, ghost w': string, pend': string, rest': string, used': set<nat>)
    requires rest != [] && SrcLib.NoNul(rest)
    requires len == |w| && buffer[..] == Fill(b0, 0, w)
    modifies buffer
    ensures len' == |w'| && buffer[..] == Fill(b0, 0, w')
    ensures w' + (pend' + MainText(rest', args)) == w + (pend + MainText(rest, args))
    ensures used' + Used(rest', args) == used + Used(rest, args)
    ensures |rest'| < |rest| && SrcLib.NoNul(rest')
  {
    var ch := rest[0];
    var next := if |rest| > 1 then rest[1] else '\0';
    if ch == '@' && next == '@' {
      MainDoubleAt(rest, args);
      var t := pend + AtSign;
      len' := AppendStep(buffer, b0, 0, len, w, t);
      w', pend', rest', used' := w + t, [], rest[2..], used;
      DoubleAtText(w, pend, MainText(rest', args));
    } else if ch == '@' && '1' <= next <= '9' {
      MainArg(rest, args);
      len' := AppendStep(buffer, b0, 0, len, w, pend);
      var text, u;
      len', text, u := MissingOrArg(buffer, b0, len', w + pend, next, args);
      w', pend', rest', used' := w + pend + text, [], rest[2..], used + u;
      ArgTextStep(w, pend, text, MainText(rest', args));
    } else {
      MainPlain(rest, args);
      len', w', pend', rest', used' := len, w, pend + [ch], rest[1..], used;
      Assoc(pend, [ch], MainText(rest', args));
    }
  }

  /** The "@d" branch of Interp: the argument when it is given, else the missing-argument note in three appends. */
  method MissingOrArg(buffer: array<char>, ghost b0: seq<char>, len: nat, ghost w: string, d: char, args: seq<Option<string>>)
    returns (len': nat, text: string, u: set<nat>)
    requires '1' <= d <= '9'
    requires len == |w| && buffer[..] == Fill(b0, 0, w)
    modifies buffer
    ensures text == ArgText(d, args)
    ensures len' == |w + text| && buffer[..] == Fill(b0, 0, w + text)
    ensures var j := d as int - '1' as int;
      u == if j < |args| && args[j].Some? then {j} else {}
  {
    var j := d as int - '1' as int;
    if j < |args| && args[j].Some? {
      len' := AppendStep(buffer, b0, 0, len, w, args[j].value);
      text, u := args[j].value, {j};
    } else {
      var t1, t2, t3 := MissingArgOpen, ['@', d], Close;
      len' := AppendStep(buffer, b0, 0, len, w, t1);
      len' := AppendStep(buffer, b0, 0, len', w + t1, t2);
      len' := AppendStep(buffer, b0, 0, len', w + t1 + t2, t3);
      text, u := t1 + t2 + t3, {};
      Assoc3(w, t1, t2, t3);
    }
  }

  /** The unused-argument note for argument j, written in five appends. */
  method AppendNote(buffer: array<char>, ghost b0: seq<char>, len: nat, ghost w: string,
                    args: seq<Option<string>>, used: set<nat>, j: nat) returns (len': nat)
    requires j < |args| <= 9
    requires len == |w| && buffer[..] == Fill(b0, 0, w)
    modifies buffer
    ensures len' == |w + Note(args, used, j)| && buffer[..] == Fill(b0, 0, w + Note(args, used, j))
  {
    if j !in used && args[j].Some? && args[j].value != [] {
      var a := args[j].value;
      var t1, t2, t3, t4 := UnusedArgOpen, ['@', ('1' as int + j) as char], UnusedArgMid, Close;
      len' := AppendStep(buffer, b0, 0, len, w, t1);
      len' := AppendStep(buffer, b0, 0, len', w + t1, t2);
      len' := AppendStep(buffer, b0, 0, len', w + t1 + t2, t3);
      len' := AppendStep(buffer, b0, 0, len', w + t1 + t2 + t3, a);
      len' := AppendStep(buffer, b0, 0, len', w + t1 + t2 + t3 + a, t4);
      Assoc5(w, t1, t2, t3, a, t4);
      assert t1 + t2 + t3 + a + t4 == Note(args, used, j);
    } else {
      len' := len;
      assert w + Note(args, used, j) == w;
    }
  }

  lemma NotesStep(args: seq<Option<string>>, used: set<nat>, j: nat, m: string)
    requires j < |args| <= 9
    ensures m + Notes(args, used, j + 1) == (m + Notes(args, used, j)) + Note(args, used, j)
  {
    assert Notes(args, used, j + 1) == Notes(args, used, j) + Note(args, used, j);
    Assoc(m, Notes(args, used, j), Note(args, used, j));
  }

  lemma Assoc3(w: string, a: string, b: string, c: string)
    ensures w + a + b + c == w + (a + b + c)
  {
  }

  lemma Assoc5(w: string, a: string, b: string, c: string, d: string, e: string)
    ensures w + a + b + c + d + e == w + (a + b + c + d + e)
  {
  }

  lemma DoubleAtText(w: string, pend: string, m: string)
    ensures (w + (pend + AtSign)) + ([] + m) == w + (pend + (AtSign + m))
  {
  }

  lemma ArgTextStep(w: string, pend: string, text: string, m: string)
    ensures (w + pend + text) + ([] + m) == w + (pend + (text + m))
  {
  }

  lemma Assoc(a: string, b: string, c: string)
    ensures (a + b) + c == a + (b + c)
  {
  }

  lemma MainDoubleAt(k: string, args: seq<Option<string>>)
    requires |k| > 1 && k[0] == '@' && k[1] == '@'
    ensures MainText(k, args) == AtSign + MainText(k[2..], args)
    ensures Used(k, args) == Used(k[2..], args)
  {
  }

  lemma MainArg(k: string, args: seq<Option<string>>)
    requires |k| > 1 && k[0] == '@' && '1' <= k[1] <= '9'
    ensures MainText(k, args) == ArgText(k[1], args) + MainText(k[2..], args)
    ensures var j := k[1] as int - '1' as int;
      Used(k, args) == (if j < |args| && args[j].Some? then {j} else {}) + Used(k[2..], args)
  {
  }

  lemma MainPlain(k: string, args: seq<Option<string>>)
    requires k != [] && !(k[0] == '@' && |k| > 1 && (k[1] == '@' || '1' <= k[1] <= '9'))
    ensures MainText(k, args) == [k[0]] + MainText(k[1..], args)
    ensures Used(k, args) == Used(k[1..], args)
  {
  }
}
