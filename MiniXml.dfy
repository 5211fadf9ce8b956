// The attribute helpers of the small XML reader: escaping and unescaping of
// attribute text, the scan for the end of a tag, and boolean attributes.

module MiniXml {
  import opened Wrappers
  import SrcLib
  import StringHelper

  predicate NoNul(s: string) { forall k :: 0 <= k < |s| ==> s[k] != '\0' }

  predicate StartsWith(u: string, key: string)
  {
    |key| <= |u| && u[..|key|] == key
  }

  // ---------------------------------------------------------------------------
  // Escaping

  /** EscapeAttributeOld: five ReplaceString passes, '&' first so that no entity is escaped twice. */
  function EscapeAttributeOld(s: string): string
  {
    SrcLib.ReplaceAll(SrcLib.ReplaceAll(SrcLib.ReplaceAll(SrcLib.ReplaceAll(SrcLib.ReplaceAll(
      s, "&", "&amp;"), "\"", "&quot;"), ">", "&gt;"), "<", "&lt;"), "'", "&apos;")
  }

  /** TEscapeAttribute: the empty string as it is, anything else through EscapeAttributeOld. */
  function EscapeAttribute(s: string): string
  {
    if s == [] then s else EscapeAttributeOld(s)
  }

  /** The entity each special character becomes. */
  function EscapeChar(c: char): string
  {
    if c == '&' then "&amp;"
    else if c == '"' then "&quot;"
    else if c == '>' then "&gt;"
    else if c == '<' then "&lt;"
    else if c == '\'' then "&apos;"
    else [c]
  }

  /** Every character of s replaced by its entity. */
  function Escaped(s: string): string
  {
    if s == [] then [] else EscapeChar(s[0]) + Escaped(s[1..])
  }

  /** s with every c replaced by r. */
  function Sub(s: string, c: char, r: string): string
  {
    if s == [] then [] else (if s[0] == c then r else [s[0]]) + Sub(s[1..], c, r)
  }

  /** Replacing a one-character target is replacing every occurrence of that character. */
  lemma {:induction false} ReplaceOneChar(s: string, c: char, r: string)
    ensures SrcLib.ReplaceAll(s, [c], r) == Sub(s, c, r)
    decreases |s|
  {
    if s != [] {
      ReplaceOneChar(s[1..], c, r);
      assert s[..1] == [s[0]];
    }
  }

  lemma {:induction false} SubConcat(a: string, b: string, c: char, r: string)
    ensures Sub(a + b, c, r) == Sub(a, c, r) + Sub(b, c, r)
    decreases |a|
  {
    if a != [] {
      assert (a + b)[0] == a[0];
      assert (a + b)[1..] == a[1..] + b;
      SubConcat(a[1..], b, c, r);
    } else {
      assert a + b == b;
    }
  }

  /** The five Sub passes of EscapeAttributeOld. */
  function Chain(s: string): string
  {
    Sub(Sub(Sub(Sub(Sub(s, '&', "&amp;"), '"', "&quot;"), '>', "&gt;"), '<', "&lt;"), '\'', "&apos;")
  }

  lemma ChainConcat(a: string, b: string)
    ensures Chain(a + b) == Chain(a) + Chain(b)
  {
    var a1, b1 := Sub(a, '&', "&amp;"), Sub(b, '&', "&amp;");
    SubConcat(a, b, '&', "&amp;");
    var a2, b2 := Sub(a1, '"', "&quot;"), Sub(b1, '"', "&quot;");
    SubConcat(a1, b1, '"', "&quot;");
    var a3, b3 := Sub(a2, '>', "&gt;"), Sub(b2, '>', "&gt;");
    SubConcat(a2, b2, '>', "&gt;");
    var a4, b4 := Sub(a3, '<', "&lt;"), Sub(b3, '<', "&lt;");
    SubConcat(a3, b3, '<', "&lt;");
    SubConcat(a4, b4, '\'', "&apos;");
  }

  /** A string without c is left as it is by Sub. */
  lemma {:induction false} SubFree(s: string, c: char, r: string)
    requires forall k :: 0 <= k < |s| ==> s[k] != c
    ensures Sub(s, c, r) == s
    decreases |s|
  {
    if s != [] {
      SubFree(s[1..], c, r);
    }
  }

  lemma SubOne(x: char, c: char, r: string)
    ensures Sub([x], c, r) == if x == c then r else [x]
  {
    assert [x][1..] == [];
  }

  /** The passes after the one that made entity r leave it alone. */
  lemma ChainRest(r: string, from: nat)
    requires 1 <= from <= 5
    requires from <= 1 ==> forall k :: 0 <= k < |r| ==> r[k] != '"'
    requires from <= 2 ==> forall k :: 0 <= k < |r| ==> r[k] != '>'
    requires from <= 3 ==> forall k :: 0 <= k < |r| ==> r[k] != '<'
    requires forall k :: 0 <= k < |r| ==> r[k] != '\''
    ensures from == 1 ==> Sub(Sub(Sub(Sub(r, '"', "&quot;"), '>', "&gt;"), '<', "&lt;"), '\'', "&apos;") == r
    ensures from == 2 ==> Sub(Sub(Sub(r, '>', "&gt;"), '<', "&lt;"), '\'', "&apos;") == r
    ensures from == 3 ==> Sub(Sub(r, '<', "&lt;"), '\'', "&apos;") == r
    ensures from == 4 ==> Sub(r, '\'', "&apos;") == r
  {
    if from <= 1 { SubFree(r, '"', "&quot;"); }
    if from <= 2 { SubFree(r, '>', "&gt;"); }
    if from <= 3 { SubFree(r, '<', "&lt;"); }
    SubFree(r, '\'', "&apos;");
  }

  /** The five passes turn one character into its entity: no later pass touches an earlier entity. */
  lemma ChainChar(x: char)
    ensures Chain([x]) == EscapeChar(x)
  {
    SubOne(x, '&', "&amp;");
    if x == '&' {
      ChainRest("&amp;", 1);
      return;
    }
    SubOne(x, '"', "&quot;");
    if x == '"' {
      ChainRest("&quot;", 2);
      return;
    }
    SubOne(x, '>', "&gt;");
    if x == '>' {
      ChainRest("&gt;", 3);
      return;
    }
    SubOne(x, '<', "&lt;");
    if x == '<' {
      ChainRest("&lt;", 4);
      return;
    }
    SubOne(x, '\'', "&apos;");
  }

  lemma {:induction false} ChainIsEscaped(s: string)
    ensures Chain(s) == Escaped(s)
    decreases |s|
  {
    if s != [] {
      assert s == [s[0]] + s[1..];
      ChainConcat([s[0]], s[1..]);
      ChainChar(s[0]);
      ChainIsEscaped(s[1..]);
    }
  }

  /** EscapeAttribute replaces every special character by its entity and keeps every other character. */
  lemma EscapeMeaning(s: string)
    ensures EscapeAttribute(s) == Escaped(s)
  {
    if s != [] {
      var s1 := Sub(s, '&', "&amp;");
      ReplaceOneChar(s, '&', "&amp;");
      var s2 := Sub(s1, '"', "&quot;");
      ReplaceOneChar(s1, '"', "&quot;");
      var s3 := Sub(s2, '>', "&gt;");
      ReplaceOneChar(s2, '>', "&gt;");
      var s4 := Sub(s3, '<', "&lt;");
      ReplaceOneChar(s3, '<', "&lt;");
      ReplaceOneChar(s4, '\'', "&apos;");
      ChainIsEscaped(s);
    }
  }

  // ---------------------------------------------------------------------------
  // Unescaping

  const UnclosedCdata: string := "An unclosed CDATA was found."

  /**
   * keyncmp(pA, pB, n): compares at most n units of the C string a with the key b,
   * stopping early at a's NUL or at a difference; the difference at the stop.
   */
  function KeyNCmp(a: string, b: string, n: nat): int
    requires n >= 1
    decreases n
  {
    var ca, cb := StringHelper.At(a, 0), StringHelper.At(b, 0);
    if ca != '\0' && n > 1 && ca == cb then KeyNCmp(a[1..], b[1..], n - 1)
    else ca as int - cb as int
  }

  /** keyncmp with the key's own length is 0 exactly when the C string starts with the key. */
  lemma {:induction false} KeyNCmpZero(a: string, b: string)
    requires NoNul(a) && NoNul(b) && |b| >= 1
    ensures KeyNCmp(a, b, |b|) == 0 <==> StartsWith(a, b)
    decreases |b|
  {
    if a != [] && |b| > 1 && a[0] == b[0] {
      KeyNCmpZero(a[1..], b[1..]);
      if StartsWith(a[1..], b[1..]) {
        assert a[..|b|] == [a[0]] + a[1..][..|b| - 1];
        assert b == [b[0]] + b[1..];
      }
      if StartsWith(a, b) {
        assert a[1..][..|b| - 1] == a[..|b|][1..];
      }
    } else if a != [] && |b| > 1 {
      if |b| <= |a| {
        assert a[..|b|][0] == a[0];
      }
    } else if a != [] {
      assert |b| == 1;
      assert a[..1] == [a[0]];
    }
  }

  /** The entity at the start of v (the text after an '&'): the character it stands for and its length. */
  function Entity(v: string): Option<(char, nat)>
  {
    if StartsWith(v, "amp;") then Some(('&', 4))
    else if StartsWith(v, "quot;") then Some(('"', 5))
    else if StartsWith(v, "apos;") then Some(('\'', 5))
    else if StartsWith(v, "gt;") then Some(('>', 3))
    else if StartsWith(v, "lt;") then Some(('<', 3))
    else if StartsWith(v, "#xA;") then Some(('\n', 4))
    else if StartsWith(v, "#xD;") then Some(('\r', 4))
    else None
  }

  /** p in front of a result that is not an error. */
  function Prepend(p: string, r: Result<string>): Result<string>
  {
    if r.Ok? then Ok(p + r.value) else r
  }

  lemma PrependAssoc(a: string, b: string, r: Result<string>)
    ensures Prepend(a, Prepend(b, r)) == Prepend(a + b, r)
  {
    if r.Ok? {
      assert a + (b + r.value) == (a + b) + r.value;
    }
  }

  /** A CDATA section opens at the start of u. */
  predicate CdataAt(u: string, cdata: bool)
  {
    cdata && u != [] && u[0] == '<' && StartsWith(u[1..], "![CDATA[")
  }

  /** The unescaped text of u: entities decoded, CDATA content copied verbatim, an unclosed CDATA an error. */
  function Unesc(u: string, cdata: bool): Result<string>
    decreases |u|
  {
    if u == [] then Ok([])
    else if CdataAt(u, cdata) then
      var body := u[9..];
      match SrcLib.Find(body, "]]>", 0)
      case None => Err(UnclosedCdata)
      case Some(k) => Prepend(body[..k], Unesc(body[k + 3..], cdata))
    else if u[0] == '&' && Entity(u[1..]).Some? then
      Prepend([Entity(u[1..]).value.0], Unesc(u[1 + Entity(u[1..]).value.1..], cdata))
    else Prepend([u[0]], Unesc(u[1..], cdata))
  }

  /** Text without '&' and without a CDATA opener unescapes to itself. */
  lemma {:induction false} UnescPlain(u: string, cdata: bool)
    requires forall k :: 0 <= k < |u| ==> u[k] != '&' && !CdataAt(u[k..], cdata)
    ensures Unesc(u, cdata) == Ok(u)
    decreases |u|
  {
    if u != [] {
      assert u[0..] == u;
      forall k | 0 <= k < |u[1..]| ensures u[1..][k] != '&' && !CdataAt(u[1..][k..], cdata) {
        assert u[1..][k..] == u[k + 1..];
      }
      UnescPlain(u[1..], cdata);
      assert u == [u[0]] + u[1..];
    }
  }

  /** The entity each special character becomes decodes back to that character. */
  lemma UnescChar(x: char, e: string, cdata: bool)
    ensures Unesc(EscapeChar(x) + e, cdata) == Prepend([x], Unesc(e, cdata))
  {
    var u := EscapeChar(x) + e;
    var k := |EscapeChar(x)|;
    assert u[k..] == e;
    if x == '&' || x == '"' || x == '>' || x == '<' || x == '\'' {
      assert u[0] == '&' && !CdataAt(u, cdata);
      assert u[1..] == EscapeChar(x)[1..] + e;
      EntityOfEscape(x, e);
    } else {
      assert u == [x] + e;
      assert u[1..] == e;
    }
  }

  /** The name after the '&' of each entity EscapeChar writes is that entity. */
  lemma EntityOfEscape(x: char, e: string)
    requires x == '&' || x == '"' || x == '>' || x == '<' || x == '\''
    ensures Entity(EscapeChar(x)[1..] + e) == Some((x, |EscapeChar(x)| - 1))
  {
    var v := EscapeChar(x)[1..] + e;
    assert v[..|EscapeChar(x)| - 1] == EscapeChar(x)[1..];
    if x == '&' {
      assert StartsWith(v, "amp;");
    } else if x == '"' {
      assert v[..4] != "amp;" by { assert v[0] == 'q'; }
      assert StartsWith(v, "quot;");
    } else if x == '\'' {
      assert v[..4] != "amp;" && v[..5] != "quot;" by { assert v[0] == 'a' && v[1] == 'p'; }
      assert StartsWith(v, "apos;");
    } else if x == '>' {
      assert !StartsWith(v, "amp;") && !StartsWith(v, "quot;") && !StartsWith(v, "apos;") by { assert v[0] == 'g'; }
      assert StartsWith(v, "gt;");
    } else {
      assert !StartsWith(v, "amp;") && !StartsWith(v, "quot;") && !StartsWith(v, "apos;") && !StartsWith(v, "gt;") by {
        assert v[0] == 'l';
      }
      assert StartsWith(v, "lt;");
    }
  }

  /** UnescapeAttribute undoes EscapeAttribute, with or without CDATA sections allowed. */
  lemma {:induction false} UnescapeEscaped(s: string, cdata: bool)
    ensures Unesc(Escaped(s), cdata) == Ok(s)
    decreases |s|
  {
    if s != [] {
      UnescChar(s[0], Escaped(s[1..]), cdata);
      UnescapeEscaped(s[1..], cdata);
      assert s == [s[0]] + s[1..];
    }
  }

  lemma UnescapeEscape(s: string, cdata: bool)
    ensures Unesc(EscapeAttribute(s), cdata) == Ok(s)
  {
    EscapeMeaning(s);
    UnescapeEscaped(s, cdata);
  }

  /** A closed CDATA section yields its content verbatim; an unclosed one is an error. */
  lemma CdataVerbatim(body: string, rest: string)
    requires forall k :: 0 <= k < |body| ==> !SrcLib.OccursAt(body + "]]>" + rest, "]]>", k)
    ensures Unesc("<![CDATA[" + body + "]]>" + rest, true) == Prepend(body, Unesc(rest, true))
    ensures !SrcLib.OccursAt(body, "]]>", 0) && (forall k :: 0 <= k < |body| ==> !SrcLib.OccursAt(body, "]]>", k)) ==>
      Unesc("<![CDATA[" + body, true) == Err(UnclosedCdata)
  {
    var u := "<![CDATA[" + body + "]]>" + rest;
    assert u[1..][..8] == "![CDATA[";
    var b := u[9..];
    assert b == body + "]]>" + rest;
    assert SrcLib.OccursAt(b, "]]>", |body|) by {
      assert b[|body|..|body| + 3] == "]]>";
    }
    assert SrcLib.Find(b, "]]>", 0) == Some(|body|);
    assert b[..|body|] == body && b[|body| + 3..] == rest;
    var v := "<![CDATA[" + body;
    assert v[1..][..8] == "![CDATA[";
    assert v[9..] == body;
  }

  /** keyncmp(p + 1, "![CDATA[", 8) == 0 at the start of s[i..] is CdataAt. */
  lemma CdataTest(s: string, i: nat, cdata: bool)
    requires i < |s| && NoNul(s)
    ensures (cdata && s[i] == '<' && KeyNCmp(s[i + 1..], "![CDATA[", 8) == 0) <==> CdataAt(s[i..], cdata)
  {
    assert s[i..][1..] == s[i + 1..];
    KeyNCmpZero(s[i + 1..], "![CDATA[");
  }

  /**
   * TUnescapeAttribute. The text up to the first '&' or CDATA opener is kept
   * as it is; from there the loop decodes one item at a time.
   */
  method UnescapeAttribute(s: string, cdata: bool) returns (r: Result<string>)
    requires NoNul(s)
    ensures r == Unesc(s, cdata)
  {
    if |s| == 0 {
      return Ok(s);
    }
    var n := 0;
    while n < |s|
      invariant n <= |s|
      invariant forall k :: 0 <= k < n ==> s[k] != '&' && !CdataAt(s[k..], cdata)
    {
      CdataTest(s, n, cdata);
      if s[n] == '&' || (cdata && s[n] == '<' && KeyNCmp(s[n + 1..], "![CDATA[", 8) == 0) {
        break;
      }
      n := n + 1;
    }
    assert Unesc(s, cdata) == Prepend(s[..n], Unesc(s[n..], cdata)) by {
      KeepPlainPrefix(s, n, cdata);
    }
    if n == |s| {
      assert s[..n] == s && s[n..] == [] && s + [] == s;
      return Ok(s);
    }
    var u, out := s[n..], s[..n];
    while u != []
      invariant NoNul(u)
      invariant Prepend(out, Unesc(u, cdata)) == Unesc(s, cdata)
      decreases |u|
    {
      var ok, piece, rest := UnescapeStep(u, cdata);
      if !ok {
        return Err(UnclosedCdata);
      }
      PrependAssoc(out, piece, Unesc(rest, cdata));
      out, u := out + piece, rest;
    }
    assert out + [] == out;
    r := Ok(out);
  }

  /** The plain prefix s[..n] passes through unescaping unchanged. */
  lemma {:induction false} KeepPlainPrefix(s: string, n: nat, cdata: bool)
    requires n <= |s|
    requires forall k :: 0 <= k < n ==> s[k] != '&' && !CdataAt(s[k..], cdata)
    ensures Unesc(s, cdata) == Prepend(s[..n], Unesc(s[n..], cdata))
    decreases n
  {
    if n > 0 {
      assert s[1..][n - 1..] == s[n..];
      forall k | 0 <= k < n - 1 ensures s[1..][k] != '&' && !CdataAt(s[1..][k..], cdata) {
        assert s[1..][k..] == s[k + 1..];
      }
      KeepPlainPrefix(s[1..], n - 1, cdata);
      assert s[0..] == s;
      PrependAssoc([s[0]], s[1..][..n - 1], Unesc(s[n..], cdata));
      assert [s[0]] + s[1..][..n - 1] == s[..n];
    } else {
      assert s[0..] == s;
      var r := Unesc(s, cdata);
      assert r.Ok? ==> [] + r.value == r.value;
    }
  }

  /** One pass of the decoding loop at the start of u: a CDATA section, an entity, or one character. */
  method UnescapeStep(u: string, cdata: bool) returns (ok: bool, piece: string, rest: string)
    requires NoNul(u) && u != []
    ensures !ok ==> Unesc(u, cdata) == Err(UnclosedCdata)
    ensures ok ==> |rest| < |u| && NoNul(rest) && Unesc(u, cdata) == Prepend(piece, Unesc(rest, cdata))
  {
    var c := u[0];
    var isCdata := cdata && c == '<' && KeyNCmp(u[1..], "![CDATA[", 8) == 0;
    assert isCdata == CdataAt(u, cdata) by {
      CdataTest(u, 0, cdata);
      assert u[0..] == u;
    }
    if isCdata {
      ok, piece, rest := CopyCdata(u, cdata);
      return;
    }
    var e: Option<(char, nat)> := None;
    if c == '&' {
      e := KeyedEntity(u[1..]);
      KeyedEntityIsEntity(u[1..]);
    }
    if e.Some? {
      UnescEntityCase(u, cdata);
      var len := e.value.1;
      ok, piece, rest := true, [e.value.0], u[1 + len..];
    } else {
      ok, piece, rest := true, [c], u[1..];
      UnescPlainCase(u, cdata);
    }
  }

  lemma UnescEntityCase(u: string, cdata: bool)
    requires u != [] && !CdataAt(u, cdata) && u[0] == '&' && Entity(u[1..]).Some?
    ensures Entity(u[1..]).value.1 < |u|
    ensures var e := Entity(u[1..]).value;
      Unesc(u, cdata) == Prepend([e.0], Unesc(u[1 + e.1..], cdata))
  {
  }

  lemma UnescPlainCase(u: string, cdata: bool)
    requires u != [] && !CdataAt(u, cdata) && !(u[0] == '&' && Entity(u[1..]).Some?)
    ensures Unesc(u, cdata) == Prepend([u[0]], Unesc(u[1..], cdata))
  {
  }

  /** The keyncmp tests of the '&' branch, in their order. */
  function KeyedEntity(v: string): Option<(char, nat)>
  {
    if KeyNCmp(v, "amp;", 4) == 0 then Some(('&', 4))
    else if KeyNCmp(v, "quot;", 5) == 0 then Some(('"', 5))
    else if KeyNCmp(v, "apos;", 5) == 0 then Some(('\'', 5))
    else if KeyNCmp(v, "gt;", 3) == 0 then Some(('>', 3))
    else if KeyNCmp(v, "lt;", 3) == 0 then Some(('<', 3))
    else if KeyNCmp(v, "#xA;", 4) == 0 then Some(('\n', 4))
    else if KeyNCmp(v, "#xD;", 4) == 0 then Some(('\r', 4))
    else None
  }

  /** On a C string the keyncmp tests find the entity the text starts with. */
  lemma KeyedEntityIsEntity(v: string)
    requires NoNul(v)
    ensures KeyedEntity(v) == Entity(v)
  {
    KeyNCmpZero(v, "amp;");
    if !StartsWith(v, "amp;") {
      KeyNCmpZero(v, "quot;");
      if !StartsWith(v, "quot;") {
        KeyNCmpZero(v, "apos;");
        if !StartsWith(v, "apos;") {
          KeyNCmpZero(v, "gt;");
          if !StartsWith(v, "gt;") {
            KeyNCmpZero(v, "lt;");
            if !StartsWith(v, "lt;") {
              KeyNCmpZero(v, "#xA;");
              if !StartsWith(v, "#xA;") {
                KeyNCmpZero(v, "#xD;");
              }
            }
          }
        }
      }
    }
  }

  /**
   * The CDATA copy loop, started at the "<![CDATA[" opener at the head of u:
   * copy up to the first "]]>", or fail at the NUL.
   */
  method CopyCdata(u: string, cdata: bool) returns (found: bool, content: string, after: string)
    requires NoNul(u) && CdataAt(u, cdata)
    ensures found <==> SrcLib.Find(u[9..], "]]>", 0).Some?
    ensures found ==> content == u[9..][..SrcLib.Find(u[9..], "]]>", 0).value]
    ensures found ==> after == u[9..][SrcLib.Find(u[9..], "]]>", 0).value + 3..]
    ensures !found ==> Unesc(u, cdata) == Err(UnclosedCdata)
    ensures found ==> |after| < |u| && NoNul(after) && Unesc(u, cdata) == Prepend(content, Unesc(after, cdata))
  {
    var body := u[9..];
    var k := 0;
    content := [];
    while k < |body|
      invariant k <= |body| && content == body[..k]
      invariant forall j :: 0 <= j < k ==> !SrcLib.OccursAt(body, "]]>", j)
    {
      CloserTest(body, k);
      if body[k] == ']' && StringHelper.At(body, k + 1) == ']' && StringHelper.At(body, k + 2) == '>' {
        FindFirstAt(body, "]]>", k);
        return true, content, body[k + 3..];
      }
      content := content + [body[k]];
      k := k + 1;
    }
    FindNoneAll(body, "]]>");
    return false, content, [];
  }

  /** The three-character test of the copy loop is an occurrence of "]]>". */
  lemma CloserTest(body: string, k: nat)
    requires NoNul(body) && k < |body|
    ensures (body[k] == ']' && StringHelper.At(body, k + 1) == ']' && StringHelper.At(body, k + 2) == '>')
      <==> SrcLib.OccursAt(body, "]]>", k)
  {
    if SrcLib.OccursAt(body, "]]>", k) {
      assert body[k..k + 3][1] == body[k + 1];
      assert body[k..k + 3][2] == body[k + 2];
    }
    if body[k] == ']' && StringHelper.At(body, k + 1) == ']' && StringHelper.At(body, k + 2) == '>' {
      assert k + 2 < |body|;
      assert body[k..k + 3] == "]]>";
    }
  }

  /** The first occurrence is the one Find reports. */
  lemma FindFirstAt(s: string, t: string, k: nat)
    requires SrcLib.OccursAt(s, t, k)
    requires forall j :: 0 <= j < k ==> !SrcLib.OccursAt(s, t, j)
    ensures SrcLib.Find(s, t, 0) == Some(k)
  {
  }

  /** No occurrence at any starting position: Find reports none. */
  lemma FindNoneAll(s: string, t: string)
    requires forall j :: 0 <= j < |s| ==> !SrcLib.OccursAt(s, t, j)
    requires t != []
    ensures SrcLib.Find(s, t, 0).None?
  {
  }


  // ---------------------------------------------------------------------------
  // Tags and attributes

  /** The quote state before position k of a scan that started at p: 0 outside quotes, else the open quote. */
  function QuoteBefore(s: string, p: nat, k: nat): char
    requires p <= k
    decreases k - p
  {
    if k == p then '\0'
    else
      var q, c := QuoteBefore(s, p, k - 1), StringHelper.At(s, k - 1);
      if q == '\0' then (if c == '"' || c == '\'' then c else '\0')
      else if c == q then '\0'
      else q
  }

  /** ScanForTagEnd: advance to the first '>' outside quotes, or to the NUL. */
  method ScanForTagEnd(s: string, p: nat) returns (e: nat)
    ensures p <= e
    ensures StringHelper.At(s, e) == '\0' || (StringHelper.At(s, e) == '>' && QuoteBefore(s, p, e) == '\0')
    ensures forall k :: p <= k < e ==> StringHelper.At(s, k) != '\0' && (StringHelper.At(s, k) == '>' ==> QuoteBefore(s, p, k) != '\0')
  {
    var quote := '\0';
    e := p;
    while StringHelper.At(s, e) != '\0'
      invariant p <= e && quote == QuoteBefore(s, p, e)
      invariant forall k :: p <= k < e ==> StringHelper.At(s, k) != '\0' && (StringHelper.At(s, k) == '>' ==> QuoteBefore(s, p, k) != '\0')
      decreases |s| - e
    {
      var c := StringHelper.At(s, e);
      if quote == '\0' {
        if c == '"' || c == '\'' {
          quote := c;
        } else if c == '>' {
          break;
        }
      } else if c == quote {
        quote := '\0';
      }
      e := e + 1;
    }
  }

  /** ASCII toupper. */
  function ToUpper(c: char): char
  {
    if 'a' <= c <= 'z' then (c as int - 32) as char else c
  }

  /** GetAttributeDefault(bool): the default for a missing or empty attribute, else whether it starts with 'T' or 't'. */
  function BoolAttribute(attr: string, default: bool): (b: bool)
    ensures attr == [] ==> b == default
    ensures attr != [] ==> (b <==> attr[0] == 'T' || attr[0] == 't')
  {
    if attr == [] then default else 'T' == ToUpper(attr[0])
  }
}
