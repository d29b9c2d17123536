/** `Utils.escapeHtml`: the escaping applied to every user-supplied text field
    before it is put into card or comment markup. */
module Escape {
  import opened Text

  /** `s.replaceAll(c, rep)` for a one-character pattern: every occurrence of
      `c`, scanned left to right, is replaced by `rep`. */
  function ReplaceAll(s: string, c: char, rep: string): (r: string)
    ensures c !in rep ==> c !in r
    ensures forall d :: d in r ==> d in s || d in rep
  {
    if s == [] then [] else (if s[0] == c then rep else [s[0]]) + ReplaceAll(s[1..], c, rep)
  }

  /** The five `replaceAll` calls, in the order the source makes them:
      ampersand first, then the angle brackets and the two quotes. */
  function ReplaceSpecials(s: string): string {
    ReplaceAll(ReplaceAll(ReplaceAll(ReplaceAll(ReplaceAll(s,
      '&', "&amp;"), '<', "&lt;"), '>', "&gt;"), '"', "&quot;"), '\'', "&#039;")
  }

  /** `Utils.escapeHtml`: a falsy (empty) input gives the empty string,
      anything else goes through the replacements. */
  function EscapeHtml(unsafe: string): string {
    if unsafe == [] then [] else ReplaceSpecials(unsafe)
  }

  /** The characters that are significant in HTML markup and attributes. */
  predicate IsMarkupChar(c: char) {
    c == '&' || c == '<' || c == '>' || c == '"' || c == '\''
  }

  /** The entity that stands for one character in the escaped text. */
  function EscapeChar(c: char): (r: string)
    ensures |r| >= 1
    ensures IsMarkupChar(c) ==> r[0] == '&' && StartsEntity(r)
    ensures !IsMarkupChar(c) ==> r == [c]
    ensures forall k :: 0 < k < |r| ==> !IsMarkupChar(r[k])
  {
    if c == '&' then "&amp;"
    else if c == '<' then "&lt;"
    else if c == '>' then "&gt;"
    else if c == '"' then "&quot;"
    else if c == '\'' then "&#039;"
    else [c]
  }

  /** Reference definition: each character escaped on its own, in one pass. */
  function EscapeEach(s: string): string {
    if s == [] then [] else EscapeChar(s[0]) + EscapeEach(s[1..])
  }

  /** `s` starts with one of the five entities `escapeHtml` introduces. */
  predicate StartsEntity(s: string) {
    StartsWith(s, "&amp;") || StartsWith(s, "&lt;") || StartsWith(s, "&gt;")
    || StartsWith(s, "&quot;") || StartsWith(s, "&#039;")
  }

  /** Inverse of the escaping: each entity back to its character. */
  function Unescape(s: string): string
    decreases |s|
  {
    if s == [] then []
    else if StartsWith(s, "&amp;") then "&" + Unescape(s[5..])
    else if StartsWith(s, "&lt;") then "<" + Unescape(s[4..])
    else if StartsWith(s, "&gt;") then ">" + Unescape(s[4..])
    else if StartsWith(s, "&quot;") then "\"" + Unescape(s[6..])
    else if StartsWith(s, "&#039;") then "'" + Unescape(s[6..])
    else [s[0]] + Unescape(s[1..])
  }

  lemma {:induction false} ReplaceAllAppend(a: string, b: string, c: char, rep: string)
    ensures ReplaceAll(a + b, c, rep) == ReplaceAll(a, c, rep) + ReplaceAll(b, c, rep)
  {
    if a != [] {
      assert (a + b)[1..] == a[1..] + b;
      ReplaceAllAppend(a[1..], b, c, rep);
    } else {
      assert a + b == b;
    }
  }

  lemma ReplaceAllSingle(x: char, c: char, rep: string)
    ensures ReplaceAll([x], c, rep) == if x == c then rep else [x]
  {
    assert [x][1..] == [];
  }

  lemma {:induction false} ReplaceAllAbsent(s: string, c: char, rep: string)
    requires c !in s
    ensures ReplaceAll(s, c, rep) == s
  {
    if s != [] {
      ReplaceAllAbsent(s[1..], c, rep);
    }
  }

  lemma ReplaceSpecialsAppend(a: string, b: string)
    ensures ReplaceSpecials(a + b) == ReplaceSpecials(a) + ReplaceSpecials(b)
  {
    var a1, b1 := ReplaceAll(a, '&', "&amp;"), ReplaceAll(b, '&', "&amp;");
    ReplaceAllAppend(a, b, '&', "&amp;");
    var a2, b2 := ReplaceAll(a1, '<', "&lt;"), ReplaceAll(b1, '<', "&lt;");
    ReplaceAllAppend(a1, b1, '<', "&lt;");
    var a3, b3 := ReplaceAll(a2, '>', "&gt;"), ReplaceAll(b2, '>', "&gt;");
    ReplaceAllAppend(a2, b2, '>', "&gt;");
    var a4, b4 := ReplaceAll(a3, '"', "&quot;"), ReplaceAll(b3, '"', "&quot;");
    ReplaceAllAppend(a3, b3, '"', "&quot;");
    ReplaceAllAppend(a4, b4, '\'', "&#039;");
  }

  /** Replacing one character at a time gives the same result for one character
      as its entity: no later replacement touches an entity an earlier one made. */
  lemma ReplaceSpecialsChar(x: char)
    ensures ReplaceSpecials([x]) == EscapeChar(x)
  {
    ReplaceAllSingle(x, '&', "&amp;");
    if x == '&' {
      EntityPasses("&amp;");
    } else {
      ReplaceAllSingle(x, '<', "&lt;");
      if x == '<' {
        EntityPasses("&lt;");
      } else {
        ReplaceAllSingle(x, '>', "&gt;");
        if x == '>' {
          EntityPasses("&gt;");
        } else {
          ReplaceAllSingle(x, '"', "&quot;");
          if x == '"' {
            EntityPasses("&quot;");
          } else {
            ReplaceAllSingle(x, '\'', "&#039;");
          }
        }
      }
    }
  }

  /** An entity made at one stage passes the later stages unchanged. */
  lemma EntityPasses(e: string)
    requires |e| > 0 && e[0] == '&' && forall k :: 1 <= k < |e| ==> !IsMarkupChar(e[k])
    ensures ReplaceAll(e, '<', "&lt;") == e
    ensures ReplaceAll(e, '>', "&gt;") == e
    ensures ReplaceAll(e, '"', "&quot;") == e
    ensures ReplaceAll(e, '\'', "&#039;") == e
  {
    ReplaceAllAbsent(e, '<', "&lt;");
    ReplaceAllAbsent(e, '>', "&gt;");
    ReplaceAllAbsent(e, '"', "&quot;");
    ReplaceAllAbsent(e, '\'', "&#039;");
  }

  /** The chain of `replaceAll` calls equals escaping each character on its
      own: because `&` is replaced first, no entity is escaped twice. */
  lemma {:induction false} EscapeHtmlIsPerChar(s: string)
    ensures EscapeHtml(s) == EscapeEach(s)
  {
    if s != [] {
      assert s == [s[0]] + s[1..];
      ReplaceSpecialsAppend([s[0]], s[1..]);
      ReplaceSpecialsChar(s[0]);
      EscapeHtmlIsPerChar(s[1..]);
    }
  }

  /** Properties of the one-pass escaping, by induction on the input. */
  lemma {:induction false} EscapeEachSafe(s: string)
    ensures forall k :: 0 <= k < |EscapeEach(s)| ==>
      (EscapeEach(s)[k] == '&' ==> StartsEntity(EscapeEach(s)[k..]))
      && EscapeEach(s)[k] !in "<>\"'"
    ensures Unescape(EscapeEach(s)) == s
  {
    if s != [] {
      var head, tail := EscapeChar(s[0]), EscapeEach(s[1..]);
      var r := head + tail;
      EscapeEachSafe(s[1..]);
      forall k | 0 <= k < |r|
        ensures (r[k] == '&' ==> StartsEntity(r[k..])) && r[k] !in "<>\"'"
      {
        if k == 0 {
          assert r[k] == head[0];
          if IsMarkupChar(s[0]) {
            assert r[k..][..|head|] == head;
          }
        } else if k < |head| {
          assert r[k] == head[k];
        } else {
          assert r[k] == tail[k - |head|];
          assert r[k..] == tail[k - |head|..];
        }
      }
      UnescapeHead(s[0], tail);
    }
  }

  lemma UnescapeHead(c: char, t: string)
    ensures Unescape(EscapeChar(c) + t) == [c] + Unescape(t)
  {
    var e := EscapeChar(c);
    var r := e + t;
    assert r[..|e|] == e && r[|e|..] == t;
    if c == '&' {
      assert StartsWith(r, "&amp;");
    } else if c == '<' {
      assert !StartsWith(r, "&amp;") by { assert r[1] == 'l'; }
      assert StartsWith(r, "&lt;");
    } else if c == '>' {
      assert !StartsWith(r, "&amp;") && !StartsWith(r, "&lt;") by { assert r[1] == 'g'; }
      assert StartsWith(r, "&gt;");
    } else if c == '"' {
      assert !StartsWith(r, "&amp;") && !StartsWith(r, "&lt;") && !StartsWith(r, "&gt;")
        by { assert r[1] == 'q'; }
      assert StartsWith(r, "&quot;");
    } else if c == '\'' {
      assert !StartsWith(r, "&amp;") && !StartsWith(r, "&lt;") && !StartsWith(r, "&gt;")
        && !StartsWith(r, "&quot;") by { assert r[1] == '#'; }
      assert StartsWith(r, "&#039;");
    } else {
      assert !StartsEntity(r) by { assert r[0] == c != '&'; }
      assert r[1..] == t;
    }
  }

  /** What `escapeHtml` guarantees of its output: empty for an empty input; no
      angle bracket or quote survives; every ampersand begins one of the five
      entities; unescaping gives the input back, so no information is lost;
      and text without markup characters passes through unchanged. */
  lemma EscapeHtmlSafe(s: string)
    ensures s == [] ==> EscapeHtml(s) == []
    ensures forall k :: 0 <= k < |EscapeHtml(s)| ==> EscapeHtml(s)[k] !in "<>\"'"
    ensures forall k :: 0 <= k < |EscapeHtml(s)| && EscapeHtml(s)[k] == '&' ==>
      StartsEntity(EscapeHtml(s)[k..])
    ensures Unescape(EscapeHtml(s)) == s
    ensures (forall k :: 0 <= k < |s| ==> !IsMarkupChar(s[k])) ==> EscapeHtml(s) == s
  {
    EscapeHtmlIsPerChar(s);
    EscapeEachSafe(s);
    if forall k :: 0 <= k < |s| ==> !IsMarkupChar(s[k]) {
      EscapeEachPlain(s);
    }
  }

  lemma {:induction false} EscapeEachPlain(s: string)
    requires forall k :: 0 <= k < |s| ==> !IsMarkupChar(s[k])
    ensures EscapeEach(s) == s
  {
    if s != [] {
      EscapeEachPlain(s[1..]);
    }
  }
}
