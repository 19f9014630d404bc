/**
 SanitizationMiddleware.sanitizeString: tag stripping, six sequential replacements, and
 removal of control characters.
 */
module Sanitization {
  import opened Common

  // ---------- the passes ----------

  // The position of the first c at or after position i, or |s|.
  function Find(s: string, c: char, i: nat): (r: nat)
    requires i <= |s|
    ensures i <= r <= |s|
    ensures r < |s| ==> s[r] == c
    ensures c !in s[i..r]
    decreases |s| - i
  {
    if i == |s| || s[i] == c then i
    else
      var r := Find(s, c, i + 1);
      assert s[i..r] == [s[i]] + s[i+1..r];
      r
  }

  // replace(/<[^>]*>/g, ''): from the left, every '<' up to the next '>' is dropped.
  function Strip(s: string): string
    decreases |s|
  {
    if s == [] then []
    else if s[0] == '<' && Find(s, '>', 1) < |s| then Strip(s[Find(s, '>', 1)+1..])
    else [s[0]] + Strip(s[1..])
  }

  // replace(/c/g, by)
  function ReplaceAll(s: string, c: char, with: string): string {
    if s == [] then [] else (if s[0] == c then with else [s[0]]) + ReplaceAll(s[1..], c, with)
  }

  function Entity(c: char): string {
    if c == '&' then "&amp;"
    else if c == '<' then "&lt;"
    else if c == '>' then "&gt;"
    else if c == '"' then "&quot;"
    else if c == '\'' then "&#x27;"
    else if c == '/' then "&#x2F;"
    else [c]
  }

  function EscapePasses(s: string): string {
    var s1 := ReplaceAll(s, '&', "&amp;");
    var s2 := ReplaceAll(s1, '<', "&lt;");
    var s3 := ReplaceAll(s2, '>', "&gt;");
    var s4 := ReplaceAll(s3, '"', "&quot;");
    var s5 := ReplaceAll(s4, '\'', "&#x27;");
    ReplaceAll(s5, '/', "&#x2F;")
  }

  predicate IsControl(c: char) {
    var n := c as int;
    n <= 8 || n == 11 || n == 12 || 14 <= n <= 31 || n == 127
  }

  function RemoveControls(s: string): string {
    if s == [] then [] else (if IsControl(s[0]) then [] else [s[0]]) + RemoveControls(s[1..])
  }

  function SanitizeString(s: string): string {
    if s == [] then s
    else RemoveControls(ReplaceAll(EscapePasses(Strip(s)), 0 as char, []))
  }

  // ---------- tag stripping ----------

  // No '<' has a '>' anywhere after it.
  ghost predicate TagFree(s: string) {
    forall i, j :: 0 <= i < j < |s| ==> !(s[i] == '<' && s[j] == '>')
  }

  lemma TagFreeCons(s: string)
    requires s != []
    ensures TagFree(s) <==> TagFree(s[1..]) && (s[0] == '<' ==> '>' !in s[1..])
  {
    if TagFree(s) {
      forall i, j | 0 <= i < j < |s[1..]| ensures !(s[1..][i] == '<' && s[1..][j] == '>') {
        assert !(s[i+1] == '<' && s[j+1] == '>');
      }
    }
  }

  lemma {:induction false} StripKeepsGtFree(s: string)
    requires '>' !in s
    ensures '>' !in Strip(s)
    decreases |s|
  {
    if s != [] {
      StripKeepsGtFree(s[1..]);
    }
  }

  lemma {:induction false} StripLeavesNoTag(s: string)
    ensures TagFree(Strip(s))
    decreases |s|
  {
    if s != [] {
      var j := Find(s, '>', 1);
      if s[0] == '<' && j < |s| {
        StripLeavesNoTag(s[j+1..]);
      } else {
        var t := Strip(s[1..]);
        StripLeavesNoTag(s[1..]);
        if s[0] == '<' {
          assert s[1..j] == s[1..];
          StripKeepsGtFree(s[1..]);
        }
        assert ([s[0]] + t)[1..] == t;
        TagFreeCons([s[0]] + t);
      }
    }
  }

  lemma {:induction false} StripKeepsTagless(s: string)
    requires TagFree(s)
    ensures Strip(s) == s
    decreases |s|
  {
    if s != [] {
      TagFreeCons(s);
      var j := Find(s, '>', 1);
      assert j < |s| ==> s[j] == s[1..][j-1];
      StripKeepsTagless(s[1..]);
    }
  }

  lemma {:induction false} FindFirst(a: string, c: char, rest: string, i: nat)
    requires i <= |a| && c !in a[i..]
    ensures Find(a + [c] + rest, c, i) == |a|
    decreases |a| - i
  {
    if i < |a| {
      assert a[i] in a[i..] && a[i..][1..] == a[i+1..];
      FindFirst(a, c, rest, i + 1);
    }
  }

  // What stripping does to a string with a tag: the first '<' is dropped up to the first
  // '>' after it. With StripKeepsTagless this says what Strip is on every string.
  lemma {:induction false} StripRemovesFirstTag(a: string, b: string, c: string)
    requires '<' !in a && '>' !in b
    ensures Strip(a + ['<'] + b + ['>'] + c) == a + Strip(c)
    decreases |a|
  {
    var s := a + ['<'] + b + ['>'] + c;
    if a == [] {
      assert s == ['<'] + b + ['>'] + c;
      FindFirst(['<'] + b, '>', c, 1);
      assert s[|b|+2..] == c;
      assert [] + Strip(c) == Strip(c);
    } else {
      assert s[1..] == a[1..] + ['<'] + b + ['>'] + c;
      StripRemovesFirstTag(a[1..], b, c);
      assert [a[0]] + (a[1..] + Strip(c)) == a + Strip(c);
    }
  }

  lemma StripIdempotent(s: string)
    ensures Strip(Strip(s)) == Strip(s)
  {
    StripLeavesNoTag(s);
    StripKeepsTagless(Strip(s));
  }

  // ---------- escaping is one pass ----------

  // The character-wise substitution.
  function Escape(s: string): string {
    if s == [] then [] else Entity(s[0]) + Escape(s[1..])
  }

  lemma {:induction false} ReplaceAllConcat(a: string, b: string, c: char, with: string)
    ensures ReplaceAll(a + b, c, with) == ReplaceAll(a, c, with) + ReplaceAll(b, c, with)
  {
    if a == [] {
      assert a + b == b;
    } else {
      ReplaceAllConcat(a[1..], b, c, with);
      assert (a + b)[1..] == a[1..] + b && (a + b)[0] == a[0];
      var head, x, y := if a[0] == c then with else [a[0]], ReplaceAll(a[1..], c, with), ReplaceAll(b, c, with);
      assert head + (x + y) == (head + x) + y;
    }
  }

  lemma {:induction false} ReplaceAllAbsent(s: string, c: char, with: string)
    requires c !in s
    ensures ReplaceAll(s, c, with) == s
  {
    if s != [] {
      ReplaceAllAbsent(s[1..], c, with);
    }
  }

  lemma EscapePassesConcat(a: string, b: string)
    ensures EscapePasses(a + b) == EscapePasses(a) + EscapePasses(b)
  {
    ReplaceAllConcat(a, b, '&', "&amp;");
    var a1, b1 := ReplaceAll(a, '&', "&amp;"), ReplaceAll(b, '&', "&amp;");
    ReplaceAllConcat(a1, b1, '<', "&lt;");
    var a2, b2 := ReplaceAll(a1, '<', "&lt;"), ReplaceAll(b1, '<', "&lt;");
    ReplaceAllConcat(a2, b2, '>', "&gt;");
    var a3, b3 := ReplaceAll(a2, '>', "&gt;"), ReplaceAll(b2, '>', "&gt;");
    ReplaceAllConcat(a3, b3, '"', "&quot;");
    var a4, b4 := ReplaceAll(a3, '"', "&quot;"), ReplaceAll(b3, '"', "&quot;");
    ReplaceAllConcat(a4, b4, '\'', "&#x27;");
    var a5, b5 := ReplaceAll(a4, '\'', "&#x27;"), ReplaceAll(b4, '\'', "&#x27;");
    ReplaceAllConcat(a5, b5, '/', "&#x2F;");
  }

  lemma ReplaceOne(x: char, c: char, with: string)
    ensures ReplaceAll([x], c, with) == if x == c then with else [x]
  {
    assert ReplaceAll([x][1..], c, with) == [];
  }

  lemma Inert(e: string)
    requires '<' !in e && '>' !in e && '"' !in e && '\'' !in e && '/' !in e
    ensures ReplaceAll(e, '<', "&lt;") == ReplaceAll(e, '>', "&gt;") == ReplaceAll(e, '"', "&quot;") == e
    ensures ReplaceAll(e, '\'', "&#x27;") == ReplaceAll(e, '/', "&#x2F;") == e
  {
    ReplaceAllAbsent(e, '<', "&lt;");
    ReplaceAllAbsent(e, '>', "&gt;");
    ReplaceAllAbsent(e, '"', "&quot;");
    ReplaceAllAbsent(e, '\'', "&#x27;");
    ReplaceAllAbsent(e, '/', "&#x2F;");
  }

  predicate Special(c: char) {
    c == '&' || c == '<' || c == '>' || c == '"' || c == '\'' || c == '/'
  }

  lemma EntityIsInert(x: char)
    requires Special(x)
    ensures var e := Entity(x); '<' !in e && '>' !in e && '"' !in e && '\'' !in e && '/' !in e
  {
  }

  lemma EscapePassesOne(x: char)
    ensures EscapePasses([x]) == Entity(x)
  {
    ReplaceOne(x, '&', "&amp;");
    ReplaceOne(x, '<', "&lt;");
    ReplaceOne(x, '>', "&gt;");
    ReplaceOne(x, '"', "&quot;");
    ReplaceOne(x, '\'', "&#x27;");
    ReplaceOne(x, '/', "&#x2F;");
    if Special(x) {
      EntityIsInert(x);
      Inert(Entity(x));
    }
  }

  // The six replacements in sequence are one substitution: no pass touches what an earlier
  // pass wrote.
  lemma {:induction false} EscapeIsOnePass(s: string)
    ensures EscapePasses(s) == Escape(s)
  {
    if s != [] {
      assert s == [s[0]] + s[1..];
      EscapePassesConcat([s[0]], s[1..]);
      EscapePassesOne(s[0]);
      EscapeIsOnePass(s[1..]);
    }
  }

  // ---------- control characters ----------

  lemma {:induction false} RemoveControlsConcat(a: string, b: string)
    ensures RemoveControls(a + b) == RemoveControls(a) + RemoveControls(b)
  {
    if a == [] {
      assert a + b == b;
    } else {
      RemoveControlsConcat(a[1..], b);
      assert (a + b)[1..] == a[1..] + b && (a + b)[0] == a[0];
      var head, x, y := if IsControl(a[0]) then [] else [a[0]], RemoveControls(a[1..]), RemoveControls(b);
      assert head + (x + y) == (head + x) + y;
    }
  }

  lemma {:induction false} NoControlsToRemove(s: string)
    requires forall c :: c in s ==> !IsControl(c)
    ensures RemoveControls(s) == s
  {
    if s != [] {
      NoControlsToRemove(s[1..]);
    }
  }

  lemma {:induction false} NullPassIsCovered(s: string)
    ensures RemoveControls(ReplaceAll(s, 0 as char, [])) == RemoveControls(s)
  {
    if s != [] {
      NullPassIsCovered(s[1..]);
      var rest := ReplaceAll(s[1..], 0 as char, []);
      if s[0] != 0 as char {
        assert ([s[0]] + rest)[1..] == rest;
      } else {
        assert [] + rest == rest;
      }
    }
  }

  lemma EntityHasNoControls(c: char)
    requires !IsControl(c)
    ensures forall x :: x in Entity(c) ==> !IsControl(x)
  {
  }

  // Removing control characters after escaping is removing them before.
  lemma {:induction false} RemoveControlsEscape(s: string)
    ensures RemoveControls(Escape(s)) == Escape(RemoveControls(s))
  {
    if s != [] {
      RemoveControlsEscape(s[1..]);
      RemoveControlsConcat(Entity(s[0]), Escape(s[1..]));
      var rest := RemoveControls(s[1..]);
      if IsControl(s[0]) {
        assert Entity(s[0]) == [s[0]] && RemoveControls([s[0]]) == [];
        assert [] + rest == rest;
      } else {
        EntityHasNoControls(s[0]);
        NoControlsToRemove(Entity(s[0]));
        assert ([s[0]] + rest)[1..] == rest;
      }
    }
  }

  // ---------- the whole string ----------

  // What of the input survives: no tags, no control characters.
  function Text(s: string): string {
    RemoveControls(Strip(s))
  }

  lemma SanitizeIsEscapedText(s: string)
    ensures SanitizeString(s) == Escape(Text(s))
  {
    EscapeIsOnePass(Strip(s));
    NullPassIsCovered(Escape(Strip(s)));
    RemoveControlsEscape(Strip(s));
  }

  lemma EscapeConcat(a: string, b: string)
    ensures Escape(a + b) == Escape(a) + Escape(b)
  {
    EscapePassesConcat(a, b);
    EscapeIsOnePass(a);
    EscapeIsOnePass(b);
    EscapeIsOnePass(a + b);
  }

  lemma TagFreeParts(a: string, b: string)
    requires TagFree(a + b)
    ensures TagFree(a) && TagFree(b)
  {
    var s := a + b;
    assert forall i :: 0 <= i < |a| ==> a[i] == s[i];
    assert forall i :: 0 <= i < |b| ==> b[i] == s[|a| + i];
  }

  // Without tags, a string is sanitized character by character ...
  lemma SanitizeIsCharacterwise(a: string, b: string)
    requires TagFree(a + b)
    ensures SanitizeString(a + b) == SanitizeString(a) + SanitizeString(b)
  {
    TagFreeParts(a, b);
    StripKeepsTagless(a + b);
    StripKeepsTagless(a);
    StripKeepsTagless(b);
    SanitizeIsEscapedText(a + b);
    SanitizeIsEscapedText(a);
    SanitizeIsEscapedText(b);
    RemoveControlsConcat(a, b);
    EscapeConcat(RemoveControls(a), RemoveControls(b));
  }

  // ... each of them as follows: six are written as entities, the control characters other
  // than tab, line feed and carriage return vanish, and the rest stand.
  lemma SanitizeCharacter(c: char)
    ensures SanitizeString([c]) ==
            if c == '\t' || c == '\n' || c == '\r' then [c]
            else if c as int < 32 || c as int == 127 then ""
            else if c == '&' then "&amp;"
            else if c == '<' then "&lt;"
            else if c == '>' then "&gt;"
            else if c == '"' then "&quot;"
            else if c == '\'' then "&#x27;"
            else if c == '/' then "&#x2F;"
            else [c]
  {
    StripKeepsTagless([c]);
    SanitizeIsEscapedText([c]);
    assert RemoveControls([c]) == if IsControl(c) then [] else [c];
    EscapeOne(c);
  }

  lemma EscapeOne(c: char)
    ensures Escape([c]) == Entity(c) && Escape([]) == []
  {
    assert [c][1..] == [];
  }

  // The character whose entity s begins with, if any.
  function EntityAt(s: string): Option<char> {
    if "&amp;" <= s then Some('&')
    else if "&lt;" <= s then Some('<')
    else if "&gt;" <= s then Some('>')
    else if "&quot;" <= s then Some('"')
    else if "&#x27;" <= s then Some('\'')
    else if "&#x2F;" <= s then Some('/')
    else None
  }

  function Decode(s: string): string
    decreases |s|
  {
    if s == [] then []
    else
      match EntityAt(s)
      case Some(c) => [c] + Decode(s[|Entity(c)|..])
      case None => [s[0]] + Decode(s[1..])
  }

  lemma EntityRecognized(c: char, rest: string)
    ensures EntityAt(Entity(c) + rest) == if Special(c) then Some(c) else None
  {
    var s := Entity(c) + rest;
    if Special(c) {
      assert Entity(c) <= s;
      assert s[1] == Entity(c)[1] && s[2] == Entity(c)[2];
      if c == '\'' || c == '/' { assert s[4] == Entity(c)[4]; }
    } else {
      assert s[0] == c;
    }
  }

  lemma {:induction false} DecodeInvertsEscape(t: string)
    ensures Decode(Escape(t)) == t
  {
    if t != [] {
      EntityRecognized(t[0], Escape(t[1..]));
      assert Escape(t)[|Entity(t[0])|..] == Escape(t[1..]);
      DecodeInvertsEscape(t[1..]);
    }
  }

  // Decoding the output recovers exactly the text of the input.
  lemma SanitizeInvertible(s: string)
    ensures Decode(SanitizeString(s)) == Text(s)
  {
    SanitizeIsEscapedText(s);
    DecodeInvertsEscape(Text(s));
  }

  ghost predicate Harmless(c: char) {
    c != '<' && c != '>' && c != '"' && c != '\'' && c != '/' && !IsControl(c)
  }

  ghost predicate AmpersandsDecode(s: string) {
    forall i :: 0 <= i < |s| && s[i] == '&' ==> EntityAt(s[i..]).Some?
  }

  // None of < > " ' / and no control character; every & begins one of the six entities.
  ghost predicate Safe(s: string) {
    (forall c :: c in s ==> Harmless(c)) && AmpersandsDecode(s)
  }

  lemma EntityIsHarmless(x: char)
    requires !IsControl(x)
    ensures forall c :: c in Entity(x) ==> Harmless(c)
    ensures forall i :: 0 <= i < |Entity(x)| && Entity(x)[i] == '&' ==> i == 0 && Special(x)
  {
    EntityHasNoControls(x);
    if Special(x) { EntityIsInert(x); }
  }

  lemma {:induction false} EscapeIsHarmless(t: string)
    requires forall c :: c in t ==> !IsControl(c)
    ensures forall c :: c in Escape(t) ==> Harmless(c)
  {
    if t != [] {
      assert t[0] in t;
      EscapeIsHarmless(t[1..]);
      EntityIsHarmless(t[0]);
    }
  }

  lemma {:induction false} EscapeAmpersandsDecode(t: string)
    requires forall c :: c in t ==> !IsControl(c)
    ensures AmpersandsDecode(Escape(t))
  {
    if t != [] {
      assert t[0] in t;
      var e, rest := Entity(t[0]), Escape(t[1..]);
      EscapeAmpersandsDecode(t[1..]);
      EntityRecognized(t[0], rest);
      EntityIsHarmless(t[0]);
      forall i | 0 <= i < |e + rest| && (e + rest)[i] == '&' ensures EntityAt((e + rest)[i..]).Some? {
        if i < |e| {
          assert e[i] == '&' && (e + rest)[0..] == e + rest;
        } else {
          assert rest[i - |e|] == '&' && (e + rest)[i..] == rest[i - |e|..];
        }
      }
    }
  }

  lemma {:induction false} TextHasNoControls(s: string)
    ensures forall c :: c in RemoveControls(s) ==> !IsControl(c)
  {
    if s != [] {
      TextHasNoControls(s[1..]);
    }
  }

  lemma SanitizeIsSafe(s: string)
    ensures Safe(SanitizeString(s))
  {
    SanitizeIsEscapedText(s);
    TextHasNoControls(Strip(s));
    EscapeIsHarmless(Text(s));
    EscapeAmpersandsDecode(Text(s));
  }

  // ---------- sanitizing twice ----------

  ghost predicate Plain(t: string) {
    forall c :: c in t ==> !Special(c)
  }

  lemma {:induction false} EscapeLength(t: string)
    ensures |Escape(t)| >= |t|
    ensures !Plain(t) ==> |Escape(t)| > |t|
  {
    if t != [] {
      EscapeLength(t[1..]);
      assert t == [t[0]] + t[1..];
    }
  }

  lemma {:induction false} EscapeKeepsPlain(t: string)
    requires Plain(t)
    ensures Escape(t) == t
  {
    if t != [] {
      assert t[0] in t;
      EscapeKeepsPlain(t[1..]);
      assert t == [t[0]] + t[1..];
    }
  }

  lemma EscapeFixedIff(t: string)
    ensures Escape(t) == t <==> Plain(t)
  {
    if Plain(t) {
      EscapeKeepsPlain(t);
    } else {
      EscapeLength(t);
    }
  }

  lemma SanitizeSanitized(s: string)
    ensures SanitizeString(SanitizeString(s)) == Escape(SanitizeString(s))
  {
    var out := SanitizeString(s);
    SanitizeIsSafe(s);
    assert TagFree(out) by {
      forall i | 0 <= i < |out| ensures out[i] != '<' { assert out[i] in out && Harmless(out[i]); }
    }
    StripKeepsTagless(out);
    assert forall c :: c in out ==> Harmless(c) ==> !IsControl(c);
    NoControlsToRemove(out);
    SanitizeIsEscapedText(out);
  }

  // A second pass changes the result exactly when the text held a special character: the
  // middleware is not idempotent.
  lemma SanitizeTwiceIff(s: string)
    ensures SanitizeString(SanitizeString(s)) == SanitizeString(s) <==> Plain(Text(s))
  {
    SanitizeSanitized(s);
    SanitizeIsEscapedText(s);
    EscapeFixedIff(Escape(Text(s)));
    if Plain(Text(s)) {
      EscapeKeepsPlain(Text(s));
    } else {
      EscapeKeepsAmpersand(Text(s));
      assert Special('&');
    }
  }

  lemma {:induction false} EscapeKeepsAmpersand(t: string)
    requires exists c :: c in t && Special(c)
    ensures '&' in Escape(t)
  {
    if !Special(t[0]) {
      assert t == [t[0]] + t[1..];
      EscapeKeepsAmpersand(t[1..]);
    } else {
      assert Escape(t)[0] == '&';
    }
  }
}
