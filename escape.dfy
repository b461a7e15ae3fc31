/** `escapeHtml`: one pass over the text that replaces each of the five
    HTML-special characters with its entity. */
module Escape {
  import opened Optional

  /** The characters `escapeHtml` replaces. */
  predicate IsSpecial(c: char)
  {
    c == '&' || c == '<' || c == '>' || c == '"' || c == '\''
  }

  /** The characters that may not appear raw in escaped text. */
  predicate IsMarkup(c: char)
  {
    c == '<' || c == '>' || c == '"' || c == '\''
  }

  function Entity(c: char): (r: string)
    requires IsSpecial(c)
  {
    match c
    case '&' => "&amp;"
    case '<' => "&lt;"
    case '>' => "&gt;"
    case '"' => "&quot;"
    case _ => "&#39;"
  }

  function EscapeChar(c: char): string
  {
    if IsSpecial(c) then Entity(c) else [c]
  }

  /** The replacement `str.replace(/[&<>"']/g, ...)` performs. */
  function EscapeText(s: string): (r: string)
    ensures |r| >= |s|
    ensures forall k :: 0 <= k < |r| ==> !IsMarkup(r[k])
  {
    if s == [] then [] else EscapeChar(s[0]) + EscapeText(s[1..])
  }

  /** `escapeHtml(str)`, where `None` stands for a missing value (`String(str || '')`). */
  function EscapeHtml(str: Option<string>): string
  {
    EscapeText(if str.Some? then str.value else "")
  }

  /** `s.replace(/pat/g, rep)` for a literal pattern: every non-overlapping
      occurrence, from left to right, is replaced. */
  function ReplaceAll(s: string, pat: string, rep: string): string
    requires pat != []
    decreases |s|
  {
    if s == [] then []
    else if pat <= s then rep + ReplaceAll(s[|pat|..], pat, rep)
    else [s[0]] + ReplaceAll(s[1..], pat, rep)
  }

  /** Decodes the five entities, `&amp;` last. */
  function Decode(t: string): string
  {
    var a := ReplaceAll(t, "&lt;", "<");
    var b := ReplaceAll(a, "&gt;", ">");
    var c := ReplaceAll(b, "&quot;", "\"");
    var d := ReplaceAll(c, "&#39;", "'");
    ReplaceAll(d, "&amp;", "&")
  }

  /** Escapes only the characters in `e`: the state of the text part-way
      through decoding. */
  function EscapeWith(s: string, e: set<char>): string
    requires forall c :: c in e ==> IsSpecial(c)
  {
    if s == [] then []
    else (if s[0] in e then Entity(s[0]) else [s[0]]) + EscapeWith(s[1..], e)
  }

  lemma {:induction false} EscapeWithAll(s: string)
    ensures EscapeWith(s, {'&', '<', '>', '"', '\''}) == EscapeText(s)
  {
    if s != [] {
      EscapeWithAll(s[1..]);
    }
  }

  lemma {:induction false} EscapeWithNone(s: string)
    ensures EscapeWith(s, {}) == s
  {
    if s != [] {
      EscapeWithNone(s[1..]);
      assert [s[0]] + s[1..] == s;
    }
  }

  /** Text without `&` passes through a replacement of an entity unchanged. */
  lemma {:induction false} ReplaceSkip(t: string, rest: string, pat: string, rep: string)
    requires pat != [] && pat[0] == '&' && '&' !in t
    ensures ReplaceAll(t + rest, pat, rep) == t + ReplaceAll(rest, pat, rep)
  {
    if t != [] {
      ReplaceSkip(t[1..], rest, pat, rep);
      assert (t + rest)[1..] == t[1..] + rest;
      assert [t[0]] + t[1..] == t;
    } else {
      assert t + rest == rest;
    }
  }

  /** Every entity starts with `&`, has no other `&`, and its second
      character tells which entity it is. */
  lemma EntityShape(x: char, c: char)
    requires IsSpecial(x) && IsSpecial(c)
    ensures |Entity(x)| >= 4 && Entity(x)[0] == '&' && '&' !in Entity(x)[1..]
    ensures x != c ==> Entity(x)[1] != Entity(c)[1]
  {
  }

  lemma ReplaceAtEntity(c: char, rest: string)
    requires IsSpecial(c)
    ensures ReplaceAll(Entity(c) + rest, Entity(c), [c]) == [c] + ReplaceAll(rest, Entity(c), [c])
  {
    var pat := Entity(c);
    assert (pat + rest)[|pat|..] == rest;
  }

  lemma ReplacePastEntity(x: char, c: char, rest: string)
    requires IsSpecial(x) && IsSpecial(c) && x != c
    ensures ReplaceAll(Entity(x) + rest, Entity(c), [c]) == Entity(x) + ReplaceAll(rest, Entity(c), [c])
  {
    EntityShape(x, c);
    EntityShape(c, x);
    ReplacePastAmpersand(Entity(x), rest, Entity(c), [c]);
  }

  /** A piece of text that starts with `&` but not with `pat`, and holds no
      other `&`, passes through the replacement of `pat` unchanged. */
  lemma ReplacePastAmpersand(t: string, rest: string, pat: string, rep: string)
    requires |t| >= 2 && |pat| >= 2 && t[0] == '&' && pat[0] == '&' && '&' !in t[1..]
    requires t[1] != pat[1]
    ensures ReplaceAll(t + rest, pat, rep) == t + ReplaceAll(rest, pat, rep)
  {
    assert !(pat <= t + rest) by {
      assert (t + rest)[1] == t[1];
    }
    assert (t + rest)[1..] == t[1..] + rest;
    ReplaceSkip(t[1..], rest, pat, rep);
    assert [t[0]] + t[1..] == t;
  }

  lemma ReplacePastChar(x: char, c: char, rest: string)
    requires IsSpecial(c) && x != '&'
    ensures ReplaceAll([x] + rest, Entity(c), [c]) == [x] + ReplaceAll(rest, Entity(c), [c])
  {
    EntityShape(c, c);
    assert ([x] + rest)[1..] == rest;
  }

  /** Replacing the entity of `c` by `c` undoes exactly the escaping of `c`,
      as long as `&` is still escaped. */
  lemma {:induction false} DecodeStep(s: string, e: set<char>, c: char)
    requires forall x :: x in e ==> IsSpecial(x)
    requires '&' in e && c in e
    ensures ReplaceAll(EscapeWith(s, e), Entity(c), [c]) == EscapeWith(s, e - {c})
  {
    if s != [] {
      var x := s[0];
      var rest := EscapeWith(s[1..], e);
      DecodeStep(s[1..], e, c);
      if x in e && x == c {
        assert EscapeWith(s, e) == Entity(c) + rest;
        ReplaceAtEntity(c, rest);
      } else if x in e {
        assert EscapeWith(s, e) == Entity(x) + rest;
        ReplacePastEntity(x, c, rest);
      } else {
        assert EscapeWith(s, e) == [x] + rest;
        ReplacePastChar(x, c, rest);
      }
    }
  }

  /** Decoding the five entities, `&amp;` last, recovers `String(str || '')`. */
  lemma EscapeHtmlRoundTrip(str: Option<string>)
    ensures Decode(EscapeHtml(str)) == if str.Some? then str.value else ""
    ensures str.None? ==> EscapeHtml(str) == ""
  {
    DecodeEscapeText(if str.Some? then str.value else "");
  }

  lemma DecodeEscapeText(s: string)
    ensures Decode(EscapeText(s)) == s
  {
    DecodeLt(s);
    DecodeGt(s);
    DecodeQuot(s);
    DecodeApos(s);
    DecodeAmp(s);
  }

  /** The five decoding steps, each undoing the escaping of one character. */
  lemma DecodeLt(s: string)
    ensures ReplaceAll(EscapeText(s), "&lt;", "<") == EscapeWith(s, {'&', '>', '"', '\''})
  {
    EscapeWithAll(s);
    DecodeStep(s, {'&', '<', '>', '"', '\''}, '<');
    assert {'&', '<', '>', '"', '\''} - {'<'} == {'&', '>', '"', '\''};
  }

  lemma DecodeGt(s: string)
    ensures ReplaceAll(EscapeWith(s, {'&', '>', '"', '\''}), "&gt;", ">") == EscapeWith(s, {'&', '"', '\''})
  {
    DecodeStep(s, {'&', '>', '"', '\''}, '>');
    assert {'&', '>', '"', '\''} - {'>'} == {'&', '"', '\''};
  }

  lemma DecodeQuot(s: string)
    ensures ReplaceAll(EscapeWith(s, {'&', '"', '\''}), "&quot;", "\"") == EscapeWith(s, {'&', '\''})
  {
    DecodeStep(s, {'&', '"', '\''}, '"');
    assert {'&', '"', '\''} - {'"'} == {'&', '\''};
  }

  lemma DecodeApos(s: string)
    ensures ReplaceAll(EscapeWith(s, {'&', '\''}), "&#39;", "'") == EscapeWith(s, {'&'})
  {
    DecodeStep(s, {'&', '\''}, '\'');
    assert {'&', '\''} - {'\''} == {'&'};
  }

  lemma DecodeAmp(s: string)
    ensures ReplaceAll(EscapeWith(s, {'&'}), "&amp;", "&") == s
  {
    DecodeStep(s, {'&'}, '&');
    assert {'&'} - {'&'} == {};
    EscapeWithNone(s);
  }

  /** Escaping changes a string exactly when it holds one of the five characters. */
  lemma {:induction false} EscapeUnchangedIff(s: string)
    ensures EscapeText(s) == s <==> forall k :: 0 <= k < |s| ==> !IsSpecial(s[k])
  {
    if s != [] {
      EscapeUnchangedIff(s[1..]);
      var head := EscapeChar(s[0]);
      assert EscapeText(s) == head + EscapeText(s[1..]);
      if IsSpecial(s[0]) {
        assert |EscapeText(s)| > |s|;
      } else {
        assert [s[0]] + s[1..] == s;
        if EscapeText(s) == s {
          assert EscapeText(s[1..]) == EscapeText(s)[1..];
        }
        assert (forall k :: 0 <= k < |s| ==> !IsSpecial(s[k])) <==>
               (forall k :: 0 <= k < |s[1..]| ==> !IsSpecial(s[1..][k]));
      }
    }
  }
}
