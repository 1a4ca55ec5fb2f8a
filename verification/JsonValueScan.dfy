/**
 The scanner that cuts one object or array out of a JSON text (optional/shelly/ShellyClient.cpp),
 tracking string state and the depth of one kind of bracket.
 */
module JsonValueScan {
  import opened Options
  import opened JsonText

  // ------------------------------------------------------------------ one value

  function CloserOf(opener: char): Option<char> {
    if opener == '{' then Some('}') else if opener == '[' then Some(']') else None
  }

  function Plus(n: nat, r: Option<nat>): Option<nat> {
    match r
    case None => None
    case Some(k) => Some(n + k)
  }

  /** How many characters of `s` bring the depth of one bracket kind back to zero. */
  function Extent(s: string, depth: int, inStr: bool, opener: char, closer: char): Option<nat> {
    if s == [] then None
    else if inStr then
      if s[0] == '\\' then if |s| < 2 then None else Plus(2, Extent(s[2..], depth, true, opener, closer))
      else Plus(1, Extent(s[1..], depth, s[0] != '"', opener, closer))
    else if s[0] == '"' then Plus(1, Extent(s[1..], depth, true, opener, closer))
    else if s[0] == opener then Plus(1, Extent(s[1..], depth + 1, false, opener, closer))
    else if s[0] == closer then
      if depth == 1 then Some(1) else Plus(1, Extent(s[1..], depth - 1, false, opener, closer))
    else Plus(1, Extent(s[1..], depth, false, opener, closer))
  }

  /** The block that starts at `p`; empty when none does or it does not end. */
  function BlockAt(json: string, p: nat): string {
    if p >= |json| || CloserOf(json[p]).None? then []
    else
      var n := Extent(json[p..], 0, false, json[p], CloserOf(json[p]).value);
      if n.None? || n.value > |json| - p then [] else json[p..p + n.value]
  }

  /** `p` is where the value of the wanted key starts. */
  method JsonValueBlock(json: string, p: nat) returns (block: string)
    ensures block == BlockAt(json, p)
  {
    hide Extent;
    if p >= |json| {
      return "";
    }
    var open := json[p];
    var close;
    if open == '{' { close := '}'; }
    else if open == '[' { close := ']'; }
    else { return ""; }
    var depth := 0;
    var inStr := false;
    var i := p;
    ghost var found := Extent(json[p..], 0, false, open, close);
    while i < |json|
      invariant p <= i
      invariant found == if i <= |json| then Plus(i - p, Extent(json[i..], depth, inStr, open, close)) else None
    {
      ExtentAt(json, i, depth, inStr, open, close);
      var c := json[i];
      if inStr {
        if c == '\\' {
          i := i + 2;
          continue;
        }
        if c == '"' { inStr := false; }
        i := i + 1;
        continue;
      }
      if c == '"' {
        inStr := true;
        i := i + 1;
        continue;
      }
      if c == open {
        depth := depth + 1;
      } else if c == close {
        depth := depth - 1;
        if depth == 0 {
          return json[p..i + 1];
        }
      }
      i := i + 1;
    }
    ExtentAtEnd(json, i, depth, inStr, open, close);
    return "";
  }

  lemma ExtentAtEnd(s: string, i: nat, depth: int, inStr: bool, opener: char, closer: char)
    ensures i == |s| ==> Extent(s[i..], depth, inStr, opener, closer) == None
  {
  }

  /** One step of the scan at index `i`. */
  lemma ExtentAt(s: string, i: nat, depth: int, inStr: bool, opener: char, closer: char)
    requires i < |s|
    ensures Extent(s[i..], depth, inStr, opener, closer) ==
            if inStr && s[i] == '\\' then
              if i + 1 < |s| then Plus(2, Extent(s[i + 2..], depth, true, opener, closer)) else None
            else if inStr then Plus(1, Extent(s[i + 1..], depth, s[i] != '"', opener, closer))
            else if s[i] == '"' then Plus(1, Extent(s[i + 1..], depth, true, opener, closer))
            else if s[i] == opener then Plus(1, Extent(s[i + 1..], depth + 1, false, opener, closer))
            else if s[i] == closer && depth == 1 then Some(1)
            else Plus(1, Extent(s[i + 1..], if s[i] == closer then depth - 1 else depth, false, opener, closer))
  {
    assert s[i..][1..] == s[i + 1..];
    if i + 1 < |s| {
      assert s[i..][2..] == s[i + 2..];
    }
  }

  lemma {:induction false} ExtentFits(s: string, depth: int, inStr: bool, opener: char, closer: char)
    ensures Extent(s, depth, inStr, opener, closer).Some? ==> 1 <= Extent(s, depth, inStr, opener, closer).value <= |s|
    decreases |s|
  {
    if s != [] {
      if inStr && s[0] == '\\' {
        if |s| >= 2 {
          ExtentFits(s[2..], depth, true, opener, closer);
        }
      } else {
        ExtentFits(s[1..], depth, if inStr then s[0] != '"' else s[0] == '"', opener, closer);
        ExtentFits(s[1..], depth + 1, false, opener, closer);
        ExtentFits(s[1..], depth - 1, false, opener, closer);
      }
    }
  }

  predicate IsPair(opener: char, closer: char) {
    CloserOf(opener) == Some(closer)
  }

  lemma ThroughUnit(u: Unit, r: string, depth: int, opener: char, closer: char)
    requires ProperUnit(u)
    ensures Extent(RenderUnit(u) + r, depth, true, opener, closer)
            == Plus(|RenderUnit(u)|, Extent(r, depth, true, opener, closer))
  {
    assert (RenderUnit(u) + r)[|RenderUnit(u)|..] == r;
  }

  lemma {:induction false} ThroughBody(body: seq<Unit>, r: string, depth: int, opener: char, closer: char)
    requires ProperBody(body)
    ensures Extent(RenderBody(body) + "\"" + r, depth, true, opener, closer)
         == Plus(|RenderBody(body)| + 1, Extent(r, depth, false, opener, closer))
  {
    var s := RenderBody(body) + "\"" + r;
    if body == [] {
      assert s[1..] == r;
    } else {
      hide Extent, RenderUnit;
      var rest := RenderBody(body[1..]) + "\"" + r;
      assert body[0] in body;
      assert s == RenderUnit(body[0]) + rest;
      ThroughUnit(body[0], rest, depth, opener, closer);
      ThroughBody(body[1..], r, depth, opener, closer);
    }
  }

  lemma ThroughString(body: seq<Unit>, r: string, depth: int, opener: char, closer: char)
    requires ProperBody(body) && IsPair(opener, closer)
    ensures Extent(Quoted(body) + r, depth, false, opener, closer)
            == Plus(|Quoted(body)|, Extent(r, depth, false, opener, closer))
  {
    hide RenderBody;
    var s := Quoted(body) + r;
    assert s[0] == '"' && s[1..] == RenderBody(body) + "\"" + r;
    ThroughBody(body, r, depth, opener, closer);
  }

  lemma ThroughChar(c: char, r: string, depth: int, opener: char, closer: char)
    requires Loose(c) && IsPair(opener, closer)
    ensures Extent([c] + r, depth, false, opener, closer) == Plus(1, Extent(r, depth, false, opener, closer))
  {
    assert ([c] + r)[1..] == r;
  }

  /** Inside a block, balanced text is passed over whole and leaves the depth as it was. */
  lemma {:induction false} ThroughText(t: Text, r: string, depth: int, opener: char, closer: char)
    requires Balanced(t) && IsPair(opener, closer) && depth >= 1
    ensures Extent(Render(t) + r, depth, false, opener, closer)
            == Plus(|Render(t)|, Extent(r, depth, false, opener, closer))
    decreases t, 0
  {
    hide RenderBody, Quoted, Extent;
    var s := Render(t) + r;
    match t
    case End =>
      assert s == r;
    case Ch(c, rest) =>
      ThroughText(rest, r, depth, opener, closer);
      assert s == [c] + (Render(rest) + r);
      ThroughChar(c, Render(rest) + r, depth, opener, closer);
    case Str(body, rest) =>
      ThroughText(rest, r, depth, opener, closer);
      ThroughString(body, Render(rest) + r, depth, opener, closer);
      assert s == Quoted(body) + (Render(rest) + r);
    case Braces(inner, rest) =>
      ThroughText(rest, r, depth, opener, closer);
      ThroughGroup(inner, '{', '}', Render(rest) + r, depth, opener, closer);
      assert s == InBraces(inner) + (Render(rest) + r);
    case Brackets(inner, rest) =>
      ThroughText(rest, r, depth, opener, closer);
      ThroughGroup(inner, '[', ']', Render(rest) + r, depth, opener, closer);
      assert s == InBrackets(inner) + (Render(rest) + r);
  }

  lemma {:induction false} ThroughGroup(inner: Text, a: char, b: char, r: string, depth: int, opener: char,
      closer: char)
    requires Balanced(inner) && IsPair(a, b) && IsPair(opener, closer) && depth >= 1
    ensures Extent([a] + Render(inner) + [b] + r, depth, false, opener, closer)
         == Plus(|Render(inner)| + 2, Extent(r, depth, false, opener, closer))
    decreases inner, 1
  {
    hide Render;
    var s := [a] + Render(inner) + [b] + r;
    var tail := [b] + r;
    assert s[0] == a && s[1..] == Render(inner) + tail;
    assert tail[1..] == r;
    ThroughText(inner, tail, if a == opener then depth + 1 else depth, opener, closer);
  }

  /**
   JsonValueBlock recovers exactly the text of an object or array: brackets of the other kind, nested
   groups, string literals with brackets and escaped quotes included, whatever precedes and follows it.
   */
  lemma ValueBlockIsExact(before: string, v: Json, after: string)
    requires ProperJson(v) && (v.Object? || v.Array?)
    ensures BlockAt(before + TextOf(v) + after, |before|) == TextOf(v)
  {
    hide Extent, Balanced, ProperMembers, ProperElements, Render;
    var text := TextOf(v);
    var json := before + text + after;
    assert json[|before|..] == text + after;
    BlockExtent(v, after);
    assert json[|before|..|before| + |text|] == text;
  }

  lemma BlockExtent(v: Json, after: string)
    requires ProperJson(v) && (v.Object? || v.Array?)
    ensures var text := TextOf(v);
            |text| > 0 && text[0] == (if v.Object? then '{' else '[')
            && CloserOf(text[0]).Some?
            && Extent(text + after, 0, false, text[0], CloserOf(text[0]).value) == Some(|text|)
  {
    JsonIsBalanced(v, End);
    var inner := if v.Object? then MembersShape(v.members) else ElementsShape(v.elements);
    var a, b := if v.Object? then '{' else '[', if v.Object? then '}' else ']';
    var text := TextOf(v);
    hide Render;
    GroupText(inner, v.Object?);
    OuterGroup(inner, a, b, after);
  }

  lemma GroupText(inner: Text, braces: bool)
    ensures Render(if braces then Braces(inner, End) else Brackets(inner, End))
         == (if braces then "{" + Render(inner) + "}" else "[" + Render(inner) + "]")
  {
    assert Render(End) == [];
  }

  lemma OuterGroup(inner: Text, a: char, b: char, after: string)
    requires Balanced(inner) && IsPair(a, b)
    ensures Extent([a] + Render(inner) + [b] + after, 0, false, a, b) == Some(|Render(inner)| + 2)
  {
    hide Render;
    var s := [a] + Render(inner) + [b] + after;
    var tail := [b] + after;
    assert s[0] == a && s[1..] == Render(inner) + tail;
    ThroughText(inner, tail, 1, a, b);
    assert Extent(tail, 1, false, a, b) == Some(1);
  }

  /** Where a number, a word or a string stands, or nothing does, there is no block. */
  lemma ScalarIsNoBlock(before: string, v: Json, after: string, p: nat)
    requires ProperJson(v) && !v.Object? && !v.Array? && TextOf(v) != ""
    ensures BlockAt(before + TextOf(v) + after, |before|) == ""
    ensures p >= |before| ==> BlockAt(before, p) == ""
  {
    hide Extent, Render, RenderBody;
    ValueText(v);
    var text := TextOf(v);
    assert (before + text + after)[|before|] == text[0];
    if v.Scalar? {
      assert text[0] in v.word;
    }
  }

  /** A block found in a text is found, unchanged, in every longer text. */
  lemma {:induction false} ExtentExtends(s: string, more: string, depth: int, inStr: bool, opener: char, closer: char)
    requires Extent(s, depth, inStr, opener, closer).Some?
    ensures Extent(s + more, depth, inStr, opener, closer) == Extent(s, depth, inStr, opener, closer)
    decreases |s|
  {
    var t := s + more;
    assert t[1..] == s[1..] + more;
    if inStr {
      if s[0] == '\\' {
        assert t[2..] == s[2..] + more;
        ExtentExtends(s[2..], more, depth, true, opener, closer);
      } else {
        ExtentExtends(s[1..], more, depth, s[0] != '"', opener, closer);
      }
    } else if s[0] == '"' {
      ExtentExtends(s[1..], more, depth, true, opener, closer);
    } else if s[0] == opener {
      ExtentExtends(s[1..], more, depth + 1, false, opener, closer);
    } else if s[0] == closer {
      if depth != 1 {
        ExtentExtends(s[1..], more, depth - 1, false, opener, closer);
      }
    } else {
      ExtentExtends(s[1..], more, depth, false, opener, closer);
    }
  }

  /** When the text ends anywhere before the value's last character, the value is not found at all. */
  lemma TruncatedValueIsRefused(before: string, v: Json, k: nat)
    requires ProperJson(v) && (v.Object? || v.Array?) && k < |TextOf(v)|
    ensures BlockAt(before + TextOf(v)[..k], |before|) == []
  {
    hide Extent, Balanced, ProperMembers, ProperElements, Render;
    var text := TextOf(v);
    var cut := text[..k];
    var json := before + cut;
    BlockExtent(v, "");
    assert text + "" == text && cut + text[k..] == text;
    if k > 0 {
      assert json[|before|..] == cut && cut[0] == text[0];
      var closer := CloserOf(text[0]).value;
      ExtentFits(cut, 0, false, text[0], closer);
      if Extent(cut, 0, false, text[0], closer).Some? {
        ExtentExtends(cut, text[k..], 0, false, text[0], closer);
      }
    }
  }
}
