/**
 The scanners that list the objects of a JSON array, of the Shelly client
 (optional/shelly/ShellyClient.cpp) and of the Hue client (optional/hue/HueBridge.cpp).
 */
module JsonObjectScan {
  import opened Options
  import opened JsonText
  import opened JsonValueScan

  // ------------------------------------------------------------------ the objects of an array

  /** The text of the open object, one piece longer. */
  function Grown(acc: Option<string>, piece: string): Option<string> {
    match acc
    case None => None
    case Some(t) => Some(t + piece)
  }

  /**
   The objects completed in `s`; `acc` is the text so far of the one being read, if any. The Hue scanner
   stops at a closing bracket outside every object, the Shelly scanner does not.
   */
  function Collect(s: string, hue: bool, depth: int, inStr: bool, acc: Option<string>): seq<string> {
    if s == [] then []
    else if inStr then
      if s[0] == '\\' then if |s| < 2 then [] else Collect(s[2..], hue, depth, true, Grown(acc, s[..2]))
      else Collect(s[1..], hue, depth, s[0] != '"', Grown(acc, s[..1]))
    else if s[0] == '"' then Collect(s[1..], hue, depth, true, Grown(acc, s[..1]))
    else if s[0] == '{' then
      Collect(s[1..], hue, depth + 1, false, if depth == 0 then Some(s[..1]) else Grown(acc, s[..1]))
    else if s[0] == '}' then
      if depth == 1 && acc.Some? then [acc.value + s[..1]] + Collect(s[1..], hue, 0, false, None)
      else Collect(s[1..], hue, depth - 1, false, Grown(acc, s[..1]))
    else if hue && s[0] == ']' && depth == 0 then []
    else Collect(s[1..], hue, depth, false, Grown(acc, s[..1]))
  }

  /** The text from `objStart` up to `i`. */
  function OpenText(s: string, objStart: Option<nat>, i: nat): Option<string> {
    match objStart
    case None => None
    case Some(b) => if b <= i <= |s| then Some(s[b..i]) else None
  }

  /** What is still collected from index `i` on. */
  function Remaining(s: string, i: nat, hue: bool, depth: int, inStr: bool, objStart: Option<nat>): seq<string> {
    if i <= |s| then Collect(s[i..], hue, depth, inStr, OpenText(s, objStart, i)) else []
  }

  /** One step of the collection at index `i`. */
  lemma CollectAt(s: string, i: nat, hue: bool, depth: int, inStr: bool, objStart: Option<nat>)
    requires i < |s| && (objStart.Some? ==> objStart.value <= i)
    ensures var c := s[i];
            Remaining(s, i, hue, depth, inStr, objStart) ==
            if inStr && c == '\\' then Remaining(s, i + 2, hue, depth, true, objStart)
            else if inStr then Remaining(s, i + 1, hue, depth, c != '"', objStart)
            else if c == '"' then Remaining(s, i + 1, hue, depth, true, objStart)
            else if c == '{' then Remaining(s, i + 1, hue, depth + 1, false, if depth == 0 then Some(i) else objStart)
            else if c == '}' && depth == 1 && objStart.Some? then
              [s[objStart.value..i + 1]] + Remaining(s, i + 1, hue, 0, false, None)
            else if c == '}' then Remaining(s, i + 1, hue, depth - 1, false, objStart)
            else if hue && c == ']' && depth == 0 then []
            else Remaining(s, i + 1, hue, depth, false, objStart)
  {
    var t := s[i..];
    assert t[1..] == s[i + 1..] && t[..1] == s[i..i + 1];
    if objStart.Some? {
      assert s[objStart.value..i] + s[i..i + 1] == s[objStart.value..i + 1];
    }
    if i + 1 < |s| {
      assert t[2..] == s[i + 2..] && t[..2] == s[i..i + 2];
      if objStart.Some? {
        assert s[objStart.value..i] + s[i..i + 2] == s[objStart.value..i + 2];
      }
    }
  }

  lemma NothingRemains(s: string, i: nat, hue: bool, depth: int, inStr: bool, objStart: Option<nat>)
    requires i >= |s|
    ensures Remaining(s, i, hue, depth, inStr, objStart) == []
  {
  }

  lemma NothingLeft()
    ensures Collect("", false, 0, false, None) == []
  {
  }

  lemma AllRemains(s: string, hue: bool)
    ensures Remaining(s, 0, hue, 0, false, None) == Collect(s, hue, 0, false, None)
  {
    assert s[0..] == s;
  }

  /** The Shelly scanner, over the text of an array. */
  method JsonArrayObjects(arrayBody: string) returns (out: seq<string>)
    ensures out == Collect(arrayBody, false, 0, false, None)
  {
    hide Collect, Remaining;
    ghost var all := Collect(arrayBody, false, 0, false, None);
    out := [];
    var depth := 0;
    var inStr := false;
    var objStart: Option<nat> := None;
    var i := 0;
    AllRemains(arrayBody, false);
    while i < |arrayBody|
      invariant objStart.Some? ==> objStart.value <= i
      invariant all == out + Remaining(arrayBody, i, false, depth, inStr, objStart)
    {
      CollectAt(arrayBody, i, false, depth, inStr, objStart);
      var c := arrayBody[i];
      if inStr {
        if c == '\\' {
          i := i + 2;
          continue;
        }
        if c == '"' { inStr := false; }
        i := i + 1;
        continue;
      }
      if c == '"' {
        inStr := true;
        i := i + 1;
        continue;
      }
      if c == '{' {
        if depth == 0 { objStart := Some(i); }
        depth := depth + 1;
        i := i + 1;
        continue;
      }
      if c == '}' {
        depth := depth - 1;
        if depth == 0 && objStart.Some? {
          ghost var rest := Remaining(arrayBody, i + 1, false, 0, false, None);
          assert out + ([arrayBody[objStart.value..i + 1]] + rest) == (out + [arrayBody[objStart.value..i + 1]]) + rest;
          out := out + [arrayBody[objStart.value..i + 1]];
          objStart := None;
        }
      }
      i := i + 1;
    }
    NothingRemains(arrayBody, i, false, depth, inStr, objStart);
  }

  /** The Hue scanner, over what follows the opening bracket of the data array. */
  method SplitJsonDataObjects(data: string) returns (out: seq<string>)
    ensures out == Collect(data, true, 0, false, None)
  {
    hide Collect, Remaining;
    ghost var all := Collect(data, true, 0, false, None);
    out := [];
    var depth := 0;
    var inStr := false;
    var objStart: Option<nat> := None;
    var i := 0;
    AllRemains(data, true);
    while i < |data|
      invariant objStart.Some? ==> objStart.value <= i
      invariant all == out + Remaining(data, i, true, depth, inStr, objStart)
    {
      CollectAt(data, i, true, depth, inStr, objStart);
      var c := data[i];
      if inStr {
        if c == '\\' {
          i := i + 2;
          continue;
        }
        if c == '"' { inStr := false; }
        i := i + 1;
        continue;
      }
      if c == '"' {
        inStr := true;
        i := i + 1;
        continue;
      }
      if c == '{' {
        if depth == 0 { objStart := Some(i); }
        depth := depth + 1;
        i := i + 1;
        continue;
      }
      if c == '}' {
        depth := depth - 1;
        if depth == 0 && objStart.Some? {
          ghost var rest := Remaining(data, i + 1, true, 0, false, None);
          assert out + ([data[objStart.value..i + 1]] + rest) == (out + [data[objStart.value..i + 1]]) + rest;
          out := out + [data[objStart.value..i + 1]];
          objStart := None;
        }
        i := i + 1;
        continue;
      }
      if c == ']' && depth == 0 {
        assert out + [] == out;
        return;
      }
      i := i + 1;
    }
    NothingRemains(data, i, true, depth, inStr, objStart);
  }

  // ------------------------------------------------------------------ what is collected

  lemma CollectUnit(u: Unit, r: string, hue: bool, depth: int, acc: Option<string>)
    requires ProperUnit(u)
    ensures Collect(RenderUnit(u) + r, hue, depth, true, acc) == Collect(r, hue, depth, true, Grown(acc, RenderUnit(u)))
  {
    var s, n := RenderUnit(u) + r, |RenderUnit(u)|;
    assert s[n..] == r && s[..n] == RenderUnit(u);
  }

  lemma {:induction false} CollectBody(body: seq<Unit>, r: string, hue: bool, depth: int, acc: Option<string>)
    requires ProperBody(body)
    ensures Collect(RenderBody(body) + "\"" + r, hue, depth, true, acc)
         == Collect(r, hue, depth, false, Grown(acc, RenderBody(body) + "\""))
  {
    var s := RenderBody(body) + "\"" + r;
    if body == [] {
      assert s[1..] == r && s[..1] == RenderBody(body) + "\"";
    } else {
      hide Collect, RenderUnit, Grown;
      var u, tail := RenderUnit(body[0]), RenderBody(body[1..]) + "\"";
      assert body[0] in body;
      assert s == u + (tail + r);
      CollectUnit(body[0], tail + r, hue, depth, acc);
      CollectBody(body[1..], r, hue, depth, Grown(acc, u));
      GrownTwice(acc, u, tail);
      assert u + tail == RenderBody(body) + "\"";
    }
  }

  lemma GrownTwice(acc: Option<string>, a: string, b: string)
    ensures Grown(Grown(acc, a), b) == Grown(acc, a + b)
  {
    if acc.Some? {
      assert acc.value + a + b == acc.value + (a + b);
    }
  }

  lemma CollectString(body: seq<Unit>, r: string, hue: bool, depth: int, acc: Option<string>)
    requires ProperBody(body)
    ensures Collect(Quoted(body) + r, hue, depth, false, acc) == Collect(r, hue, depth, false, Grown(acc, Quoted(body)))
  {
    hide RenderBody;
    var s, tail := Quoted(body) + r, RenderBody(body) + "\"";
    assert s[0] == '"' && s[..1] == "\"" && s[1..] == tail + r;
    CollectBody(body, r, hue, depth, Grown(acc, "\""));
    GrownTwice(acc, "\"", tail);
    assert "\"" + tail == Quoted(body);
  }

  lemma CollectChar(c: char, r: string, hue: bool, depth: int, acc: Option<string>)
    requires Loose(c)
    ensures Collect([c] + r, hue, depth, false, acc) == Collect(r, hue, depth, false, Grown(acc, [c]))
  {
    assert ([c] + r)[1..] == r && ([c] + r)[..1] == [c];
  }

  /** Inside an object, balanced text only makes its text longer. */
  lemma {:induction false} CollectInside(t: Text, r: string, hue: bool, depth: int, acc: string)
    requires Balanced(t) && depth >= 1
    ensures Collect(Render(t) + r, hue, depth, false, Some(acc)) == Collect(r, hue, depth, false, Some(acc + Render(t)))
    decreases t, 0
  {
    hide Quoted, Collect;
    var s := Render(t) + r;
    match t
    case End =>
      assert s == r && acc + [] == acc;
    case Ch(c, rest) =>
      assert s == [c] + (Render(rest) + r);
      CollectChar(c, Render(rest) + r, hue, depth, Some(acc));
      CollectInside(rest, r, hue, depth, acc + [c]);
      assert acc + [c] + Render(rest) == acc + Render(t);
    case Str(body, rest) =>
      assert s == Quoted(body) + (Render(rest) + r);
      CollectString(body, Render(rest) + r, hue, depth, Some(acc));
      CollectInside(rest, r, hue, depth, acc + Quoted(body));
      assert acc + Quoted(body) + Render(rest) == acc + Render(t);
    case Braces(inner, rest) =>
      assert s == InBraces(inner) + (Render(rest) + r);
      CollectGroup(inner, '{', '}', Render(rest) + r, hue, depth, acc);
      CollectInside(rest, r, hue, depth, acc + InBraces(inner));
      assert acc + InBraces(inner) + Render(rest) == acc + Render(t);
    case Brackets(inner, rest) =>
      assert s == InBrackets(inner) + (Render(rest) + r);
      CollectGroup(inner, '[', ']', Render(rest) + r, hue, depth, acc);
      CollectInside(rest, r, hue, depth, acc + InBrackets(inner));
      assert acc + InBrackets(inner) + Render(rest) == acc + Render(t);
  }

  lemma {:induction false} CollectGroup(inner: Text, a: char, b: char, r: string, hue: bool, depth: int, acc: string)
    requires Balanced(inner) && IsPair(a, b) && depth >= 1
    ensures Collect([a] + Render(inner) + [b] + r, hue, depth, false, Some(acc))
         == Collect(r, hue, depth, false, Some(acc + ([a] + Render(inner) + [b])))
    decreases inner, 1
  {
    hide Render;
    var s, tail := [a] + Render(inner) + [b] + r, [b] + r;
    var deeper := if a == '{' then depth + 1 else depth;
    assert s[0] == a && s[..1] == [a] && s[1..] == Render(inner) + tail;
    assert Collect(s, hue, depth, false, Some(acc)) == Collect(s[1..], hue, deeper, false, Some(acc + [a]));
    CollectInside(inner, tail, hue, deeper, acc + [a]);
    assert tail[0] == b && tail[..1] == [b] && tail[1..] == r;
    assert acc + [a] + Render(inner) + [b] == acc + ([a] + Render(inner) + [b]);
  }

  /** An object met outside every object is returned whole. */
  lemma CollectObject(inner: Text, r: string, hue: bool)
    requires Balanced(inner)
    ensures Collect(InBraces(inner) + r, hue, 0, false, None) == [InBraces(inner)] + Collect(r, hue, 0, false, None)
  {
    hide Render;
    var s, tail := InBraces(inner) + r, "}" + r;
    assert s[0] == '{' && s[..1] == "{" && s[1..] == Render(inner) + tail;
    CollectInside(inner, tail, hue, 1, "{");
    assert tail[..1] == "}" && tail[1..] == r;
    assert "{" + Render(inner) + "}" == InBraces(inner);
  }

  /** The outermost objects of a text, in order, those inside nested arrays included. */
  function Outermost(t: Text): seq<string> {
    match t
    case End => []
    case Ch(_, rest) => Outermost(rest)
    case Str(_, rest) => Outermost(rest)
    case Braces(inner, rest) => [InBraces(inner)] + Outermost(rest)
    case Brackets(inner, rest) => Outermost(inner) + Outermost(rest)
  }

  /** The Shelly scanner returns exactly the outermost objects of balanced text, each whole. */
  lemma {:induction false} ShellyCollects(t: Text, r: string)
    requires Balanced(t)
    ensures Collect(Render(t) + r, false, 0, false, None) == Outermost(t) + Collect(r, false, 0, false, None)
    decreases t
  {
    hide Quoted, Collect;
    var s := Render(t) + r;
    match t
    case End =>
      assert s == r;
    case Ch(c, rest) =>
      assert s == [c] + (Render(rest) + r);
      CollectChar(c, Render(rest) + r, false, 0, None);
      ShellyCollects(rest, r);
    case Str(body, rest) =>
      assert s == Quoted(body) + (Render(rest) + r);
      CollectString(body, Render(rest) + r, false, 0, None);
      ShellyCollects(rest, r);
    case Braces(inner, rest) =>
      assert s == InBraces(inner) + (Render(rest) + r);
      CollectObject(inner, Render(rest) + r, false);
      ShellyCollects(rest, r);
    case Brackets(inner, rest) =>
      var tail := "]" + (Render(rest) + r);
      BracketsOpen(inner, rest, r);
      assert s == "[" + (Render(inner) + tail);
      CollectBracket('[', Render(inner) + tail);
      ShellyCollects(inner, tail);
      CollectBracket(']', Render(rest) + r);
      ShellyCollects(rest, r);
  }

  lemma BracketsOpen(inner: Text, rest: Text, r: string)
    ensures Render(Brackets(inner, rest)) + r == "[" + (Render(inner) + ("]" + (Render(rest) + r)))
  {
    hide Render;
    assert Render(Brackets(inner, rest)) == InBrackets(inner) + Render(rest) by { RenderBrackets(inner, rest); }
  }

  lemma RenderBrackets(inner: Text, rest: Text)
    ensures Render(Brackets(inner, rest)) == InBrackets(inner) + Render(rest)
  {
  }

  lemma CollectBracket(c: char, r: string)
    requires c == '[' || c == ']'
    ensures Collect([c] + r, false, 0, false, None) == Collect(r, false, 0, false, None)
  {
    assert ([c] + r)[1..] == r;
  }

  /** What comes before the Hue scanner's first closing bracket: the first nested array ends the search. */
  function BeforeClose(t: Text): seq<string> {
    match t
    case End => []
    case Ch(_, rest) => BeforeClose(rest)
    case Str(_, rest) => BeforeClose(rest)
    case Braces(inner, rest) => [InBraces(inner)] + BeforeClose(rest)
    case Brackets(inner, _) => BeforeClose(inner)
  }

  /** The Hue scanner returns exactly the outermost objects before the first bracket that closes. */
  lemma {:induction false} HueCollects(t: Text, r: string)
    requires Balanced(t)
    ensures Collect(Render(t) + "]" + r, true, 0, false, None) == BeforeClose(t)
    decreases t
  {
    hide Quoted, Collect;
    var s := Render(t) + "]" + r;
    match t
    case End =>
      assert s == "]" + r;
      HueStops(r);
    case Ch(c, rest) =>
      assert s == [c] + (Render(rest) + "]" + r);
      CollectChar(c, Render(rest) + "]" + r, true, 0, None);
      HueCollects(rest, r);
    case Str(body, rest) =>
      assert s == Quoted(body) + (Render(rest) + "]" + r);
      CollectString(body, Render(rest) + "]" + r, true, 0, None);
      HueCollects(rest, r);
    case Braces(inner, rest) =>
      assert s == InBraces(inner) + (Render(rest) + "]" + r);
      CollectObject(inner, Render(rest) + "]" + r, true);
      HueCollects(rest, r);
    case Brackets(inner, rest) =>
      var after := Render(rest) + "]" + r;
      BracketsOpen(inner, rest, "]" + r);
      assert s == "[" + (Render(inner) + "]" + after);
      HueOpens(Render(inner) + "]" + after);
      HueCollects(inner, after);
  }

  lemma HueStops(r: string)
    ensures Collect("]" + r, true, 0, false, None) == []
  {
  }

  lemma HueOpens(r: string)
    ensures Collect("[" + r, true, 0, false, None) == Collect(r, true, 0, false, None)
  {
    assert ("[" + r)[1..] == r;
  }

  // ------------------------------------------------------------------ where the objects stand

  /** The places at which the collected objects start; `s` starts at `at`, the open object at `open`. */
  function Places(s: string, at: nat, hue: bool, depth: int, inStr: bool, open: Option<nat>): seq<nat> {
    if s == [] then []
    else if inStr then
      if s[0] == '\\' then if |s| < 2 then [] else Places(s[2..], at + 2, hue, depth, true, open)
      else Places(s[1..], at + 1, hue, depth, s[0] != '"', open)
    else if s[0] == '"' then Places(s[1..], at + 1, hue, depth, true, open)
    else if s[0] == '{' then Places(s[1..], at + 1, hue, depth + 1, false, if depth == 0 then Some(at) else open)
    else if s[0] == '}' then
      if depth == 1 && open.Some? then [open.value] + Places(s[1..], at + 1, hue, 0, false, None)
      else Places(s[1..], at + 1, hue, depth - 1, false, open)
    else if hue && s[0] == ']' && depth == 0 then []
    else Places(s[1..], at + 1, hue, depth, false, open)
  }

  /** Each text of `out` stands in `s` at its place. */
  ghost predicate StandAt(s: string, places: seq<nat>, out: seq<string>) {
    |places| == |out| && forall k :: 0 <= k < |out| ==> places[k] <= |s| && out[k] <= s[places[k]..]
  }

  /** The places of what is still collected from index `i` on. */
  function PlacesFrom(s: string, i: nat, hue: bool, depth: int, inStr: bool, open: Option<nat>): seq<nat> {
    if i <= |s| then Places(s[i..], i, hue, depth, inStr, open) else []
  }

  /** Every collected object stands at its place in the text. */
  lemma {:induction false} CollectedStand(s: string, i: nat, hue: bool, depth: int, inStr: bool, open: Option<nat>)
    requires open.Some? ==> open.value <= i
    ensures StandAt(s, PlacesFrom(s, i, hue, depth, inStr, open), Remaining(s, i, hue, depth, inStr, open))
    decreases |s| - i
  {
    hide PlacesFrom, Remaining, StandAt;
    if i < |s| {
      CollectAt(s, i, hue, depth, inStr, open);
      PlacesAt(s, i, hue, depth, inStr, open);
      var c := s[i];
      if inStr {
        if c == '\\' {
          CollectedStand(s, i + 2, hue, depth, true, open);
        } else {
          CollectedStand(s, i + 1, hue, depth, c != '"', open);
        }
      } else if c == '"' {
        CollectedStand(s, i + 1, hue, depth, true, open);
      } else if c == '{' {
        CollectedStand(s, i + 1, hue, depth + 1, false, if depth == 0 then Some(i) else open);
      } else if c == '}' {
        if depth == 1 && open.Some? {
          CollectedStand(s, i + 1, hue, 0, false, None);
          OneMoreStands(s, open.value, i + 1, PlacesFrom(s, i + 1, hue, 0, false, None),
                        Remaining(s, i + 1, hue, 0, false, None));
        } else {
          CollectedStand(s, i + 1, hue, depth - 1, false, open);
        }
      } else if hue && c == ']' && depth == 0 {
        NoneStands(s);
      } else {
        CollectedStand(s, i + 1, hue, depth, false, open);
      }
    } else {
      NothingRemains(s, i, hue, depth, inStr, open);
      NoPlacesFrom(s, i, hue, depth, inStr, open);
      NoneStands(s);
    }
  }

  lemma AllPlaces(s: string, hue: bool)
    ensures PlacesFrom(s, 0, hue, 0, false, None) == Places(s, 0, hue, 0, false, None)
  {
    assert s[0..] == s;
  }

  lemma NoPlacesFrom(s: string, i: nat, hue: bool, depth: int, inStr: bool, open: Option<nat>)
    requires i >= |s|
    ensures PlacesFrom(s, i, hue, depth, inStr, open) == []
  {
  }

  lemma NoneStands(s: string)
    ensures StandAt(s, [], [])
  {
  }

  lemma OneMoreStands(s: string, begin: nat, end: nat, places: seq<nat>, out: seq<string>)
    requires begin <= end <= |s| && StandAt(s, places, out)
    ensures StandAt(s, [begin] + places, [s[begin..end]] + out)
  {
    assert s[begin..end] <= s[begin..];
  }

  /** One step of the places at index `i`. */
  lemma PlacesAt(s: string, i: nat, hue: bool, depth: int, inStr: bool, open: Option<nat>)
    requires i < |s|
    ensures var c := s[i];
            PlacesFrom(s, i, hue, depth, inStr, open) ==
            if inStr && c == '\\' then PlacesFrom(s, i + 2, hue, depth, true, open)
            else if inStr then PlacesFrom(s, i + 1, hue, depth, c != '"', open)
            else if c == '"' then PlacesFrom(s, i + 1, hue, depth, true, open)
            else if c == '{' then
              PlacesFrom(s, i + 1, hue, depth + 1, false, if depth == 0 then Some(i) else open)
            else if c == '}' && depth == 1 && open.Some? then
              [open.value] + PlacesFrom(s, i + 1, hue, 0, false, None)
            else if c == '}' then PlacesFrom(s, i + 1, hue, depth - 1, false, open)
            else if hue && c == ']' && depth == 0 then []
            else PlacesFrom(s, i + 1, hue, depth, false, open)
  {
    var t := s[i..];
    assert t[1..] == s[i + 1..];
    if i + 1 < |s| {
      assert t[2..] == s[i + 2..];
    }
  }

  lemma PlacesUnit(u: Unit, r: string, at: nat, hue: bool, depth: int, open: Option<nat>)
    requires ProperUnit(u)
    ensures Places(RenderUnit(u) + r, at, hue, depth, true, open)
         == Places(r, at + |RenderUnit(u)|, hue, depth, true, open)
  {
    var s, n := RenderUnit(u) + r, |RenderUnit(u)|;
    assert s[n..] == r;
  }

  lemma {:induction false} PlacesBody(body: seq<Unit>, r: string, at: nat, hue: bool, depth: int, open: Option<nat>)
    requires ProperBody(body)
    ensures Places(RenderBody(body) + "\"" + r, at, hue, depth, true, open)
         == Places(r, at + |RenderBody(body)| + 1, hue, depth, false, open)
  {
    var s := RenderBody(body) + "\"" + r;
    if body == [] {
      assert s[1..] == r;
    } else {
      hide Places, RenderUnit;
      var u, tail := RenderUnit(body[0]), RenderBody(body[1..]) + "\"" + r;
      assert body[0] in body;
      assert s == u + tail;
      PlacesUnit(body[0], tail, at, hue, depth, open);
      PlacesBody(body[1..], r, at + |u|, hue, depth, open);
    }
  }

  lemma PlacesString(body: seq<Unit>, r: string, at: nat, hue: bool, depth: int, open: Option<nat>)
    requires ProperBody(body)
    ensures Places(Quoted(body) + r, at, hue, depth, false, open)
         == Places(r, at + |Quoted(body)|, hue, depth, false, open)
  {
    hide RenderBody;
    var s := Quoted(body) + r;
    assert s[0] == '"' && s[1..] == RenderBody(body) + "\"" + r;
    PlacesBody(body, r, at + 1, hue, depth, open);
  }

  lemma PlacesChar(c: char, r: string, at: nat, hue: bool, depth: int, open: Option<nat>)
    requires Loose(c)
    ensures Places([c] + r, at, hue, depth, false, open) == Places(r, at + 1, hue, depth, false, open)
  {
    assert ([c] + r)[1..] == r;
  }

  /** Inside an object nothing starts another. */
  lemma {:induction false} PlacesInside(t: Text, r: string, at: nat, hue: bool, depth: int, open: Option<nat>)
    requires Balanced(t) && depth >= 1
    ensures Places(Render(t) + r, at, hue, depth, false, open)
         == Places(r, at + |Render(t)|, hue, depth, false, open)
    decreases t, 0
  {
    hide Quoted, Places;
    var s := Render(t) + r;
    match t
    case End =>
      assert s == r;
    case Ch(c, rest) =>
      assert s == [c] + (Render(rest) + r);
      PlacesChar(c, Render(rest) + r, at, hue, depth, open);
      PlacesInside(rest, r, at + 1, hue, depth, open);
    case Str(body, rest) =>
      assert s == Quoted(body) + (Render(rest) + r);
      PlacesString(body, Render(rest) + r, at, hue, depth, open);
      PlacesInside(rest, r, at + |Quoted(body)|, hue, depth, open);
    case Braces(inner, rest) =>
      assert s == InBraces(inner) + (Render(rest) + r);
      PlacesGroup(inner, '{', '}', Render(rest) + r, at, hue, depth, open);
      PlacesInside(rest, r, at + |InBraces(inner)|, hue, depth, open);
    case Brackets(inner, rest) =>
      assert s == InBrackets(inner) + (Render(rest) + r);
      PlacesGroup(inner, '[', ']', Render(rest) + r, at, hue, depth, open);
      PlacesInside(rest, r, at + |InBrackets(inner)|, hue, depth, open);
  }

  lemma {:induction false} PlacesGroup(
      inner: Text, a: char, b: char, r: string, at: nat, hue: bool, depth: int, open: Option<nat>)
    requires Balanced(inner) && IsPair(a, b) && depth >= 1
    ensures Places([a] + Render(inner) + [b] + r, at, hue, depth, false, open)
         == Places(r, at + |Render(inner)| + 2, hue, depth, false, open)
    decreases inner, 1
  {
    hide Render;
    var s, tail := [a] + Render(inner) + [b] + r, [b] + r;
    var deeper := if a == '{' then depth + 1 else depth;
    assert s[0] == a && s[1..] == Render(inner) + tail;
    assert Places(s, at, hue, depth, false, open) == Places(s[1..], at + 1, hue, deeper, false, open);
    PlacesInside(inner, tail, at + 1, hue, deeper, open);
    assert tail[0] == b && tail[1..] == r;
  }

  /** An object met outside every object starts where it is met. */
  lemma PlaceOfObject(inner: Text, r: string, at: nat, hue: bool)
    requires Balanced(inner)
    ensures Places(InBraces(inner) + r, at, hue, 0, false, None)
         == [at] + Places(r, at + |InBraces(inner)|, hue, 0, false, None)
  {
    hide Render;
    var s, tail := InBraces(inner) + r, "}" + r;
    assert s[0] == '{' && s[1..] == Render(inner) + tail;
    PlacesInside(inner, tail, at + 1, hue, 1, Some(at));
    assert tail[1..] == r;
  }

  /** The places of the objects before the first bracket that closes, in a text that starts at `at`. */
  function PlacesBeforeClose(t: Text, at: nat): seq<nat> {
    match t
    case End => []
    case Ch(_, rest) => PlacesBeforeClose(rest, at + 1)
    case Str(body, rest) => PlacesBeforeClose(rest, at + |Quoted(body)|)
    case Braces(inner, rest) => [at] + PlacesBeforeClose(rest, at + |InBraces(inner)|)
    case Brackets(inner, _) => PlacesBeforeClose(inner, at + 1)
  }

  lemma {:induction false} HuePlacesAre(t: Text, r: string, at: nat)
    requires Balanced(t)
    ensures Places(Render(t) + "]" + r, at, true, 0, false, None) == PlacesBeforeClose(t, at)
    decreases t
  {
    hide Quoted, Places;
    var s := Render(t) + "]" + r;
    match t
    case End =>
      assert s == "]" + r;
      NoPlaceBehind(r, at);
    case Ch(c, rest) =>
      assert s == [c] + (Render(rest) + "]" + r);
      PlacesChar(c, Render(rest) + "]" + r, at, true, 0, None);
      HuePlacesAre(rest, r, at + 1);
    case Str(body, rest) =>
      assert s == Quoted(body) + (Render(rest) + "]" + r);
      PlacesString(body, Render(rest) + "]" + r, at, true, 0, None);
      HuePlacesAre(rest, r, at + |Quoted(body)|);
    case Braces(inner, rest) =>
      assert s == InBraces(inner) + (Render(rest) + "]" + r);
      PlaceOfObject(inner, Render(rest) + "]" + r, at, true);
      HuePlacesAre(rest, r, at + |InBraces(inner)|);
    case Brackets(inner, rest) =>
      var after := Render(rest) + "]" + r;
      BracketsOpen(inner, rest, "]" + r);
      assert s == "[" + (Render(inner) + "]" + after);
      PlacesOpen(Render(inner) + "]" + after, at);
      HuePlacesAre(inner, after, at + 1);
  }

  lemma NoPlaceBehind(r: string, at: nat)
    ensures Places("]" + r, at, true, 0, false, None) == []
  {
  }

  lemma PlacesOpen(r: string, at: nat)
    ensures Places("[" + r, at, true, 0, false, None) == Places(r, at + 1, true, 0, false, None)
  {
    assert ("[" + r)[1..] == r;
  }

  // ------------------------------------------------------------------ on JSON arrays

  /** The elements that are objects, in order. */
  function ObjectElements(es: Elements): seq<string> {
    match es
    case NoElement(_) => []
    case Element(_, value, _, more) => (if value.Object? then [TextOf(value)] else []) + ObjectElements(more)
  }

  /** The outermost objects inside one value. */
  function ObjectsIn(v: Json): seq<string> {
    match v
    case Object(_) => [TextOf(v)]
    case Array(es) => ObjectsInElements(es)
    case _ => []
  }

  function ObjectsInElements(es: Elements): seq<string> {
    match es
    case NoElement(_) => []
    case Element(_, value, _, more) => ObjectsIn(value) + ObjectsInElements(more)
  }

  /** No object sits inside an array that is itself an element. */
  predicate NoNestedObjects(es: Elements) {
    match es
    case NoElement(_) => true
    case Element(_, value, _, more) => (value.Array? ==> ObjectsIn(value) == []) && NoNestedObjects(more)
  }

  lemma {:induction false} OutermostOfChars(s: string, rest: Text)
    ensures Outermost(Chars(s, rest)) == Outermost(rest) && BeforeClose(Chars(s, rest)) == BeforeClose(rest)
  {
    if s != [] {
      OutermostOfChars(s[1..], rest);
    }
  }

  lemma {:induction false} OutermostOfValue(v: Json, rest: Text)
    ensures Outermost(Shape(v, rest)) == ObjectsIn(v) + Outermost(rest)
  {
    match v
    case Scalar(word) => OutermostOfChars(word, rest);
    case StringValue(body) =>
    case Object(members) =>
      ObjectText(members);
    case Array(elements) =>
      OutermostOfElements(elements);
  }

  lemma ObjectText(members: Members)
    ensures TextOf(Object(members)) == InBraces(MembersShape(members))
  {
    hide MembersShape;
    var t := MembersShape(members);
    assert Render(Braces(t, End)) == InBraces(t) + Render(End) && Render(End) == [];
  }

  lemma {:induction false} OutermostOfElements(es: Elements)
    ensures Outermost(ElementsShape(es)) == ObjectsInElements(es)
  {
    match es
    case NoElement(space) => OutermostOfChars(space, End);
    case Element(before, value, after, more) =>
      OutermostOfElements(more);
      var tail := if more.Element? then Ch(',', ElementsShape(more)) else ElementsShape(more);
      OutermostOfChars(after, tail);
      OutermostOfValue(value, Chars(after, tail));
      OutermostOfChars(before, Shape(value, Chars(after, tail)));
  }

  lemma {:induction false} NestedObjectsShow(es: Elements)
    ensures |ObjectsInElements(es)| >= |ObjectElements(es)|
    ensures |ObjectsInElements(es)| == |ObjectElements(es)| <==> NoNestedObjects(es)
    ensures NoNestedObjects(es) ==> ObjectsInElements(es) == ObjectElements(es)
  {
    if es.Element? {
      NestedObjectsShow(es.more);
    }
  }

  /**
   JsonArrayObjects on the text of any JSON array: it returns the element objects, in order, if and only
   if no object sits inside a nested array; in general it returns every outermost object in text order.
   */
  lemma ArrayObjectsExactly(es: Elements)
    requires ProperElements(es)
    ensures Collect(TextOf(Array(es)), false, 0, false, None) == ObjectsInElements(es)
    ensures Collect(TextOf(Array(es)), false, 0, false, None) == ObjectElements(es) <==> NoNestedObjects(es)
  {
    hide Collect, Render;
    var t := Shape(Array(es), End);
    assert ProperJson(Array(es));
    JsonIsBalanced(Array(es), End);
    ShellyCollects(t, "");
    assert Render(t) + "" == Render(t);
    assert Collect("", false, 0, false, None) == [] by { NothingLeft(); }
    OutermostOfValue(Array(es), End);
    NestedObjectsShow(es);
  }

  /** The objects listed before the first nested array closes, its own leading objects included. */
  function HueSees(es: Elements): seq<string> {
    match es
    case NoElement(_) => []
    case Element(_, value, _, more) =>
      if value.Array? then HueSees(value.elements)
      else (if value.Object? then [TextOf(value)] else []) + HueSees(more)
  }

  lemma {:induction false} BeforeCloseOfElements(es: Elements)
    ensures BeforeClose(ElementsShape(es)) == HueSees(es)
  {
    match es
    case NoElement(space) => OutermostOfChars(space, End);
    case Element(before, value, after, more) =>
      BeforeCloseOfElements(more);
      var tail := if more.Element? then Ch(',', ElementsShape(more)) else ElementsShape(more);
      OutermostOfChars(after, tail);
      OutermostOfChars(before, Shape(value, Chars(after, tail)));
      if value.Scalar? {
        OutermostOfChars(value.word, Chars(after, tail));
      }
      if value.Object? {
        ObjectText(value.members);
      }
      if value.Array? {
        BeforeCloseOfElements(value.elements);
      }
  }

  /** Every array element stands behind the last object element. */
  predicate ArraysLast(es: Elements) {
    match es
    case NoElement(_) => true
    case Element(_, value, _, more) => if value.Array? then NoObject(more) else ArraysLast(more)
  }

  predicate NoObject(es: Elements) {
    match es
    case NoElement(_) => true
    case Element(_, value, _, more) => !value.Object? && NoObject(more)
  }

  lemma {:induction false} HueSeesFew(es: Elements)
    ensures |HueSees(es)| <= |ObjectsInElements(es)|
    ensures ObjectElements(es) == [] <==> NoObject(es)
  {
    if es.Element? {
      HueSeesFew(es.more);
      if es.value.Array? {
        HueSeesFew(es.value.elements);
      }
    }
  }

  lemma {:induction false} HueSeesAll(es: Elements)
    requires NoNestedObjects(es)
    ensures HueSees(es) <= ObjectElements(es)
    ensures HueSees(es) == ObjectElements(es) <==> ArraysLast(es)
  {
    if es.Element? {
      HueSeesAll(es.more);
      HueSeesFew(es.more);
      if es.value.Array? {
        HueSeesFew(es.value.elements);
      }
    }
  }

  /**
   The first nested array, whose own leading objects are all that is still listed, lists just the objects
   that follow it: normally none.
   */
  predicate HueExact(es: Elements) {
    match es
    case NoElement(_) => true
    case Element(_, value, _, more) =>
      if value.Array? then HueSees(value.elements) == ObjectElements(more) else HueExact(more)
  }

  lemma {:induction false} HueExactly(es: Elements)
    ensures HueSees(es) == ObjectElements(es) <==> HueExact(es)
  {
    if es.Element? && !es.value.Array? {
      HueExactly(es.more);
      var head := if es.value.Object? then [TextOf(es.value)] else [];
      assert HueSees(es) == head + HueSees(es.more) && HueSees(es)[|head|..] == HueSees(es.more);
      assert ObjectElements(es) == head + ObjectElements(es.more)
             && ObjectElements(es)[|head|..] == ObjectElements(es.more);
    }
  }

  /** How far one element reaches, with the comma behind it. */
  function ElementLength(es: Elements): nat
    requires es.Element?
  {
    |es.before| + |TextOf(es.value)| + |es.after| + if es.more.Element? then 1 else 0
  }

  /** Where the element objects stand in the text of the elements, which starts at `at`. */
  function ObjectPlaces(es: Elements, at: nat): seq<nat> {
    match es
    case NoElement(_) => []
    case Element(before, value, _, more) =>
      (if value.Object? then [at + |before|] else []) + ObjectPlaces(more, at + ElementLength(es))
  }

  /** Where the objects stand that are listed before the first nested array closes. */
  function SeenPlaces(es: Elements, at: nat): seq<nat> {
    match es
    case NoElement(_) => []
    case Element(before, value, _, more) =>
      if value.Array? then SeenPlaces(value.elements, at + |before| + 1)
      else (if value.Object? then [at + |before|] else []) + SeenPlaces(more, at + ElementLength(es))
  }

  lemma {:induction false} PlacesOfChars(s: string, rest: Text, at: nat)
    ensures PlacesBeforeClose(Chars(s, rest), at) == PlacesBeforeClose(rest, at + |s|)
  {
    if s != [] {
      PlacesOfChars(s[1..], rest, at + 1);
    }
  }

  lemma PlacesOfValue(v: Json, rest: Text, at: nat)
    ensures PlacesBeforeClose(Shape(v, rest), at) ==
            if v.Array? then PlacesBeforeClose(ElementsShape(v.elements), at + 1)
            else (if v.Object? then [at] else []) + PlacesBeforeClose(rest, at + |TextOf(v)|)
  {
    match v
    case Scalar(word) =>
      PlacesOfChars(word, rest, at);
      RenderChars(word, End);
      assert Render(End) == "" && word + "" == word;
    case StringValue(body) =>
      assert Render(End) == "" && Quoted(body) + "" == Quoted(body);
    case Object(members) =>
      ObjectText(members);
    case Array(elements) =>
  }

  lemma {:induction false} PlacesOfElements(es: Elements, at: nat)
    ensures PlacesBeforeClose(ElementsShape(es), at) == SeenPlaces(es, at)
  {
    hide TextOf;
    match es
    case NoElement(space) => PlacesOfChars(space, End, at);
    case Element(before, value, after, more) =>
      var tail := if more.Element? then Ch(',', ElementsShape(more)) else ElementsShape(more);
      var begin := at + |before|;
      PlacesOfElements(more, at + ElementLength(es));
      PlacesOfChars(before, Shape(value, Chars(after, tail)), at);
      PlacesOfValue(value, Chars(after, tail), begin);
      PlacesOfChars(after, tail, begin + |TextOf(value)|);
      if value.Array? {
        PlacesOfElements(value.elements, begin + 1);
      }
  }

  predicate AllBetween(places: seq<nat>, lo: nat, hi: nat) {
    forall p :: p in places ==> lo <= p < hi
  }

  lemma ElementsReach(es: Elements)
    ensures |Render(ElementsShape(es))| ==
            if es.NoElement? then |es.space| else ElementLength(es) + |Render(ElementsShape(es.more))|
  {
    if es.NoElement? {
      RenderChars(es.space, End);
      assert Render(End) == "";
    } else {
      hide ElementsShape, Render, TextOf;
      ElementText(es);
    }
  }

  lemma {:induction false} PlacesReach(es: Elements, at: nat)
    ensures AllBetween(ObjectPlaces(es, at), at, at + |Render(ElementsShape(es))| + 1)
    ensures AllBetween(SeenPlaces(es, at), at, at + |Render(ElementsShape(es))| + 1)
    ensures ObjectPlaces(es, at) == [] <==> NoObject(es)
    ensures SeenPlaces(es, at) == [] <==> NoLeadingObject(es)
  {
    hide ElementsShape, Render, TextOf, AllBetween;
    ElementsReach(es);
    var end := at + |Render(ElementsShape(es))| + 1;
    NoneBetween(at, end);
    if es.Element? {
      var next := at + ElementLength(es);
      PlacesReach(es.more, next);
      TextReaches(es.value);
      OneBetween(at + |es.before|, at, next);
      NoneBetween(at, next);
      BetweenJoin(if es.value.Object? then [at + |es.before|] else [], ObjectPlaces(es.more, next), at, next, end);
      if es.value.Array? {
        var inner := at + |es.before| + 1;
        PlacesReach(es.value.elements, inner);
        BetweenMore(SeenPlaces(es.value.elements, inner), inner,
                    inner + |Render(ElementsShape(es.value.elements))| + 1, at, end);
      } else {
        BetweenJoin(if es.value.Object? then [at + |es.before|] else [], SeenPlaces(es.more, next), at, next, end);
      }
    }
  }

  lemma NoneBetween(lo: nat, hi: nat)
    ensures AllBetween([], lo, hi)
  {
  }

  lemma OneBetween(p: nat, lo: nat, hi: nat)
    ensures lo <= p < hi ==> AllBetween([p], lo, hi)
  {
  }

  lemma BetweenMore(places: seq<nat>, lo: nat, hi: nat, lo': nat, hi': nat)
    requires AllBetween(places, lo, hi) && lo' <= lo && hi <= hi'
    ensures AllBetween(places, lo', hi')
  {
  }

  lemma BetweenJoin(a: seq<nat>, b: seq<nat>, lo: nat, mid: nat, hi: nat)
    requires AllBetween(a, lo, mid) && AllBetween(b, mid, hi) && lo <= mid <= hi
    ensures AllBetween(a + b, lo, hi)
  {
  }

  lemma TextReaches(v: Json)
    ensures v.Object? ==> |TextOf(v)| >= 2
    ensures v.Array? ==> |TextOf(v)| == |Render(ElementsShape(v.elements))| + 2
  {
    hide MembersShape, ElementsShape;
    assert Render(End) == "";
    if v.Object? {
      ObjectText(v.members);
    } else if v.Array? {
      var inner := ElementsShape(v.elements);
      assert Render(Brackets(inner, End)) == InBrackets(inner) + Render(End);
    }
  }

  /** Nothing is listed of these elements: no object before the first array closes, nor leading in that array. */
  predicate NoLeadingObject(es: Elements) {
    match es
    case NoElement(_) => true
    case Element(_, value, _, more) =>
      if value.Array? then NoLeadingObject(value.elements) else !value.Object? && NoLeadingObject(more)
  }

  /** The first nested array leads with no object, and no object element follows it. */
  predicate FirstArrayIsLast(es: Elements) {
    match es
    case NoElement(_) => true
    case Element(_, value, _, more) =>
      if value.Array? then NoLeadingObject(value.elements) && NoObject(more) else FirstArrayIsLast(more)
  }

  /** What is listed is the element objects themselves, by their places, on exactly these arrays. */
  lemma {:induction false} PlacesAgree(es: Elements, at: nat)
    ensures SeenPlaces(es, at) == ObjectPlaces(es, at) <==> FirstArrayIsLast(es)
    ensures FirstArrayIsLast(es) ==> HueSees(es) == ObjectElements(es)
  {
    if es.Element? {
      hide ElementsShape, Render;
      var next := at + ElementLength(es);
      PlacesAgree(es.more, next);
      PlacesReach(es.more, next);
      if es.value.Array? {
        var inner := at + |es.before| + 1;
        TextReaches(es.value);
        PlacesReach(es.value.elements, inner);
        NothingIn(es.value.elements, es.more);
        Apart(SeenPlaces(es.value.elements, inner), ObjectPlaces(es.more, next), next);
      } else {
        var head := if es.value.Object? then [at + |es.before|] else [];
        assert SeenPlaces(es, at)[|head|..] == SeenPlaces(es.more, next);
        assert ObjectPlaces(es, at)[|head|..] == ObjectPlaces(es.more, next);
      }
    }
  }

  lemma {:induction false} NothingIn(es: Elements, more: Elements)
    ensures NoLeadingObject(es) ==> HueSees(es) == []
    ensures NoObject(more) ==> ObjectElements(more) == []
  {
    if es.Element? {
      if es.value.Array? {
        NothingIn(es.value.elements, more);
      } else {
        NothingIn(es.more, more);
      }
    }
    HueSeesFew(more);
  }

  /** Places on either side of `mid` are the same only when there are none. */
  lemma Apart(a: seq<nat>, b: seq<nat>, mid: nat)
    requires forall p :: p in a ==> p < mid
    requires forall p :: p in b ==> mid <= p
    ensures a == b <==> a == [] && b == []
  {
    assert a != [] ==> a[0] in a;
    assert b != [] ==> b[0] in b;
  }

  /**
   SplitJsonDataObjects, started after the opening bracket of any JSON array, whatever follows the array:
   it returns the objects before the first nested array closes, each standing at its place. These are the
   element objects themselves exactly when the first nested array leads with no object and no object element
   follows it. As mere texts they are the same, too, exactly when that array's leading objects read like
   those that follow it.
   */
  lemma DataObjectsExactly(es: Elements, after: string)
    requires ProperElements(es)
    ensures var text := Render(ElementsShape(es)) + "]" + after;
            var found, places := Collect(text, true, 0, false, None), Places(text, 0, true, 0, false, None);
            && found == HueSees(es) && StandAt(text, places, found)
            && (places == ObjectPlaces(es, 0) <==> FirstArrayIsLast(es))
            && (FirstArrayIsLast(es) ==> found == ObjectElements(es))
            && (found == ObjectElements(es) <==> HueExact(es))
            && (NoNestedObjects(es) ==> (HueExact(es) <==> ArraysLast(es)))
  {
    hide Collect, Render, Places, PlacesFrom, Remaining, StandAt, ObjectPlaces, HueSees, ObjectElements;
    var text := Render(ElementsShape(es)) + "]" + after;
    ElementsAreBalanced(es);
    HueCollects(ElementsShape(es), after);
    BeforeCloseOfElements(es);
    HuePlacesAre(ElementsShape(es), after, 0);
    PlacesOfElements(es, 0);
    PlacesAgree(es, 0);
    AllRemains(text, true);
    CollectedStand(text, 0, true, 0, false, None);
    AllPlaces(text, true);
    HueExactly(es);
    if NoNestedObjects(es) {
      HueSeesAll(es);
    }
  }

  /** With a nested array the Hue scanner stops early: of [[],{}] it returns nothing. */
  lemma HueStopsAtNestedArray()
    ensures var es := Element("", Array(NoElement("")), "", Element("", Object(NoMember("")), "", NoElement("")));
            && Render(ElementsShape(es)) + "]" == "[],{}]"
            && Collect("[],{}]", true, 0, false, None) == []
            && ObjectElements(es) == ["{}"]
  {
    var inner := NoElement("");
    var last := Element("", Object(NoMember("")), "", NoElement(""));
    assert ElementsShape(inner) == End && MembersShape(NoMember("")) == End;
    assert ElementsShape(last) == Braces(End, End);
    assert Render(Braces(End, End)) == "{}";
    ObjectText(NoMember(""));
    HueOpens("],{}]");
    HueStops(",{}]");
    assert "[" + "],{}]" == "[],{}]" && "]" + ",{}]" == "],{}]";
  }

  /** A closing brace too many shifts the depth: both scanners miss the object behind it and list the one inside. */
  lemma StrayBraceShifts(hue: bool)
    ensures Collect("}{{}}", hue, 0, false, None) == ["{}"]
  {
    hide Collect;
    var s := "}{{}}";
    assert "{}" == s[2..4];
    AllRemains(s, hue);
    CollectAt(s, 0, hue, 0, false, None);
    CollectAt(s, 1, hue, -1, false, None);
    CollectAt(s, 2, hue, 0, false, None);
    CollectAt(s, 3, hue, 1, false, Some(2));
    CollectAt(s, 4, hue, 0, false, None);
    NothingRemains(s, 5, hue, -1, false, None);
  }

  /** An object in a nested array is listed by the Shelly scanner: of [[{}]] it returns that object. */
  lemma ShellyListsNestedObject()
    ensures var inner := Element("", Object(NoMember("")), "", NoElement(""));
            var es := Element("", Array(inner), "", NoElement(""));
            && TextOf(Array(es)) == "[[{}]]"
            && Collect("[[{}]]", false, 0, false, None) == ["{}"] && ObjectElements(es) == []
  {
    hide Collect;
    var inner := Element("", Object(NoMember("")), "", NoElement(""));
    var es := Element("", Array(inner), "", NoElement(""));
    NestedShape();
    ArrayObjectsExactly(es);
    ObjectText(NoMember(""));
    assert ObjectsInElements(inner) == ["{}"] + [] && ObjectsInElements(es) == ["{}"];
  }

  lemma NestedShape()
    ensures var inner := Element("", Object(NoMember("")), "", NoElement(""));
            && TextOf(Array(Element("", Array(inner), "", NoElement("")))) == "[[{}]]"
            && TextOf(Object(NoMember(""))) == "{}"
  {
    var inner := Element("", Object(NoMember("")), "", NoElement(""));
    assert MembersShape(NoMember("")) == End;
    assert ElementsShape(inner) == Braces(End, End);
    assert ElementsShape(Element("", Array(inner), "", NoElement(""))) == Brackets(Braces(End, End), End);
    assert Render(End) == "" && Render(Braces(End, End)) == "{}";
    assert Render(Brackets(Braces(End, End), End)) == "[{}]";
  }
}
