/**
 JSON text (RFC 8259) and its bracket structure: what the depth-and-string-state scanners of the Shelly
 and Hue clients work on.
 */
module JsonText {
  /** A character of a string literal: itself, or one escaped by a backslash. */
  datatype Unit = Raw(c: char) | Escaped(c: char)

  /** Text with balanced brackets: loose characters, string literals and bracketed groups. */
  datatype Text =
    | End
    | Ch(c: char, rest: Text)
    | Str(body: seq<Unit>, rest: Text)
    | Braces(inner: Text, rest: Text)
    | Brackets(inner: Text, rest: Text)

  function RenderUnit(u: Unit): string {
    match u
    case Raw(c) => [c]
    case Escaped(c) => ['\\', c]
  }

  function RenderBody(body: seq<Unit>): string {
    if body == [] then [] else RenderUnit(body[0]) + RenderBody(body[1..])
  }

  function Quoted(body: seq<Unit>): string {
    "\"" + RenderBody(body) + "\""
  }

  function Render(t: Text): string
    decreases t, 0
  {
    match t
    case End => []
    case Ch(c, rest) => [c] + Render(rest)
    case Str(body, rest) => Quoted(body) + Render(rest)
    case Braces(inner, rest) => InBraces(inner) + Render(rest)
    case Brackets(inner, rest) => InBrackets(inner) + Render(rest)
  }

  function InBraces(inner: Text): string
    decreases inner, 1
  {
    "{" + Render(inner) + "}"
  }

  function InBrackets(inner: Text): string
    decreases inner, 1
  {
    "[" + Render(inner) + "]"
  }

  predicate Loose(c: char) {
    c != '{' && c != '}' && c != '[' && c != ']' && c != '"'
  }

  predicate ProperUnit(u: Unit) {
    u.Raw? ==> u.c != '"' && u.c != '\\'
  }

  predicate ProperBody(body: seq<Unit>) {
    forall u :: u in body ==> ProperUnit(u)
  }

  predicate Balanced(t: Text) {
    match t
    case End => true
    case Ch(c, rest) => Loose(c) && Balanced(rest)
    case Str(body, rest) => ProperBody(body) && Balanced(rest)
    case Braces(inner, rest) => Balanced(inner) && Balanced(rest)
    case Brackets(inner, rest) => Balanced(inner) && Balanced(rest)
  }

  // ------------------------------------------------------------------ JSON values

  /**
   A JSON value with the white space it is written with, on either side of every element, member name, colon
   and value. Scalars are numbers, true, false and null.
   */
  datatype Json =
    | Scalar(word: string)
    | StringValue(body: seq<Unit>)
    | Object(members: Members)
    | Array(elements: Elements)

  datatype Elements =
    | NoElement(space: string)
    | Element(before: string, value: Json, after: string, more: Elements)

  datatype Members =
    | NoMember(space: string)
    | Member(before: string, name: seq<Unit>, mid: string, gap: string, value: Json, after: string, more: Members)

  function Chars(s: string, rest: Text): Text {
    if s == [] then rest else Ch(s[0], Chars(s[1..], rest))
  }

  /** The bracket structure of a value followed by `rest`. */
  function Shape(v: Json, rest: Text): Text {
    match v
    case Scalar(word) => Chars(word, rest)
    case StringValue(body) => Str(body, rest)
    case Object(members) => Braces(MembersShape(members), rest)
    case Array(elements) => Brackets(ElementsShape(elements), rest)
  }

  function ElementsShape(es: Elements): Text {
    match es
    case NoElement(space) => Chars(space, End)
    case Element(before, value, after, more) =>
      var tail := ElementsShape(more);
      Chars(before, Shape(value, Chars(after, if more.Element? then Ch(',', tail) else tail)))
  }

  function MembersShape(ms: Members): Text {
    match ms
    case NoMember(space) => Chars(space, End)
    case Member(before, name, mid, gap, value, after, more) =>
      var tail := MembersShape(more);
      var rest := Chars(after, if more.Member? then Ch(',', tail) else tail);
      Chars(before, Str(name, Chars(mid, Ch(':', Chars(gap, Shape(value, rest))))))
  }

  /** The JSON text of a value. */
  function TextOf(v: Json): string {
    Render(Shape(v, End))
  }

  predicate LooseText(s: string) {
    forall c :: c in s ==> Loose(c)
  }

  predicate ProperJson(v: Json) {
    match v
    case Scalar(word) => LooseText(word)
    case StringValue(body) => ProperBody(body)
    case Object(members) => ProperMembers(members)
    case Array(elements) => ProperElements(elements)
  }

  predicate ProperElements(es: Elements) {
    match es
    case NoElement(space) => LooseText(space)
    case Element(before, value, after, more) =>
      LooseText(before) && ProperJson(value) && LooseText(after) && ProperElements(more)
  }

  predicate ProperMembers(ms: Members) {
    match ms
    case NoMember(space) => LooseText(space)
    case Member(before, name, mid, gap, value, after, more) =>
      && LooseText(before) && ProperBody(name) && LooseText(mid) && LooseText(gap) && ProperJson(value)
      && LooseText(after) && ProperMembers(more)
  }

  lemma {:induction false} CharsBalanced(s: string, rest: Text)
    requires LooseText(s) && Balanced(rest)
    ensures Balanced(Chars(s, rest))
  {
    if s != [] {
      CharsBalanced(s[1..], rest);
    }
  }

  /** Every JSON value is balanced text. */
  lemma {:induction false} JsonIsBalanced(v: Json, rest: Text)
    requires ProperJson(v) && Balanced(rest)
    ensures Balanced(Shape(v, rest))
  {
    match v
    case Scalar(word) => CharsBalanced(word, rest);
    case StringValue(body) =>
    case Object(members) => MembersAreBalanced(members);
    case Array(elements) => ElementsAreBalanced(elements);
  }

  lemma {:induction false} ElementsAreBalanced(es: Elements)
    requires ProperElements(es)
    ensures Balanced(ElementsShape(es))
  {
    match es
    case NoElement(space) => CharsBalanced(space, End);
    case Element(before, value, after, more) =>
      ElementsAreBalanced(more);
      var tail := if more.Element? then Ch(',', ElementsShape(more)) else ElementsShape(more);
      CharsBalanced(after, tail);
      JsonIsBalanced(value, Chars(after, tail));
      CharsBalanced(before, Shape(value, Chars(after, tail)));
  }

  lemma {:induction false} MembersAreBalanced(ms: Members)
    requires ProperMembers(ms)
    ensures Balanced(MembersShape(ms))
  {
    match ms
    case NoMember(space) => CharsBalanced(space, End);
    case Member(before, name, mid, gap, value, after, more) =>
      MembersAreBalanced(more);
      var tail := if more.Member? then Ch(',', MembersShape(more)) else MembersShape(more);
      CharsBalanced(after, tail);
      JsonIsBalanced(value, Chars(after, tail));
      var valued := Chars(gap, Shape(value, Chars(after, tail)));
      CharsBalanced(gap, Shape(value, Chars(after, tail)));
      CharsBalanced(mid, Ch(':', valued));
      CharsBalanced(before, Str(name, Chars(mid, Ch(':', valued))));
  }

  lemma {:induction false} RenderChars(s: string, rest: Text)
    ensures Render(Chars(s, rest)) == s + Render(rest)
  {
    hide Quoted, InBraces, InBrackets;
    if s != [] {
      RenderChars(s[1..], rest);
      assert s + Render(rest) == [s[0]] + (s[1..] + Render(rest));
    } else {
      assert s + Render(rest) == Render(rest);
    }
  }

  lemma RenderShape(v: Json, rest: Text)
    ensures Render(Shape(v, rest)) == TextOf(v) + Render(rest)
  {
    hide MembersShape, ElementsShape, Quoted, InBraces, InBrackets;
    assert Render(End) == "";
    if v.Scalar? {
      RenderChars(v.word, rest);
      RenderChars(v.word, End);
    }
  }

  /** The text of a value: its word, its quoted characters, or what its braces or brackets hold. */
  lemma ValueText(v: Json)
    ensures v.Scalar? ==> TextOf(v) == v.word
    ensures v.StringValue? ==> TextOf(v) == "\"" + RenderBody(v.body) + "\""
    ensures v.Object? ==> TextOf(v) == "{" + Render(MembersShape(v.members)) + "}"
    ensures v.Array? ==> TextOf(v) == "[" + Render(ElementsShape(v.elements)) + "]"
  {
    hide MembersShape, ElementsShape, RenderBody, InBraces, InBrackets;
    assert Render(End) == "";
    match v
    case Scalar(word) => RenderChars(word, End);
    case StringValue(body) => assert Render(Str(body, End)) == Quoted(body);
    case Object(members) =>
      assert Render(Braces(MembersShape(members), End)) == InBraces(MembersShape(members));
      BracketText(MembersShape(members));
    case Array(elements) =>
      assert Render(Brackets(ElementsShape(elements), End)) == InBrackets(ElementsShape(elements));
      BracketText(ElementsShape(elements));
  }

  lemma BracketText(t: Text)
    ensures InBraces(t) == "{" + Render(t) + "}" && InBrackets(t) == "[" + Render(t) + "]"
  {
  }

  /** The text of a member: white space may stand before and behind its name, its colon and its value. */
  lemma MemberText(ms: Members)
    requires ms.Member?
    ensures Render(MembersShape(ms)) ==
            ms.before + Quoted(ms.name) + ms.mid + ":" + ms.gap + TextOf(ms.value) + ms.after
            + (if ms.more.Member? then "," else "") + Render(MembersShape(ms.more))
  {
    hide Quoted, Chars, Shape, TextOf;
    var rest := if ms.more.Member? then Ch(',', MembersShape(ms.more)) else MembersShape(ms.more);
    var valued := Chars(ms.gap, Shape(ms.value, Chars(ms.after, rest)));
    RenderChars(ms.after, rest);
    RenderShape(ms.value, Chars(ms.after, rest));
    RenderChars(ms.gap, Shape(ms.value, Chars(ms.after, rest)));
    RenderChars(ms.mid, Ch(':', valued));
    RenderChars(ms.before, Str(ms.name, Chars(ms.mid, Ch(':', valued))));
  }

  /** The text of an element, with white space on either side. */
  lemma ElementText(es: Elements)
    requires es.Element?
    ensures Render(ElementsShape(es)) ==
            es.before + TextOf(es.value) + es.after + (if es.more.Element? then "," else "")
            + Render(ElementsShape(es.more))
  {
    hide Chars, Shape, TextOf;
    var rest := if es.more.Element? then Ch(',', ElementsShape(es.more)) else ElementsShape(es.more);
    RenderChars(es.after, rest);
    RenderShape(es.value, Chars(es.after, rest));
    RenderChars(es.before, Shape(es.value, Chars(es.after, rest)));
  }
}
