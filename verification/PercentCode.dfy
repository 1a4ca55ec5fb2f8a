/**
 The percent code shared by the SMB mount parameters (optional/smb/SmbMount.cpp) and the device launch
 arguments (src/vicinato/DeviceLaunch.cpp), and the whitespace tokenizer it has to survive.
 */
module PercentCode {
  const HEX := "0123456789ABCDEF"

  /** Space, control characters, '%' and DEL are escaped. */
  predicate NeedsEscape(c: char) {
    c <= ' ' || c == '%' || c as int == 0x7f
  }

  function EscapedForm(c: char): string
    requires NeedsEscape(c)
  {
    ['%', HEX[c as int / 16], HEX[c as int % 16]]
  }

  function Escape(c: char): (s: string)
    ensures |s| >= 1
  {
    if NeedsEscape(c) then EscapedForm(c) else [c]
  }

  function Encode(value: string): string {
    if value == "" then "" else Escape(value[0]) + Encode(value[1..])
  }

  method EncodeValue(value: string) returns (out: string)
    ensures out == Encode(value)
  {
    out := "";
    var k := 0;
    while k < |value|
      invariant 0 <= k <= |value|
      invariant out + Encode(value[k..]) == Encode(value)
    {
      hide EscapedForm;
      var c := value[k];
      assert value[k..][1..] == value[k + 1..];
      assert out + Encode(value[k..]) == (out + Escape(c)) + Encode(value[k + 1..]);
      if NeedsEscape(c) {
        out := out + EscapedForm(c);
      } else {
        out := out + [c];
      }
      k := k + 1;
    }
    assert out + "" == out;
  }

  /** The value of a hexadecimal digit in either case, -1 for anything else. */
  function HexValue(c: char): int {
    if '0' <= c <= '9' then c as int - '0' as int
    else if 'a' <= c <= 'f' then c as int - 'a' as int + 10
    else if 'A' <= c <= 'F' then c as int - 'A' as int + 10
    else -1
  }

  /** An escape with two valid digits starts the text. */
  predicate StartsEscape(s: string) {
    |s| > 2 && s[0] == '%' && HexValue(s[1]) >= 0 && HexValue(s[2]) >= 0
  }

  function Unescaped(s: string): char
    requires StartsEscape(s)
  {
    (HexValue(s[1]) * 16 + HexValue(s[2])) as char
  }

  /** Short and invalid escapes stay as they are. */
  function Decode(s: string): string {
    if s == "" then ""
    else if StartsEscape(s) then [Unescaped(s)] + Decode(s[3..])
    else [s[0]] + Decode(s[1..])
  }

  method DecodeValue(s: string) returns (out: string)
    ensures out == Decode(s)
  {
    out := "";
    var i := 0;
    assert s[0..] == s;
    while i < |s|
      invariant 0 <= i <= |s|
      invariant out + Decode(s[i..]) == Decode(s)
    {
      hide HexValue;
      DecodeAt(s, i, out);
      if s[i] == '%' && i + 2 < |s| {
        var hi := HexValue(s[i + 1]);
        var lo := HexValue(s[i + 2]);
        if hi >= 0 && lo >= 0 {
          out := out + [(hi * 16 + lo) as char];
          i := i + 3;
          continue;
        }
      }
      out := out + [s[i]];
      i := i + 1;
    }
    assert out + "" == out;
  }

  lemma DecodeAt(s: string, i: nat, out: string)
    requires i < |s|
    ensures i + 2 < |s| && HexValue(s[i + 1]) >= 0 && HexValue(s[i + 2]) >= 0 ==>
            0 <= HexValue(s[i + 1]) * 16 + HexValue(s[i + 2]) < 256
    ensures out + Decode(s[i..]) ==
            if s[i] == '%' && i + 2 < |s| && HexValue(s[i + 1]) >= 0 && HexValue(s[i + 2]) >= 0 then
              (out + [(HexValue(s[i + 1]) * 16 + HexValue(s[i + 2])) as char]) + Decode(s[i + 3..])
            else (out + [s[i]]) + Decode(s[i + 1..])
  {
    var t := s[i..];
    assert t[1..] == s[i + 1..];
    if i + 2 < |s| {
      assert t[3..] == s[i + 3..];
    }
  }

  lemma HexDigits(n: nat)
    requires n < 16
    ensures HexValue(HEX[n]) == n
  {
  }

  /** One encoded character is decoded to itself, whatever follows. */
  lemma DecodeEscape(c: char, rest: string)
    ensures Decode(Escape(c) + rest) == [c] + Decode(rest)
  {
    var s := Escape(c) + rest;
    if NeedsEscape(c) {
      HexDigits(c as int / 16);
      HexDigits(c as int % 16);
      assert s[3..] == rest;
    } else {
      assert s[1..] == rest;
    }
  }

  /** Decoding inverts encoding on every string, of any bytes. */
  lemma {:induction false} DecodeInvertsEncode(value: string)
    ensures Decode(Encode(value)) == value
  {
    if value != "" {
      DecodeEscape(value[0], Encode(value[1..]));
      DecodeInvertsEncode(value[1..]);
    }
  }

  /** An encoded value holds nothing that would have to be escaped again but the '%' of escapes. */
  lemma {:induction false} EncodedIsClean(value: string)
    ensures forall c :: c in Encode(value) ==> !NeedsEscape(c) || c == '%'
    ensures '=' in Encode(value) <==> '=' in value
  {
    if value != "" {
      EncodedIsClean(value[1..]);
      EscapeIsClean(value[0]);
      assert value == [value[0]] + value[1..];
    }
  }

  lemma EscapeIsClean(c: char)
    ensures forall d :: d in Escape(c) ==> !NeedsEscape(d) || d == '%'
    ensures '=' in Escape(c) <==> c == '='
  {
  }

  // ------------------------------------------------------------------ the code, told by its characters

  /** `c` is the hexadecimal digit `n`, in either case. */
  predicate IsHexDigit(c: char, n: nat) {
    n < 16 && (c == "0123456789ABCDEF"[n] || c == "0123456789abcdef"[n])
  }

  lemma HexValueIs(c: char, n: nat)
    ensures HexValue(c) == n <==> IsHexDigit(c, n)
    ensures HexValue(c) < 16 && (HexValue(c) < 0 ==> HexValue(c) == -1)
  {
  }

  /**
   The encoding, character by character: those up to space, '%' and DEL become '%' and the two upper-case
   digits of their code, all others stay.
   */
  lemma {:induction false} EncodesEach(a: string, c: char, b: string)
    ensures Encode("") == ""
    ensures Encode(a + [c] + b) ==
            Encode(a)
            + (if c as int <= 32 || c as int == 37 || c as int == 127 then
                 ['%', "0123456789ABCDEF"[c as int / 16], "0123456789ABCDEF"[c as int % 16]]
               else [c])
            + Encode(b)
  {
    var s := a + [c] + b;
    if a == "" {
      assert s[0] == c && s[1..] == b;
    } else {
      assert s[0] == a[0] && s[1..] == a[1..] + [c] + b;
      EncodesEach(a[1..], c, b);
    }
  }

  /** An escape with two digits, of either case, is its character; nothing else at the start changes. */
  lemma DecodesEach(c: char, d: char, e: char, rest: string, m: nat, n: nat)
    ensures Decode("") == ""
    ensures c == '%' && IsHexDigit(d, m) && IsHexDigit(e, n) ==>
              Decode([c, d, e] + rest) == [(16 * m + n) as char] + Decode(rest)
    ensures (forall k: nat :: !IsHexDigit(d, k)) || (forall k: nat :: !IsHexDigit(e, k)) || c != '%' ==>
              Decode([c, d, e] + rest) == [c] + Decode([d, e] + rest)
    ensures Decode([c, d]) == [c] + Decode([d]) && Decode([c]) == [c]
  {
    var s := [c, d, e] + rest;
    HexValueIs(d, m);
    HexValueIs(e, n);
    if HexValue(d) >= 0 {
      HexValueIs(d, HexValue(d));
    }
    if HexValue(e) >= 0 {
      HexValueIs(e, HexValue(e));
    }
    assert s[3..] == rest && s[1..] == [d, e] + rest;
    assert [c, d][1..] == [d] && [c][1..] == "";
  }

  // ------------------------------------------------------------------ tokens

  predicate IsSpace(c: char) {
    c == ' ' || '\t' <= c <= '\r'
  }

  predicate Spaceless(s: string) {
    forall c :: c in s ==> !IsSpace(c)
  }

  /** The token at the start of `s`. */
  function Word(s: string): string {
    if s == "" || IsSpace(s[0]) then "" else [s[0]] + Word(s[1..])
  }

  lemma {:induction false} WordIs(s: string)
    ensures |Word(s)| <= |s|
  {
    if s != "" && !IsSpace(s[0]) {
      WordIs(s[1..]);
    }
  }

  /** The maximal runs of non-space characters, in order. */
  function Tokens(s: string): seq<string>
    decreases |s|
  {
    if s == "" then []
    else if IsSpace(s[0]) then Tokens(s[1..])
    else
      WordIs(s);
      assert |Word(s)| >= 1;
      [Word(s)] + Tokens(s[|Word(s)|..])
  }

  function Spaced(tokens: seq<string>): string {
    if tokens == [] then "" else " " + tokens[0] + Spaced(tokens[1..])
  }

  lemma {:induction false} WordOf(t: string, rest: string)
    requires Spaceless(t) && (rest == "" || IsSpace(rest[0]))
    ensures Word(t + rest) == t
  {
    if t == "" {
      assert t + rest == rest;
    } else {
      assert t[0] in t && (t + rest)[0] == t[0] && (t + rest)[1..] == t[1..] + rest;
      WordOf(t[1..], rest);
    }
  }

  /** Non-empty tokens without white space are found again between the spaces. */
  lemma {:induction false} TokensOfSpaced(first: string, tokens: seq<string>)
    requires first != "" && Spaceless(first) && forall t :: t in tokens ==> t != "" && Spaceless(t)
    ensures Tokens(first + Spaced(tokens)) == [first] + tokens
    decreases |tokens|
  {
    hide Word;
    var s := first + Spaced(tokens);
    assert first[0] in first;
    WordOf(first, Spaced(tokens));
    assert s[|first|..] == Spaced(tokens);
    if tokens != [] {
      assert tokens[0] in tokens && forall t :: t in tokens[1..] ==> t in tokens;
      TokensOfSpaced(tokens[0], tokens[1..]);
      assert Spaced(tokens)[1..] == tokens[0] + Spaced(tokens[1..]);
      assert [tokens[0]] + tokens[1..] == tokens;
    }
  }

  // ------------------------------------------------------------------ key=value

  /** The place of the first '='. */
  function EqualsAt(token: string): (k: int)
    ensures -1 <= k < |token|
    ensures k >= 0 ==> token[k] == '=' && '=' !in token[..k]
    ensures k == -1 <==> '=' !in token
  {
    if token == "" then -1
    else if token[0] == '=' then 0
    else
      var k := EqualsAt(token[1..]);
      assert token == [token[0]] + token[1..];
      if k < 0 then -1
      else
        assert token[..k + 1] == [token[0]] + token[1..][..k];
        k + 1
  }

  lemma {:induction false} EqualsAfterKey(key: string, rest: string)
    requires '=' !in key
    ensures EqualsAt(key + "=" + rest) == |key|
  {
    var token := key + "=" + rest;
    if key == "" {
      assert token[0] == '=';
    } else {
      assert token[0] == key[0] && key[0] in key;
      assert token[1..] == key[1..] + "=" + rest;
      EqualsAfterKey(key[1..], rest);
    }
  }

  /** `token` is `prefix` and something after it. */
  predicate Starts(token: string, prefix: string) {
    prefix <= token
  }

  /** The text behind the last token with the prefix; empty without one. */
  function LastRaw(tokens: seq<string>, prefix: string): string {
    if tokens == [] then ""
    else
      var last := tokens[|tokens| - 1];
      if Starts(last, prefix) then last[|prefix|..] else LastRaw(tokens[..|tokens| - 1], prefix)
  }

  /** A token has the key exactly when the key and an '=' start it. */
  lemma KeyStarts(token: string, key: string)
    requires '=' !in key
    ensures Starts(token, key + "=") <==> EqualsAt(token) >= 0 && token[..EqualsAt(token)] == key
    ensures Starts(token, key + "=") ==> EqualsAt(token) == |key| && token[|key| + 1..] == token[|key + "="|..]
  {
    if Starts(token, key + "=") {
      assert token == key + "=" + token[|key| + 1..];
      EqualsAfterKey(key, token[|key| + 1..]);
    }
    if EqualsAt(token) >= 0 && token[..EqualsAt(token)] == key {
      assert token == key + "=" + token[|key| + 1..];
    }
  }
}
