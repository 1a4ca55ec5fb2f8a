/**
 The device launch protocol (src/vicinato/DeviceLaunch.cpp): a discovered device printed as an argument
 list and parsed back by its handler.
 */
module DeviceLaunch {
  import opened Bytes
  import opened Decimals
  import opened Folds
  import opened PercentCode

  datatype Txt = Txt(key: string, value: string)

  datatype Device = Device(host: string, port: uint16, kind: string, name: string, action: string, txt: seq<Txt>)

  const NO_DEVICE := Device("", 0, "", "", "", [])
  const ULONG_MAX := 0xffff_ffff_ffff_ffff

  // ------------------------------------------------------------------ printing

  function Given(key: string, value: string): seq<string> {
    if value == "" then [] else [key + "=" + Encode(value)]
  }

  function TxtArg(t: Txt): string {
    "txt." + Encode(t.key) + "=" + Encode(t.value)
  }

  function TxtArgs(txt: seq<Txt>): seq<string> {
    seq(|txt|, i requires 0 <= i < |txt| => TxtArg(txt[i]))
  }

  function HeadArgs(d: Device): seq<string> {
    ["host=" + Encode(d.host)] + ["port=" + Decimal(d.port)] + Given("type", d.kind) + Given("name", d.name)
        + Given("action", d.action)
  }

  method AppendGiven(args: seq<string>, key: string, value: string) returns (r: seq<string>)
    ensures r == args + Given(key, value)
  {
    r := args;
    if value != "" {
      var e := EncodeValue(value);
      r := r + [key + "=" + e];
    }
  }

  lemma ArgumentsAre(d: Device)
    ensures HeadArgs(d) + TxtArgs(d.txt) ==
            ["host=" + Encode(d.host), "port=" + Decimal(d.port)]
            + (if d.kind == "" then [] else ["type=" + Encode(d.kind)])
            + (if d.name == "" then [] else ["name=" + Encode(d.name)])
            + (if d.action == "" then [] else ["action=" + Encode(d.action)])
            + seq(|d.txt|, i requires 0 <= i < |d.txt| =>
                "txt." + Encode(d.txt[i].key) + "=" + Encode(d.txt[i].value))
  {
    hide Encode, Decimal;
    assert "type" + "=" == "type=" && "name" + "=" == "name=" && "action" + "=" == "action=";
    assert TxtArgs(d.txt) == seq(|d.txt|, i requires 0 <= i < |d.txt| =>
        "txt." + Encode(d.txt[i].key) + "=" + Encode(d.txt[i].value));
  }

  method BuildLaunchArgs(d: Device) returns (args: seq<string>)
    ensures args == HeadArgs(d) + TxtArgs(d.txt)
    ensures args == ["host=" + Encode(d.host), "port=" + Decimal(d.port)]
                    + (if d.kind == "" then [] else ["type=" + Encode(d.kind)])
                    + (if d.name == "" then [] else ["name=" + Encode(d.name)])
                    + (if d.action == "" then [] else ["action=" + Encode(d.action)])
                    + seq(|d.txt|, i requires 0 <= i < |d.txt| =>
                        "txt." + Encode(d.txt[i].key) + "=" + Encode(d.txt[i].value))
  {
    ArgumentsAre(d);
    var host := EncodeValue(d.host);
    args := ["host=" + host];
    args := args + ["port=" + Decimal(d.port)];
    args := AppendGiven(args, "type", d.kind);
    args := AppendGiven(args, "name", d.name);
    args := AppendGiven(args, "action", d.action);
    assert TxtArgs(d.txt[..0]) == [];
    assert args + [] == args;
    var k := 0;
    while k < |d.txt|
      invariant 0 <= k <= |d.txt|
      invariant args == HeadArgs(d) + TxtArgs(d.txt[..k])
    {
      hide HeadArgs;
      assert TxtArgs(d.txt[..k + 1]) == TxtArgs(d.txt[..k]) + [TxtArg(d.txt[k])];
      var key := EncodeValue(d.txt[k].key);
      var value := EncodeValue(d.txt[k].value);
      args := args + ["txt." + key + "=" + value];
      k := k + 1;
    }
    assert d.txt[..k] == d.txt;
  }

  // ------------------------------------------------------------------ parsing

  /** strtoul in base ten: leading white space and sign, then digits, saturating. */
  function Strtoul(s: string): nat {
    if s != "" && IsSpace(s[0]) then Strtoul(s[1..])
    else if s != "" && (s[0] == '+' || s[0] == '-') then
      Saturated(s[1..], s[0] == '-')
    else Saturated(s, false)
  }

  /** The digits at the start; a number too large is cut off, before the sign applies. */
  function Saturated(s: string, negative: bool): nat {
    DigitRunDigits(s);
    var v := NumberOf(DigitRun(s));
    if v > ULONG_MAX then ULONG_MAX else if negative then (ULONG_MAX + 1 - v) % (ULONG_MAX + 1) else v
  }

  predicate IsTxtKey(key: string) {
    |key| >= 4 && key[..4] == "txt."
  }

  /** One token of the handler's argument list. */
  function Step(d: Device, token: string): Device {
    var eq := EqualsAt(token);
    if eq < 0 then d
    else
      var key, value := token[..eq], token[eq + 1..];
      if key == "host" then d.(host := Decode(value))
      else if key == "port" then d.(port := Strtoul(value) % TWO_16)
      else if key == "type" then d.(kind := Decode(value))
      else if key == "name" then d.(name := Decode(value))
      else if key == "action" then d.(action := Decode(value))
      else if IsTxtKey(key) then d.(txt := d.txt + [Txt(Decode(key[4..]), Decode(value))])
      else d
  }

  method ParseDevice(argv: seq<string>) returns (out: Device)
    ensures out == Fold(Step, NO_DEVICE, if argv == [] then [] else argv[1..])
  {
    hide EqualsAt, Decode, Strtoul;
    out := NO_DEVICE;
    var i := 1;
    while i < |argv|
      invariant 1 <= i && (argv != [] ==> i <= |argv|)
      invariant out == Fold(Step, NO_DEVICE, if argv == [] then [] else argv[1..i])
    {
      assert argv[1..i + 1][..i - 1] == argv[1..i];
      var token := argv[i];
      var eq := EqualsAt(token);
      i := i + 1;
      if eq < 0 {
        continue;
      }
      var key := token[..eq];
      if key == "port" {
        out := out.(port := Strtoul(token[eq + 1..]) % TWO_16);
        continue;
      }
      var value := DecodeValue(token[eq + 1..]);
      if key == "host" { out := out.(host := value); }
      else if key == "type" { out := out.(kind := value); }
      else if key == "name" { out := out.(name := value); }
      else if key == "action" { out := out.(action := value); }
      else if IsTxtKey(key) {
        var name := DecodeValue(key[4..]);
        out := out.(txt := out.txt + [Txt(name, value)]);
      }
    }
    assert argv != [] ==> argv[1..i] == argv[1..];
  }

  // ------------------------------------------------------------------ what an argument list means

  /** The number that white space, a sign and digits spell, whatever follows them. */
  lemma {:induction false} StrtoulReads(spaces: string, sign: string, digits: string, rest: string)
    requires forall c :: c in spaces ==> c == ' ' || '\t' <= c <= '\r'
    requires sign == "" || sign == "+" || sign == "-"
    requires (forall c :: c in digits ==> '0' <= c <= '9') && (rest == "" || !('0' <= rest[0] <= '9'))
    requires digits == "" && sign == "" && rest != "" ==>
               rest[0] != '+' && rest[0] != '-' && rest[0] != ' ' && !('\t' <= rest[0] <= '\r')
    ensures (forall c :: c in digits ==> IsDigit(c))
    ensures var n := NumberOf(digits);
            Strtoul(spaces + (sign + (digits + rest))) ==
            if n >= 0x1_0000_0000_0000_0000 then 0xffff_ffff_ffff_ffff
            else if sign == "-" && n > 0 then 0x1_0000_0000_0000_0000 - n
            else n
    decreases |spaces|
  {
    hide DigitRun, NumberOf;
    var s := spaces + (sign + (digits + rest));
    if spaces != "" {
      assert s[0] == spaces[0] && spaces[0] in spaces && s[1..] == spaces[1..] + (sign + (digits + rest));
      assert forall c :: c in spaces[1..] ==> c in spaces;
      StrtoulReads(spaces[1..], sign, digits, rest);
    } else {
      assert s == sign + (digits + rest);
      RunsDigits(digits, rest);
      SignReads(sign, digits, rest);
    }
  }

  lemma SignReads(sign: string, digits: string, rest: string)
    requires sign == "" || sign == "+" || sign == "-"
    requires (forall c :: c in digits ==> '0' <= c <= '9')
    requires digits == "" && sign == "" && rest != "" ==>
               rest[0] != '+' && rest[0] != '-' && rest[0] != ' ' && !('\t' <= rest[0] <= '\r')
    ensures Strtoul(sign + (digits + rest)) == Saturated(digits + rest, sign == "-")
  {
    hide Saturated;
    var s := sign + (digits + rest);
    if sign == "" {
      assert s == digits + rest;
      if digits != "" {
        assert s[0] == digits[0] && digits[0] in digits;
      }
    } else {
      assert s[0] == sign[0] && s[1..] == digits + rest;
    }
  }

  /** The record of a token: its key after "txt.", and its value. */
  function RecordOf(token: string): seq<Txt> {
    var eq := EqualsAt(token);
    if Starts(token, "txt.") && eq >= 4 then [Txt(Decode(token[4..eq]), Decode(token[eq + 1..]))] else []
  }

  function RecordsOf(tokens: seq<string>): seq<Txt> {
    if tokens == [] then [] else RecordsOf(tokens[..|tokens| - 1]) + RecordOf(tokens[|tokens| - 1])
  }

  /** A record's token is "txt.", a key without '=', an '=' and a value; no other token is one. */
  lemma RecordIs(token: string, key: string, value: string)
    requires '=' !in key
    ensures token == "txt." + key + "=" + value ==> RecordOf(token) == [Txt(Decode(key), Decode(value))]
    ensures (forall k: string, v: string :: '=' !in k ==> token != "txt." + k + "=" + v) ==> RecordOf(token) == []
  {
    hide Decode, EqualsAt;
    if token == "txt." + key + "=" + value {
      EqualsAfterKey("txt." + key, value);
      assert token[4..EqualsAt(token)] == key && token[EqualsAt(token) + 1..] == value && token[..4] == "txt.";
    }
    if RecordOf(token) != [] {
      RecordSplits(token);
    }
  }

  lemma RecordSplits(token: string)
    requires RecordOf(token) != []
    ensures exists k: string, v: string :: '=' !in k && token == "txt." + k + "=" + v
  {
    hide Decode;
    var eq := EqualsAt(token);
    var k, v := token[4..eq], token[eq + 1..];
    assert forall c :: c in k ==> c in token[..eq];
    assert token == token[..4] + k + [token[eq]] + v && token[..4] == "txt.";
    assert token == "txt." + k + "=" + v;
  }

  lemma StepIs(d: Device, token: string)
    ensures Step(d, token) ==
            if Starts(token, "host=") then d.(host := Decode(token[5..]))
            else if Starts(token, "port=") then d.(port := Strtoul(token[5..]) % 65536)
            else if Starts(token, "type=") then d.(kind := Decode(token[5..]))
            else if Starts(token, "name=") then d.(name := Decode(token[5..]))
            else if Starts(token, "action=") then d.(action := Decode(token[7..]))
            else d.(txt := d.txt + RecordOf(token))
  {
    hide EqualsAt, Decode, Strtoul;
    KeyStarts(token, "host");
    KeyStarts(token, "port");
    KeyStarts(token, "type");
    KeyStarts(token, "name");
    KeyStarts(token, "action");
    assert "host" + "=" == "host=" && "port" + "=" == "port=" && "type" + "=" == "type=";
    assert "name" + "=" == "name=" && "action" + "=" == "action=";
    var eq := EqualsAt(token);
    TxtStarts(token, eq);
    assert d.txt + [] == d.txt;
  }

  lemma TxtStarts(token: string, eq: int)
    requires -1 <= eq < |token| && (eq >= 0 ==> token[eq] == '=' && '=' !in token[..eq])
    ensures eq >= 0 ==> (IsTxtKey(token[..eq]) <==> Starts(token, "txt.") && eq >= 4)
    ensures eq >= 4 ==> token[..eq][4..] == token[4..eq]
  {
    if eq >= 4 {
      assert token[..eq][..4] == token[..4];
    }
  }

  lemma LastOne(init: seq<string>, last: string, prefix: string)
    ensures LastRaw(init + [last], prefix) == if Starts(last, prefix) then last[|prefix|..] else LastRaw(init, prefix)
  {
    assert (init + [last])[..|init|] == init;
  }

  lemma OnlyOne(token: string)
    ensures Starts(token, "host=") ==> token != "" && token[0] == 'h'
    ensures Starts(token, "port=") ==> token != "" && token[0] == 'p'
    ensures Starts(token, "type=") ==> |token| > 1 && token[..2] == "ty" && RecordOf(token) == []
    ensures Starts(token, "name=") ==> token != "" && token[0] == 'n'
    ensures Starts(token, "action=") ==> token != "" && token[0] == 'a'
    ensures RecordOf(token) != [] ==> |token| > 1 && token[..2] == "tx"
  {
    hide EqualsAt, Decode;
    if Starts(token, "type=") {
      assert token[..2] == "type="[..2] == "ty" && token[1] == 'y';
    }
    if Starts(token, "txt.") {
      assert token[..2] == "txt."[..2] == "tx" && token[1] == 'x';
    }
  }

  /** The device a token list describes: the last value of each field, and its records in order. */
  function Described(tokens: seq<string>): Device {
    Device(Decode(LastRaw(tokens, "host=")), Strtoul(LastRaw(tokens, "port=")) % 65536,
           Decode(LastRaw(tokens, "type=")), Decode(LastRaw(tokens, "name=")), Decode(LastRaw(tokens, "action=")),
           RecordsOf(tokens))
  }

  lemma DescribedNext(init: seq<string>, last: string)
    ensures Step(Described(init), last) == Described(init + [last])
  {
    hide Step, LastRaw, Starts, Decode, RecordOf, RecordsOf, Strtoul;
    StepIs(Described(init), last);
    OnlyOne(last);
    LastOne(init, last, "host=");
    LastOne(init, last, "port=");
    LastOne(init, last, "type=");
    LastOne(init, last, "name=");
    LastOne(init, last, "action=");
    RecordsNext(init, last);
  }

  lemma RecordsNext(init: seq<string>, last: string)
    ensures RecordsOf(init + [last]) == RecordsOf(init) + RecordOf(last)
  {
    assert (init + [last])[..|init|] == init;
  }

  /** Parsing reads exactly that device: other tokens are ignored, and a port that is not given is 0. */
  lemma {:induction false} ParsesTokens(tokens: seq<string>)
    ensures Fold(Step, NO_DEVICE, tokens) == Described(tokens)
  {
    hide Step, Described;
    if tokens == [] {
      NothingDescribed();
    } else {
      var init, last := tokens[..|tokens| - 1], tokens[|tokens| - 1];
      assert tokens == init + [last];
      ParsesTokens(init);
      DescribedNext(init, last);
    }
  }

  lemma NothingDescribed()
    ensures Described([]) == NO_DEVICE
  {
    assert DigitRun("") == "" && NumberOf("") == 0;
  }

  // ------------------------------------------------------------------ round trip

  /** What becomes of a record: a key is cut at its first '=', the rest joins the value. */
  function Cut(t: Txt): Txt {
    var k := EqualsAt(t.key);
    if k < 0 then t else Txt(t.key[..k], t.key[k + 1..] + "=" + t.value)
  }

  function CutAll(txt: seq<Txt>): seq<Txt> {
    seq(|txt|, i requires 0 <= i < |txt| => Cut(txt[i]))
  }

  lemma {:induction false} EncodeAppend(a: string, b: string)
    ensures Encode(a + b) == Encode(a) + Encode(b)
  {
    if a == "" {
      assert a + b == b;
    } else {
      assert (a + b)[0] == a[0] && (a + b)[1..] == a[1..] + b;
      EncodeAppend(a[1..], b);
    }
  }

  lemma EncodeEquals()
    ensures Encode("=") == "="
  {
    assert "="[1..] == "" && Escape('=') == "=";
  }

  lemma TxtKeyIs(key: string)
    requires '=' !in key
    ensures var k := "txt." + Encode(key);
            '=' !in k && IsTxtKey(k) && k[4..] == Encode(key)
            && k != "host" && k != "port" && k != "type" && k != "name" && k != "action"
  {
    EncodedIsClean(key);
    var k := "txt." + Encode(key);
    assert k[0] == 't' && k[3] == '.';
  }

  /** A key with '=' is printed as its first part, and the rest joins the value. */
  lemma TxtArgCut(t: Txt)
    ensures '=' !in Cut(t).key
    ensures TxtArg(t) == ("txt." + Encode(Cut(t).key)) + "=" + Encode(Cut(t).value)
  {
    hide EqualsAt, Encode;
    var k := EqualsAt(t.key);
    if k >= 0 {
      var key, tail := t.key[..k], t.key[k + 1..];
      assert t.key == key + ("=" + tail);
      EncodeAppend(key, "=" + tail);
      EncodeAppend("=", tail);
      EncodeEquals();
      EncodeAppend(tail + "=", t.value);
      EncodeAppend(tail, "=");
      assert Encode(t.key) == Encode(key) + ("=" + Encode(tail));
      assert Encode(Cut(t).value) == (Encode(tail) + "=") + Encode(t.value);
      assert TxtArg(t) == ("txt." + Encode(key)) + "=" + ((Encode(tail) + "=") + Encode(t.value));
    }
  }

  /** A record printed and parsed, whatever its key. */
  lemma TxtStep(d: Device, t: Txt)
    ensures Step(d, TxtArg(t)) == d.(txt := d.txt + [Cut(t)])
  {
    hide EqualsAt, Encode, Decode, IsTxtKey, Cut, TxtArg, Strtoul;
    var key, value := "txt." + Encode(Cut(t).key), Encode(Cut(t).value);
    TxtArgCut(t);
    TxtKeyIs(Cut(t).key);
    KeyStep(d, key, value);
    DecodeInvertsEncode(Cut(t).key);
    DecodeInvertsEncode(Cut(t).value);
  }

  lemma {:induction false} TxtSteps(d: Device, txt: seq<Txt>)
    ensures Fold(Step, d, TxtArgs(txt)) == d.(txt := d.txt + CutAll(txt))
  {
    hide Step, Cut, TxtArg;
    if txt == [] {
      assert d.txt + CutAll(txt) == d.txt;
    } else {
      var init, last := txt[..|txt| - 1], txt[|txt| - 1];
      TxtSteps(d, init);
      TxtStep(Fold(Step, d, TxtArgs(init)), last);
      assert TxtArgs(txt)[..|txt| - 1] == TxtArgs(init);
      assert d.txt + CutAll(init) + [Cut(last)] == d.txt + CutAll(txt);
    }
  }

  lemma KeyStep(d: Device, key: string, value: string)
    requires '=' !in key
    ensures var token := key + "=" + value;
            EqualsAt(token) == |key| && token[..|key|] == key && token[|key| + 1..] == value
  {
    EqualsAfterKey(key, value);
  }

  lemma PortReads(port: uint16)
    ensures Strtoul(Decimal(port)) == port
  {
    hide Decimal, NumberOf, DigitRun;
    var s := Decimal(port);
    assert s[0] in s;
    RunsDigits(s, "");
    assert s + "" == s;
    NumberOfDecimal(port);
  }

  lemma GivenStep(d: Device, key: string, value: string)
    requires '=' !in key
    ensures Fold(Step, d, Given(key, value)) == if value == "" then d else Step(d, key + "=" + Encode(value))
  {
    hide Step, Encode;
    assert [key + "=" + Encode(value)][..0] == [];
    assert Fold(Step, d, []) == d;
  }

  lemma ValueStep(d: Device, key: string, value: string)
    requires key == "host" || key == "type" || key == "name" || key == "action"
    ensures Step(d, key + "=" + Encode(value)) ==
            if key == "host" then d.(host := value)
            else if key == "type" then d.(kind := value)
            else if key == "name" then d.(name := value)
            else d.(action := value)
  {
    hide EqualsAt, Encode, Decode;
    KeyStep(d, key, Encode(value));
    DecodeInvertsEncode(value);
  }

  lemma HeadSteps(d: Device)
    ensures Fold(Step, NO_DEVICE, HeadArgs(d)) == d.(txt := [])
  {
    hide Step, Fold, Encode, Decimal, Given, Strtoul;
    assert "host" + "=" == "host=";
    var host, port := ["host=" + Encode(d.host)], ["port=" + Decimal(d.port)];
    var d1 := Fold(Step, NO_DEVICE, host);
    FoldOne(Step, NO_DEVICE, "host=" + Encode(d.host));
    ValueStep(NO_DEVICE, "host", d.host);
    assert d1 == NO_DEVICE.(host := d.host);
    var d2 := Fold(Step, d1, port);
    FoldOne(Step, d1, "port=" + Decimal(d.port));
    PortStep(d1, d.port);
    var d3 := Fold(Step, d2, Given("type", d.kind));
    GivenStep(d2, "type", d.kind);
    ValueStep(d2, "type", d.kind);
    var d4 := Fold(Step, d3, Given("name", d.name));
    GivenStep(d3, "name", d.name);
    ValueStep(d3, "name", d.name);
    var d5 := Fold(Step, d4, Given("action", d.action));
    GivenStep(d4, "action", d.action);
    ValueStep(d4, "action", d.action);
    assert d5 == d.(txt := []);
    FoldAppend(Step, NO_DEVICE, host, port);
    FoldAppend(Step, NO_DEVICE, host + port, Given("type", d.kind));
    FoldAppend(Step, NO_DEVICE, host + port + Given("type", d.kind), Given("name", d.name));
    FoldAppend(Step, NO_DEVICE, host + port + Given("type", d.kind) + Given("name", d.name), Given("action", d.action));
  }

  lemma PortStep(d: Device, port: uint16)
    ensures Step(d, "port=" + Decimal(port)) == d.(port := port)
  {
    hide EqualsAt, Decimal, Strtoul;
    assert "port=" + Decimal(port) == "port" + "=" + Decimal(port);
    KeyStep(d, "port", Decimal(port));
    PortReads(port);
  }

  /**
   Parsing inverts printing, exactly: a device comes back unchanged if and only if no TXT key contains
   '='; otherwise each such key is cut at its first '=' and the rest joins the value.
   */
  lemma LaunchRoundTrip(d: Device, program: string)
    ensures var argv := [program] + (HeadArgs(d) + TxtArgs(d.txt));
            && Fold(Step, NO_DEVICE, argv[1..]) == d.(txt := CutAll(d.txt))
            && (Fold(Step, NO_DEVICE, argv[1..]) == d <==> forall t :: t in d.txt ==> '=' !in t.key)
  {
    hide HeadArgs, TxtArgs, Step;
    var argv := [program] + (HeadArgs(d) + TxtArgs(d.txt));
    assert argv[1..] == HeadArgs(d) + TxtArgs(d.txt);
    FoldAppend(Step, NO_DEVICE, HeadArgs(d), TxtArgs(d.txt));
    HeadSteps(d);
    TxtSteps(d.(txt := []), d.txt);
    assert [] + CutAll(d.txt) == CutAll(d.txt);
    CutChanges(d.txt);
  }

  lemma CutChanges(txt: seq<Txt>)
    ensures CutAll(txt) == txt <==> forall t :: t in txt ==> '=' !in t.key
  {
    hide EqualsAt;
    if forall t :: t in txt ==> '=' !in t.key {
      forall i | 0 <= i < |txt| ensures CutAll(txt)[i] == txt[i] {
        assert txt[i] in txt;
      }
    } else {
      var t :| t in txt && '=' in t.key;
      var i :| 0 <= i < |txt| && txt[i] == t;
      assert CutAll(txt)[i] == Cut(t) && |Cut(t).key| < |t.key|;
    }
  }

  /** A TXT key with '=' does not come back: the record a=b, c returns as a, b=c. */
  lemma KeyWithEqualsIsCut(d: Device, program: string)
    requires d.txt == [Txt("a=b", "c")]
    ensures Fold(Step, NO_DEVICE, ([program] + (HeadArgs(d) + TxtArgs(d.txt)))[1..]) == d.(txt := [Txt("a", "b=c")])
  {
    hide HeadArgs, TxtArgs, Step, EqualsAt;
    LaunchRoundTrip(d, program);
    var key := "a=b";
    assert key == "a" + "=" + "b";
    EqualsAfterKey("a", "b");
    assert key[..1] == "a" && key[2..] == "b" && "b" + "=" + "c" == "b=c";
    assert CutAll(d.txt) == [Cut(d.txt[0])];
  }
}
