/**
 The SMB mount parameters (optional/smb/SmbMount.cpp): a configuration printed as one parameter string,
 split into tokens by the file system host, and parsed back.
 */
module SmbMount {
  import opened Folds
  import opened PercentCode

  datatype SmbConfig = SmbConfig(server: string, share: string, user: string, password: string, domain: string,
      basePath: string)

  const NO_CONFIG := SmbConfig("", "", "", "", "", "")
  const FS_NAME := "campiello_smb"

  datatype Mount = Mount(config: SmbConfig, fuseArgs: seq<string>, ok: bool)

  // ------------------------------------------------------------------ printing

  function OptionArg(key: string, value: string): seq<string> {
    if value == "" then [] else [key + "=" + Encode(value)]
  }

  /** The tokens after the file system name; empty fields are left out, all but the server. */
  function OptionArgs(c: SmbConfig): seq<string> {
    ["server=" + Encode(c.server)] + OptionArg("share", c.share) + OptionArg("user", c.user)
    + OptionArg("password", c.password) + OptionArg("domain", c.domain) + OptionArg("path", c.basePath)
  }

  method AppendOption(s: string, key: string, value: string) returns (r: string)
    ensures r == s + Spaced(OptionArg(key, value))
  {
    r := s;
    if value != "" {
      var e := EncodeValue(value);
      r := r + " " + key + "=" + e;
      SpacedOne(key + "=" + e);
      assert r == s + (" " + (key + "=" + e));
    } else {
      assert s + "" == s;
    }
  }

  lemma SpacedOne(t: string)
    ensures Spaced([t]) == " " + t
  {
    assert [t][1..] == [] && Spaced([]) == "";
  }

  lemma {:induction false} SpacedAppend(a: seq<string>, b: seq<string>)
    ensures Spaced(a + b) == Spaced(a) + Spaced(b)
  {
    if a == [] {
      assert a + b == b;
    } else {
      assert (a + b)[0] == a[0] && (a + b)[1..] == a[1..] + b;
      SpacedAppend(a[1..], b);
    }
  }

  method BuildSmbMountParameters(c: SmbConfig) returns (s: string)
    ensures s == FS_NAME + Spaced(OptionArgs(c))
  {
    hide Encode, Spaced, OptionArg;
    s := FS_NAME;
    var server := EncodeValue(c.server);
    s := s + " server=" + server;
    var o1 := ["server=" + server];
    SpacedOne("server=" + server);
    assert " " + ("server=" + server) == " server=" + server;
    s := AppendOption(s, "share", c.share);
    SpacedAppend(o1, OptionArg("share", c.share));
    s := AppendOption(s, "user", c.user);
    SpacedAppend(o1 + OptionArg("share", c.share), OptionArg("user", c.user));
    s := AppendOption(s, "password", c.password);
    SpacedAppend(o1 + OptionArg("share", c.share) + OptionArg("user", c.user), OptionArg("password", c.password));
    s := AppendOption(s, "domain", c.domain);
    SpacedAppend(o1 + OptionArg("share", c.share) + OptionArg("user", c.user) + OptionArg("password", c.password),
        OptionArg("domain", c.domain));
    s := AppendOption(s, "path", c.basePath);
    SpacedAppend(o1 + OptionArg("share", c.share) + OptionArg("user", c.user) + OptionArg("password", c.password)
        + OptionArg("domain", c.domain),
                 OptionArg("path", c.basePath));
  }

  // ------------------------------------------------------------------ parsing

  /** The text before the first '=', or the whole token without one. */
  function KeyOf(token: string): string {
    if EqualsAt(token) < 0 then "" else token[..EqualsAt(token)]
  }

  function ValueOf(token: string): string {
    if EqualsAt(token) < 0 then "" else Decode(token[EqualsAt(token) + 1..])
  }

  /** One token: a known option sets its field, anything else is passed on. */
  function Step(m: Mount, token: string): Mount {
    if EqualsAt(token) < 0 then m.(fuseArgs := m.fuseArgs + [token])
    else
      var key, value := KeyOf(token), ValueOf(token);
      if key == "server" then m.(config := m.config.(server := value))
      else if key == "share" then m.(config := m.config.(share := value))
      else if key == "user" then m.(config := m.config.(user := value))
      else if key == "password" then m.(config := m.config.(password := value))
      else if key == "domain" then m.(config := m.config.(domain := value))
      else if key == "path" then m.(config := m.config.(basePath := value))
      else m.(fuseArgs := m.fuseArgs + [token])
  }

  function Or(a: string, b: string): string {
    if a == "" then b else a
  }

  /** Environment values stand in for fields not given. */
  function WithEnvironment(c: SmbConfig, env: SmbConfig): SmbConfig {
    SmbConfig(Or(c.server, env.server), Or(c.share, env.share), Or(c.user, env.user),
              Or(c.password, env.password), Or(c.domain, env.domain), Or(c.basePath, env.basePath))
  }

  /** The arguments after the program name. */
  function Rest(argv: seq<string>): seq<string> {
    if argv == [] then [] else argv[1..]
  }

  function Parsed(argv: seq<string>, env: SmbConfig): Mount {
    var m := Fold(Step, Mount(NO_CONFIG, if argv == [] then [] else [argv[0]], false), Rest(argv));
    var c := WithEnvironment(m.config, env);
    Mount(c, m.fuseArgs, c.server != "")
  }

  method FillFromEnvironment(config: SmbConfig, env: SmbConfig) returns (out: SmbConfig)
    ensures out == WithEnvironment(config, env)
  {
    out := config;
    if out.server == "" { out := out.(server := env.server); }
    if out.share == "" { out := out.(share := env.share); }
    if out.user == "" { out := out.(user := env.user); }
    if out.password == "" { out := out.(password := env.password); }
    if out.domain == "" { out := out.(domain := env.domain); }
    if out.basePath == "" { out := out.(basePath := env.basePath); }
  }

  /** `env` holds the values of the CAMPIELLO_SMB_ variables, empty where unset. */
  method ParseSmbMount(argv: seq<string>, env: SmbConfig) returns (out: Mount)
    ensures out == Parsed(argv, env)
  {
    hide EqualsAt, Decode, Fold;
    out := Mount(NO_CONFIG, [], false);
    if |argv| > 0 {
      out := out.(fuseArgs := out.fuseArgs + [argv[0]]);
    }
    ghost var start := out;
    assert start == Mount(NO_CONFIG, if argv == [] then [] else [argv[0]], false);
    var i := 1;
    assert Fold(Step, start, Rest(argv)[..0]) == start by { FoldNone(Step, start); }
    while i < |argv|
      invariant 1 <= i && i - 1 <= |Rest(argv)|
      invariant out == Fold(Step, start, Rest(argv)[..i - 1])
    {
      FoldNext(Step, start, Rest(argv), i - 1);
      var eq := EqualsAt(argv[i]);
      if eq < 0 {
        out := out.(fuseArgs := out.fuseArgs + [argv[i]]);
      } else {
        var key := argv[i][..eq];
        var value := DecodeValue(argv[i][eq + 1..]);
        if key == "server" { out := out.(config := out.config.(server := value)); }
        else if key == "share" { out := out.(config := out.config.(share := value)); }
        else if key == "user" { out := out.(config := out.config.(user := value)); }
        else if key == "password" { out := out.(config := out.config.(password := value)); }
        else if key == "domain" { out := out.(config := out.config.(domain := value)); }
        else if key == "path" { out := out.(config := out.config.(basePath := value)); }
        else { out := out.(fuseArgs := out.fuseArgs + [argv[i]]); }
      }
      i := i + 1;
    }
    assert Rest(argv)[..i - 1] == Rest(argv);
    assert out == Fold(Step, start, Rest(argv));
    var config := FillFromEnvironment(out.config, env);
    out := Mount(config, out.fuseArgs, config.server != "");
  }

  // ------------------------------------------------------------------ what a token list means

  /** The token is one of the options. */
  predicate IsOption(token: string) {
    || Starts(token, "server=") || Starts(token, "share=") || Starts(token, "user=")
    || Starts(token, "password=") || Starts(token, "domain=") || Starts(token, "path=")
  }

  /** The other tokens, in order. */
  function Others(tokens: seq<string>): seq<string> {
    if tokens == [] then []
    else
      var last := tokens[|tokens| - 1];
      Others(tokens[..|tokens| - 1]) + (if IsOption(last) then [] else [last])
  }

  /** The last value each option is given. */
  function Given(tokens: seq<string>): SmbConfig {
    SmbConfig(Decode(LastRaw(tokens, "server=")), Decode(LastRaw(tokens, "share=")),
              Decode(LastRaw(tokens, "user=")), Decode(LastRaw(tokens, "password=")),
              Decode(LastRaw(tokens, "domain=")), Decode(LastRaw(tokens, "path=")))
  }

  lemma StepIs(m: Mount, token: string)
    ensures Step(m, token) ==
            if Starts(token, "server=") then m.(config := m.config.(server := Decode(token[7..])))
            else if Starts(token, "share=") then m.(config := m.config.(share := Decode(token[6..])))
            else if Starts(token, "user=") then m.(config := m.config.(user := Decode(token[5..])))
            else if Starts(token, "password=") then m.(config := m.config.(password := Decode(token[9..])))
            else if Starts(token, "domain=") then m.(config := m.config.(domain := Decode(token[7..])))
            else if Starts(token, "path=") then m.(config := m.config.(basePath := Decode(token[5..])))
            else m.(fuseArgs := m.fuseArgs + [token])
  {
    hide EqualsAt, Decode, Starts;
    KeyIs(token, "server", "server=");
    KeyIs(token, "share", "share=");
    KeyIs(token, "user", "user=");
    KeyIs(token, "password", "password=");
    KeyIs(token, "domain", "domain=");
    KeyIs(token, "path", "path=");
  }

  lemma KeyIs(token: string, key: string, option: string)
    requires '=' !in key && key != "" && option == key + "="
    ensures Starts(token, option) <==> KeyOf(token) == key
    ensures Starts(token, option) ==> EqualsAt(token) == |key| && ValueOf(token) == Decode(token[|option|..])
  {
    hide EqualsAt, Decode, Starts;
    KeyStarts(token, key);
  }

  lemma OnlyOne(token: string)
    ensures Starts(token, "server=") || Starts(token, "share=") ==> token != "" && token[0] == 's'
    ensures Starts(token, "share=") ==> |token| > 1 && token[1] == 'h'
    ensures Starts(token, "server=") ==> |token| > 1 && token[1] == 'e'
    ensures Starts(token, "user=") ==> token != "" && token[0] == 'u'
    ensures Starts(token, "password=") || Starts(token, "path=") ==> |token| > 2 && token[0] == 'p'
    ensures Starts(token, "password=") ==> token[2] == 's'
    ensures Starts(token, "path=") ==> token[2] == 't'
    ensures Starts(token, "domain=") ==> token != "" && token[0] == 'd'
  {
  }

  lemma LastOne(init: seq<string>, last: string, prefix: string)
    ensures LastRaw(init + [last], prefix) == if Starts(last, prefix) then last[|prefix|..] else LastRaw(init, prefix)
  {
    assert (init + [last])[..|init|] == init;
  }

  lemma GivenNext(init: seq<string>, last: string, m: Mount)
    requires m.config == Given(init)
    ensures Step(m, last).config == Given(init + [last])
    ensures Step(m, last).fuseArgs == m.fuseArgs + (if IsOption(last) then [] else [last])
    ensures Step(m, last).ok == m.ok
  {
    hide Step, LastRaw, Starts, Decode;
    StepIs(m, last);
    OnlyOne(last);
    LastOne(init, last, "server=");
    LastOne(init, last, "share=");
    LastOne(init, last, "user=");
    LastOne(init, last, "password=");
    LastOne(init, last, "domain=");
    LastOne(init, last, "path=");
  }

  lemma NothingGiven()
    ensures Given([]) == NO_CONFIG && Others([]) == []
  {
  }

  lemma OthersNext(init: seq<string>, last: string)
    ensures Others(init + [last]) == Others(init) + (if IsOption(last) then [] else [last])
  {
    assert (init + [last])[..|init|] == init;
  }

  lemma {:induction false} StepsGive(start: Mount, tokens: seq<string>)
    requires start.config == NO_CONFIG
    ensures Fold(Step, start, tokens) == Mount(Given(tokens), start.fuseArgs + Others(tokens), start.ok)
  {
    hide Step, Given, Others, IsOption;
    NothingGiven();
    if tokens == [] {
      assert start.fuseArgs + [] == start.fuseArgs;
    } else {
      var init, last := tokens[..|tokens| - 1], tokens[|tokens| - 1];
      assert tokens == init + [last];
      StepsGive(start, init);
      GivenNext(init, last, Fold(Step, start, init));
      OthersNext(init, last);
      assert start.fuseArgs + Others(init) + (if IsOption(last) then [] else [last])
          == start.fuseArgs + (Others(init) + (if IsOption(last) then [] else [last]));
    }
  }

  /**
   What is mounted, told from the tokens: each field is the last value its option is given, or the
   environment's where that is empty; the program name and all other tokens are passed on in order; and a
   server is needed.
   */
  lemma ParsesTokens(argv: seq<string>, env: SmbConfig)
    ensures var m := Parsed(argv, env);
            var given := Given(if argv == [] then [] else argv[1..]);
            && m.config.server == (if given.server != "" then given.server else env.server)
            && m.config.share == (if given.share != "" then given.share else env.share)
            && m.config.user == (if given.user != "" then given.user else env.user)
            && m.config.password == (if given.password != "" then given.password else env.password)
            && m.config.domain == (if given.domain != "" then given.domain else env.domain)
            && m.config.basePath == (if given.basePath != "" then given.basePath else env.basePath)
            && m.fuseArgs == (if argv == [] then [] else [argv[0]] + Others(argv[1..]))
            && (m.ok <==> m.config.server != "")
  {
    hide Step, Given, Others, Fold;
    NothingGiven();
    StepsGive(Mount(NO_CONFIG, if argv == [] then [] else [argv[0]], false), Rest(argv));
  }

  /** The printed parameters: the file system's name, then the server and every other field that is not empty. */
  lemma ParametersAre(c: SmbConfig)
    ensures FS_NAME + Spaced(OptionArgs(c)) ==
            "campiello_smb" + " server=" + Encode(c.server)
            + (if c.share == "" then "" else " share=" + Encode(c.share))
            + (if c.user == "" then "" else " user=" + Encode(c.user))
            + (if c.password == "" then "" else " password=" + Encode(c.password))
            + (if c.domain == "" then "" else " domain=" + Encode(c.domain))
            + (if c.basePath == "" then "" else " path=" + Encode(c.basePath))
  {
    hide Encode, Spaced, OptionArg;
    var first := ["server=" + Encode(c.server)];
    SpacedOne(first[0]);
    var s := FS_NAME + Spaced(first);
    assert s == "campiello_smb" + " server=" + Encode(c.server);
    var two := first + OptionArg("share", c.share);
    SpacedOption(first, "share", c.share, " share=");
    var three := two + OptionArg("user", c.user);
    SpacedOption(two, "user", c.user, " user=");
    var four := three + OptionArg("password", c.password);
    SpacedOption(three, "password", c.password, " password=");
    SpacedOption(four, "domain", c.domain, " domain=");
    SpacedOption(four + OptionArg("domain", c.domain), "path", c.basePath, " path=");
  }

  lemma SpacedOption(before: seq<string>, key: string, value: string, option: string)
    requires option == " " + key + "="
    ensures FS_NAME + Spaced(before + OptionArg(key, value)) ==
            FS_NAME + Spaced(before) + if value == "" then "" else option + Encode(value)
  {
    hide Encode, Spaced;
    SpacedAppend(before, OptionArg(key, value));
    if value != "" {
      SpacedOne(key + "=" + Encode(value));
      assert " " + (key + "=" + Encode(value)) == option + Encode(value);
    } else {
      assert before + [] == before;
    }
  }

  // ------------------------------------------------------------------ round trip

  lemma OptionReads(key: string, value: string)
    requires '=' !in key
    ensures var t := key + "=" + Encode(value);
            EqualsAt(t) == |key| && KeyOf(t) == key && ValueOf(t) == value
  {
    var t := key + "=" + Encode(value);
    EqualsAfterKey(key, Encode(value));
    assert t[..|key|] == key && t[|key| + 1..] == Encode(value);
    DecodeInvertsEncode(value);
  }

  lemma OptionIsToken(key: string, value: string)
    requires Spaceless(key)
    ensures Spaceless(key + "=" + Encode(value)) && key + "=" + Encode(value) != ""
  {
    EncodedIsClean(value);
  }

  predicate AreTokens(tokens: seq<string>) {
    forall t :: t in tokens ==> t != "" && Spaceless(t)
  }

  lemma TokensAppend(a: seq<string>, b: seq<string>)
    requires AreTokens(a) && AreTokens(b)
    ensures AreTokens(a + b)
  {
    hide Spaceless;
  }

  predicate IsKey(key: string) {
    key == "server" || key == "share" || key == "user" || key == "password" || key == "domain" || key == "path"
  }

  /** The configuration with one field replaced. */
  function With(c: SmbConfig, key: string, value: string): SmbConfig {
    match key
    case "server" => c.(server := value)
    case "share" => c.(share := value)
    case "user" => c.(user := value)
    case "password" => c.(password := value)
    case "domain" => c.(domain := value)
    case _ => c.(basePath := value)
  }

  lemma StepSets(m: Mount, key: string, value: string)
    requires IsKey(key)
    ensures Step(m, key + "=" + Encode(value)) == m.(config := With(m.config, key, value))
  {
    hide Encode, EqualsAt, KeyOf, ValueOf;
    OptionReads(key, value);
  }

  lemma KeysAreClean(key: string)
    requires IsKey(key)
    ensures '=' !in key && Spaceless(key)
  {
  }

  /** An empty field is left out on printing and stays empty on parsing. */
  lemma OptionStep(m: Mount, key: string, value: string)
    requires IsKey(key) && With(m.config, key, "") == m.config
    ensures Fold(Step, m, OptionArg(key, value)) == m.(config := With(m.config, key, value))
    ensures AreTokens(OptionArg(key, value))
  {
    hide Encode, Step, Spaceless, IsKey, With;
    KeysAreClean(key);
    StepSets(m, key, value);
    OptionIsToken(key, value);
    FoldOne(Step, m, key + "=" + Encode(value));
    assert Fold(Step, m, []) == m by { FoldNone(Step, m); }
  }

  lemma OptionsParse(c: SmbConfig, m: Mount)
    requires m.config == NO_CONFIG
    ensures Fold(Step, m, OptionArgs(c)) == m.(config := c)
    ensures AreTokens(OptionArgs(c))
  {
    hide Encode, Spaceless, OptionArg, Step, Fold;
    var first := ["server" + "=" + Encode(c.server)];
    assert "server" + "=" == "server=";
    assert OptionArgs(c) == first + OptionArg("share", c.share) + OptionArg("user", c.user)
                          + OptionArg("password", c.password) + OptionArg("domain", c.domain)
                              + OptionArg("path", c.basePath);
    KeysAreClean("server");
    StepSets(m, "server", c.server);
    OptionIsToken("server", c.server);
    FoldOne(Step, m, first[0]);
    var c1 := NO_CONFIG.(server := c.server);
    OptionAdds(m, first, c1, "share", c.share);
    var t2, c2 := first + OptionArg("share", c.share), c1.(share := c.share);
    OptionAdds(m, t2, c2, "user", c.user);
    var t3, c3 := t2 + OptionArg("user", c.user), c2.(user := c.user);
    OptionAdds(m, t3, c3, "password", c.password);
    var t4, c4 := t3 + OptionArg("password", c.password), c3.(password := c.password);
    OptionAdds(m, t4, c4, "domain", c.domain);
    var t5, c5 := t4 + OptionArg("domain", c.domain), c4.(domain := c.domain);
    OptionAdds(m, t5, c5, "path", c.basePath);
  }

  /** One more printed field extends what has been parsed by that field. */
  lemma OptionAdds(m: Mount, tokens: seq<string>, c: SmbConfig, key: string, value: string)
    requires Fold(Step, m, tokens) == m.(config := c)
    requires AreTokens(tokens)
    requires IsKey(key) && With(c, key, "") == c
    ensures Fold(Step, m, tokens + OptionArg(key, value)) == m.(config := With(c, key, value))
    ensures AreTokens(tokens + OptionArg(key, value))
  {
    hide *;
    var n := m.(config := c);
    assert n.config == c && n.(config := With(c, key, value)) == m.(config := With(c, key, value));
    OptionStep(n, key, value);
    TokensAppend(tokens, OptionArg(key, value));
    FoldAppend(Step, m, tokens, OptionArg(key, value));
  }

  /** No environment value stands in for a field the configuration leaves empty. */
  predicate EnvironmentSilent(c: SmbConfig, env: SmbConfig) {
    && (c.server == "" ==> env.server == "") && (c.share == "" ==> env.share == "")
    && (c.user == "" ==> env.user == "") && (c.password == "" ==> env.password == "")
    && (c.domain == "" ==> env.domain == "") && (c.basePath == "" ==> env.basePath == "")
  }

  /**
   Printing, splitting at white space and parsing gives the same configuration back, for arbitrary
   strings in every field, exactly when the environment does not fill in an empty field; and the mount
   is accepted exactly when a server is then known.
   */
  lemma MountRoundTrip(c: SmbConfig, env: SmbConfig)
    ensures var argv := Tokens(FS_NAME + Spaced(OptionArgs(c)));
            && argv == [FS_NAME] + OptionArgs(c)
            && (Parsed(argv, env).config == c <==> EnvironmentSilent(c, env))
            && Parsed(argv, env).fuseArgs == [FS_NAME]
            && (Parsed(argv, env).ok <==> c.server != "" || env.server != "")
  {
    hide OptionArgs, Tokens, Spaced, Fold;
    var start := Mount(NO_CONFIG, [FS_NAME], false);
    OptionsParse(c, start);
    assert FS_NAME != "" && Spaceless(FS_NAME);
    TokensOfSpaced(FS_NAME, OptionArgs(c));
    assert ([FS_NAME] + OptionArgs(c))[1..] == OptionArgs(c);
  }

  /** A share in the environment turns a server-level mount into that share's. */
  lemma EnvironmentFillsIn(server: string, share: string)
    requires server != "" && share != ""
    ensures var c, env := NO_CONFIG.(server := server), NO_CONFIG.(share := share);
            var argv := Tokens(FS_NAME + Spaced(OptionArgs(c)));
            Parsed(argv, env).config == c.(share := share) != c
  {
    hide OptionArgs, Tokens, Spaced, Fold;
    var c, env := NO_CONFIG.(server := server), NO_CONFIG.(share := share);
    var start := Mount(NO_CONFIG, [FS_NAME], false);
    MountRoundTrip(c, env);
    OptionsParse(c, start);
    assert ([FS_NAME] + OptionArgs(c))[1..] == OptionArgs(c);
  }
}
