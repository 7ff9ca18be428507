/** The option grammars of the `app-server` recognisers, as languages (crates/shim/src/lib.rs:303-355 and 454-480): which
    argument lists they read, and what they read from them. */
module ArgumentGrammar {
  import opened Sequences
  import opened AppServerArguments

  /** An option with its value in the next argument, or an argument that stands on its own. */
  predicate IsSetting(grammar: Grammar, setting: Setting) {
    if setting.Pair? then TakesNext(grammar, setting.name)
    else !TakesNext(grammar, setting.text) && Standalone(grammar, setting.text)
  }

  predicate AreSettings(grammar: Grammar, settings: seq<Setting>) {
    forall setting <- settings :: IsSetting(grammar, setting)
  }

  /** The arguments of one setting. */
  function Words(setting: Setting): seq<Argument> {
    if setting.Pair? then [Unicode(setting.name), setting.value] else [Unicode(setting.text)]
  }

  function Spelled(settings: seq<Setting>): seq<Argument> {
    if settings == [] then [] else Words(settings[0]) + Spelled(settings[1..])
  }

  // ----- The options of the Host Runtime -----

  /** Where reading stops: at the end, or at an argument that is not Unicode. */
  predicate Stops(arguments: seq<Argument>) {
    arguments == [] || arguments[0].Undecodable?
  }

  lemma SpelledFirst(settings: seq<Setting>, behind: seq<Argument>)
    requires settings != []
    ensures Spelled(settings) + behind == Words(settings[0]) + (Spelled(settings[1..]) + behind)
    ensures |Spelled(settings)| == |Words(settings[0])| + |Spelled(settings[1..])|
    ensures settings == [settings[0]] + settings[1..]
  {
    hide Words;
    var first, rest := Words(settings[0]), Spelled(settings[1..]);
    assert (first + rest) + behind == first + (rest + behind);
  }

  lemma SettingsOfFirst(setting: Setting, behind: seq<Argument>)
    requires IsSetting(HOST_OPTIONS, setting)
    ensures Settings(Words(setting) + behind) == Before([setting], Settings(behind))
  {
    hide Settings, Before, TakesNext, Standalone, HOST_OPTIONS;
    if setting.Pair? {
      SettingsOfPair(Unicode(setting.name), setting.value, behind);
    } else {
      SettingsOfWord(Unicode(setting.text), behind);
    }
  }

  lemma LaterAreSettings(grammar: Grammar, settings: seq<Setting>)
    requires AreSettings(grammar, settings) && settings != []
    ensures IsSetting(grammar, settings[0]) && AreSettings(grammar, settings[1..])
  {
    hide IsSetting;
    assert settings[0] in settings && forall setting <- settings[1..] :: setting in settings;
  }

  lemma BeforeOne(first: Setting, later: seq<Setting>, unread: seq<Argument>)
    ensures Before([first], Some((later, unread))) == Some(([first] + later, unread))
  {
  }

  lemma {:induction false} SpelledIsRead(settings: seq<Setting>, unread: seq<Argument>)
    requires AreSettings(HOST_OPTIONS, settings) && Stops(unread)
    ensures Settings(Spelled(settings) + unread) == Some((settings, unread))
  {
    if settings == [] {
      hide Standalone, HOST_OPTIONS;
      assert Spelled(settings) + unread == unread;
    } else {
      hide *;
      LaterAreSettings(HOST_OPTIONS, settings);
      SpelledIsRead(settings[1..], unread);
      SpelledFirst(settings, unread);
      SettingsOfFirst(settings[0], Spelled(settings[1..]) + unread);
      BeforeOne(settings[0], settings[1..], unread);
    }
  }

  lemma {:induction false} ReadWasSpelled(arguments: seq<Argument>)
    requires Settings(arguments).Some?
    ensures var (settings, unread) := Settings(arguments).value;
            AreSettings(HOST_OPTIONS, settings) && Stops(unread) && arguments == Spelled(settings) + unread
    decreases |arguments|
  {
    hide TakesNext, Standalone, HOST_OPTIONS, Settings;
    SettingsStep(arguments);
    SettingsHead(arguments);
    SettingsEnd(arguments);
    var (settings, unread) := Settings(arguments).value;
    if settings != [] {
      FirstTaken(arguments);
      var first, step := settings[0], if settings[0].Pair? then 2 else 1;
      ReadWasSpelled(arguments[step..]);
      assert settings == [first] + settings[1..];
      if first.Pair? {
        assert arguments == [Unicode(first.name), first.value] + arguments[2..];
      } else {
        assert arguments == [Unicode(first.text)] + arguments[1..];
      }
    }
  }

  lemma SettingsEnd(arguments: seq<Argument>)
    ensures Settings(arguments).Some? && Settings(arguments).value.0 == [] ==> Stops(arguments)
  {
    hide TakesNext, Standalone, HOST_OPTIONS;
  }

  /** The Host Runtime's grammar reads exactly the lists that spell out settings, up to a first argument that is not
      Unicode, and reads just these settings from them. */
  lemma SettingsExactly(arguments: seq<Argument>, settings: seq<Setting>, unread: seq<Argument>)
    ensures Settings(arguments) == Some((settings, unread))
            <==> AreSettings(HOST_OPTIONS, settings) && Stops(unread) && arguments == Spelled(settings) + unread
  {
    hide *;
    if Settings(arguments) == Some((settings, unread)) {
      ReadWasSpelled(arguments);
    }
    if AreSettings(HOST_OPTIONS, settings) && Stops(unread) && arguments == Spelled(settings) + unread {
      SpelledIsRead(settings, unread);
    }
  }

  // ----- Finding the subcommand -----

  /** Global settings, none of which is the subcommand itself; their values may be any text. */
  predicate AreGlobal(settings: seq<Setting>) {
    forall setting <- settings ::
      IsSetting(GLOBAL_OPTIONS, setting) && (if setting.Pair? then setting.name else setting.text) != APP_SERVER
  }

  /** The list is global settings spelled out, the subcommand, and whatever follows. */
  ghost predicate StartsWith(arguments: seq<Argument>, settings: seq<Setting>, behind: seq<Argument>) {
    AreGlobal(settings) && arguments == Spelled(settings) + [Unicode(APP_SERVER)] + behind
  }

  lemma IndexOfFirst(setting: Setting, behind: seq<Argument>)
    requires IsSetting(GLOBAL_OPTIONS, setting) && (if setting.Pair? then setting.name else setting.text) != APP_SERVER
    ensures AppServerIndex(Words(setting) + behind) == Later(AppServerIndex(behind), |Words(setting)|)
  {
    hide TakesNext, Standalone, GLOBAL_OPTIONS, APP_SERVER;
    var whole := Words(setting) + behind;
    assert whole[|Words(setting)|..] == behind;
  }

  lemma LaterAreGlobal(settings: seq<Setting>)
    requires AreGlobal(settings) && settings != []
    ensures IsSetting(GLOBAL_OPTIONS, settings[0]) && AreGlobal(settings[1..])
    ensures (if settings[0].Pair? then settings[0].name else settings[0].text) != APP_SERVER
  {
    hide IsSetting, APP_SERVER;
    assert settings[0] in settings && forall setting <- settings[1..] :: setting in settings;
  }

  lemma SubcommandAtOnce(behind: seq<Argument>)
    ensures AppServerIndex([Unicode(APP_SERVER)] + behind) == Some(0)
  {
    hide APP_SERVER, GLOBAL_OPTIONS;
  }

  lemma {:induction false} SubcommandIsFound(settings: seq<Setting>, behind: seq<Argument>)
    requires AreGlobal(settings)
    ensures AppServerIndex(Spelled(settings) + [Unicode(APP_SERVER)] + behind) == Some(|Spelled(settings)|)
  {
    hide AppServerIndex, AreGlobal, IsSetting, APP_SERVER, GLOBAL_OPTIONS;
    var tail := [Unicode(APP_SERVER)] + behind;
    assert Spelled(settings) + [Unicode(APP_SERVER)] + behind == Spelled(settings) + tail;
    if settings == [] {
      SubcommandAtOnce(behind);
      assert Spelled(settings) + tail == tail;
    } else {
      hide Spelled, Words;
      LaterAreGlobal(settings);
      SubcommandIsFound(settings[1..], behind);
      assert Spelled(settings[1..]) + [Unicode(APP_SERVER)] + behind == Spelled(settings[1..]) + tail;
      SpelledFirst(settings, tail);
      IndexOfFirst(settings[0], Spelled(settings[1..]) + tail);
    }
  }

  /** The first setting of a list in which the subcommand is found, unless it comes at once. */
  lemma FoundBehindFirst(arguments: seq<Argument>) returns (first: Setting, rest: seq<Argument>)
    requires AppServerIndex(arguments).Some? && arguments[0] != Unicode(APP_SERVER)
    ensures arguments == Words(first) + rest && AppServerIndex(rest).Some?
    ensures AppServerIndex(arguments).value == |Words(first)| + AppServerIndex(rest).value
    ensures IsSetting(GLOBAL_OPTIONS, first) && (if first.Pair? then first.name else first.text) != APP_SERVER
  {
    hide TakesNext, Standalone, GLOBAL_OPTIONS, APP_SERVER;
    var text := arguments[0].text;
    if TakesNext(GLOBAL_OPTIONS, text) {
      first, rest := Pair(text, arguments[1]), arguments[2..];
    } else {
      first, rest := Word(text), arguments[1..];
    }
  }

  lemma OneMoreGlobal(first: Setting, later: seq<Setting>)
    requires AreGlobal(later)
    requires IsSetting(GLOBAL_OPTIONS, first) && (if first.Pair? then first.name else first.text) != APP_SERVER
    ensures AreGlobal([first] + later)
  {
    hide IsSetting, APP_SERVER;
  }

  lemma {:induction false} FoundWasSpelled(arguments: seq<Argument>) returns (settings: seq<Setting>, behind: seq<Argument>)
    requires AppServerIndex(arguments).Some?
    ensures StartsWith(arguments, settings, behind) && |Spelled(settings)| == AppServerIndex(arguments).value
    decreases |arguments|
  {
    hide AppServerIndex, AreGlobal, IsSetting, APP_SERVER, GLOBAL_OPTIONS;
    if arguments[0] == Unicode(APP_SERVER) {
      settings, behind := [], arguments[1..];
      assert arguments == [arguments[0]] + behind;
      SubcommandAtOnce(behind);
      NoneIsGlobal();
      assert [] + [arguments[0]] + behind == arguments;
    } else {
      var first, rest := FoundBehindFirst(arguments);
      var later;
      later, behind := FoundWasSpelled(rest);
      settings := [first] + later;
      OneMoreGlobal(first, later);
      assert settings[1..] == later;
      var tail := [Unicode(APP_SERVER)] + behind;
      SpelledFirst(settings, tail);
      hide Spelled, Words;
      assert Spelled(later) + [Unicode(APP_SERVER)] + behind == Spelled(later) + tail;
      assert Spelled(settings) + tail == Spelled(settings) + [Unicode(APP_SERVER)] + behind;
    }
  }

  lemma NoneIsGlobal()
    ensures AreGlobal([])
  {
  }

  /** The subcommand is found exactly behind global settings: an argument that merely reads like it, behind anything
      else or as the value of an option, is not taken for it. */
  lemma AppServerIndexExactly(arguments: seq<Argument>, index: nat)
    ensures AppServerIndex(arguments) == Some(index)
            <==> exists settings, behind :: StartsWith(arguments, settings, behind) && |Spelled(settings)| == index
  {
    hide AppServerIndex, AreGlobal, Spelled, APP_SERVER;
    if AppServerIndex(arguments) == Some(index) {
      var settings, behind := FoundWasSpelled(arguments);
    }
    if settings, behind :| StartsWith(arguments, settings, behind) && |Spelled(settings)| == index {
      SubcommandIsFound(settings, behind);
    }
  }

  // ----- The options by name -----

  /** Global options of the Codex CLI that take a value. */
  function GlobalValueNames(): seq<string> {
    ["-c", "--config", "--enable", "--disable", "--remote", "--remote-auth-token-env", "-m", "--model",
     "--local-provider", "-p", "--profile", "-s", "--sandbox", "-C", "--cd"]
  }

  /** Options of the app server that take a value. */
  function HostValueNames(): seq<string> {
    ["-c", "--config", "--enable", "--disable", "--listen", "--ws-auth", "--ws-token-file", "--ws-token-sha256",
     "--ws-shared-secret-file", "--ws-issuer", "--ws-audience", "--ws-max-clock-skew-seconds"]
  }

  lemma GlobalNameIsOption(k: nat)
    requires k < |GlobalValueNames()|
    ensures TakesNext(GLOBAL_OPTIONS, GlobalValueNames()[k]) && GlobalValueNames()[k] != APP_SERVER
  {
    assert GlobalValueNames()[k] == GLOBAL_OPTIONS.values[k];
  }

  lemma HostNameIsOption(k: nat)
    requires k < |HostValueNames()|
    ensures TakesNext(HOST_OPTIONS, HostValueNames()[k])
  {
    assert HostValueNames()[k] == HOST_OPTIONS.values[k];
  }

  /** Behind any global option with any value, even one that reads like the subcommand, the subcommand is found; and every
      app-server option is read with any value. */
  lemma EveryOptionIsKnown(k: nat, value: Argument)
    ensures k < |GlobalValueNames()| ==>
              AppServerIndex([Unicode(GlobalValueNames()[k]), value, Unicode(APP_SERVER)]) == Some(2)
    ensures k < |HostValueNames()| ==>
              Settings([Unicode(HostValueNames()[k]), value]) == Some(([Pair(HostValueNames()[k], value)], []))
  {
    if k < |GlobalValueNames()| {
      GlobalNameIsOption(k);
      hide *;
      var setting := Pair(GlobalValueNames()[k], value);
      OneIsGlobal(setting);
      SpelledPair(GlobalValueNames()[k], value);
      SubcommandIsFound([setting], []);
      assert [Unicode(GlobalValueNames()[k]), value] + [Unicode(APP_SERVER)] + []
          == [Unicode(GlobalValueNames()[k]), value, Unicode(APP_SERVER)];
    }
    if k < |HostValueNames()| {
      HostNameIsOption(k);
      hide *;
      SpelledPair(HostValueNames()[k], value);
      OneIsSetting(Pair(HostValueNames()[k], value));
      SpelledIsRead([Pair(HostValueNames()[k], value)], []);
      assert [Unicode(HostValueNames()[k]), value] + [] == [Unicode(HostValueNames()[k]), value];
    }
  }

  /** A value may also stand behind an equals sign, in any grammar. */
  lemma InlineValueStands(grammar: Grammar, option: string, value: string)
    requires TakesNext(grammar, option)
    ensures Standalone(grammar, option + "=" + value)
  {
    assert option + "=" <= option + "=" + value;
  }

  /** Options that stand alone. */
  lemma FlagsStand()
    ensures forall flag <- ["--strict-config", "--oss", "--dangerously-bypass-approvals-and-sandbox",
                            "--dangerously-bypass-hook-trust"] :: Standalone(GLOBAL_OPTIONS, flag)
    ensures forall flag <- ["--strict-config", "--stdio", "--analytics-default-enabled"] ::
              Standalone(HOST_OPTIONS, flag)
  {
    assert GLOBAL_OPTIONS.flags == ["--strict-config", "--oss", "--dangerously-bypass-approvals-and-sandbox",
                                    "--dangerously-bypass-hook-trust"];
    assert HOST_OPTIONS.flags == ["--strict-config", "--stdio", "--analytics-default-enabled"];
  }

  lemma OneIsGlobal(setting: Setting)
    requires setting.Pair? && TakesNext(GLOBAL_OPTIONS, setting.name) && setting.name != APP_SERVER
    ensures AreGlobal([setting])
  {
    hide TakesNext, GLOBAL_OPTIONS, APP_SERVER;
  }

  lemma OneIsSetting(setting: Setting)
    requires setting.Pair? && TakesNext(HOST_OPTIONS, setting.name)
    ensures AreSettings(HOST_OPTIONS, [setting]) && Stops([])
  {
    hide TakesNext, HOST_OPTIONS;
  }

  lemma SpelledPair(name: string, value: Argument)
    ensures Spelled([Pair(name, value)]) == [Unicode(name), value]
  {
    assert Spelled([]) == [];
    assert [Pair(name, value)][1..] == [];
  }
}
