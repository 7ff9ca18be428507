/** Recognising and rewriting `app-server` invocations (crates/shim/src/lib.rs:303-355, 454-539 and 753-781). */
module AppServerArguments {
  import opened Sequences

  /** A command-line argument: Unicode text, or text up to the first bytes that are not Unicode, those bytes, and what
      is shown for the rest. */
  datatype Argument = Unicode(text: string) | Undecodable(before: string, bytes: seq<nat>, behind: string)

  const REPLACEMENT := '\U{FFFD}'

  function Shown(argument: Argument): string {
    if argument.Unicode? then argument.text else argument.before + [REPLACEMENT] + argument.behind
  }

  const APP_SERVER := "app-server"
  const LISTEN := "--listen"
  const LISTEN_PREFIX := "--listen="
  const STDIO := "--stdio"
  const UNIX_SCHEME := "unix://"

  // ----- Option grammars -----

  /** Options that take a value, behind an equals sign or as the next argument, and options that take none. */
  datatype Grammar = Grammar(values: seq<string>, flags: seq<string>)

  const GLOBAL_OPTIONS := Grammar(
    ["-c", "--config", "--enable", "--disable", "--remote", "--remote-auth-token-env", "-m", "--model",
     "--local-provider", "-p", "--profile", "-s", "--sandbox", "-C", "--cd"],
    ["--strict-config", "--oss", "--dangerously-bypass-approvals-and-sandbox", "--dangerously-bypass-hook-trust"])

  const HOST_OPTIONS := Grammar(
    ["-c", "--config", "--enable", "--disable", "--listen", "--ws-auth", "--ws-token-file", "--ws-token-sha256",
     "--ws-shared-secret-file", "--ws-issuer", "--ws-audience", "--ws-max-clock-skew-seconds"],
    ["--strict-config", "--stdio", "--analytics-default-enabled"])

  const LISTENER_OPTIONS := Grammar(
    ["-c", "--config", "--enable", "--disable", "--ws-auth", "--ws-token-file", "--ws-token-sha256",
     "--ws-shared-secret-file", "--ws-issuer", "--ws-audience", "--ws-max-clock-skew-seconds"],
    ["--strict-config", "--analytics-default-enabled"])

  /** Options whose value is the next argument. */
  predicate TakesNext(grammar: Grammar, text: string) {
    text in grammar.values
  }

  predicate Inline(options: seq<string>, text: string) {
    exists option <- options :: option + "=" <= text
  }

  predicate Standalone(grammar: Grammar, text: string) {
    Inline(grammar.values, text) || text in grammar.flags
  }

  function StripPrefix(text: string, prefix: string): Option<string> {
    if prefix <= text then Some(text[|prefix|..]) else None
  }

  /** The arguments from position `index` on. */
  function From<T>(s: seq<T>, index: nat): (rest: seq<T>)
    ensures |rest| == if index < |s| then |s| - index else 0
  {
    if index < |s| then s[index..] else []
  }

  // ----- Finding the subcommand -----

  function AppServerIndex(arguments: seq<Argument>): (index: Option<nat>)
    ensures index.Some? ==> index.value < |arguments| && arguments[index.value] == Unicode(APP_SERVER)
  {
    if arguments == [] || arguments[0].Undecodable? then None
    else
      var text := arguments[0].text;
      if text == APP_SERVER then Some(0)
      else if TakesNext(GLOBAL_OPTIONS, text) then
        if |arguments| == 1 then None else Later(AppServerIndex(arguments[2..]), 2)
      else if Standalone(GLOBAL_OPTIONS, text) then Later(AppServerIndex(arguments[1..]), 1)
      else None
  }

  function Later(index: Option<nat>, offset: nat): Option<nat> {
    if index.None? then None else Some(index.value + offset)
  }

  method AppServerSubcommandIndex(arguments: seq<Argument>) returns (found: Option<nat>)
    ensures found == AppServerIndex(arguments)
  {
    hide TakesNext, Standalone, GLOBAL_OPTIONS, APP_SERVER, AppServerIndex;
    var index := 0;
    ghost var expected := AppServerIndex(arguments);
    assert arguments[0..] == arguments;
    while index < |arguments| && arguments[index].Unicode?
      invariant index <= |arguments|
      invariant expected == Later(AppServerIndex(arguments[index..]), index)
      decreases |arguments| - index
    {
      var argument := arguments[index].text;
      AppServerSteps(arguments, index);
      if argument == APP_SERVER {
        return Some(index);
      }
      if TakesNext(GLOBAL_OPTIONS, argument) {
        if index + 1 >= |arguments| {
          return None;
        }
        index := index + 2;
        continue;
      }
      if Standalone(GLOBAL_OPTIONS, argument) {
        index := index + 1;
        continue;
      }
      return None;
    }
    AppServerSteps(arguments, index);
    found := None;
  }

  lemma AppServerSteps(arguments: seq<Argument>, index: nat)
    requires index <= |arguments|
    ensures index == |arguments| || arguments[index].Undecodable? ==> AppServerIndex(arguments[index..]) == None
    ensures index < |arguments| && arguments[index].Unicode? ==>
              var text := arguments[index].text;
              AppServerIndex(arguments[index..])
              == if text == APP_SERVER then Some(0)
                 else if TakesNext(GLOBAL_OPTIONS, text) then
                   if index + 1 == |arguments| then None else Later(AppServerIndex(arguments[index + 2..]), 2)
                 else if Standalone(GLOBAL_OPTIONS, text) then Later(AppServerIndex(arguments[index + 1..]), 1)
                 else None
  {
    hide TakesNext, Standalone, GLOBAL_OPTIONS, APP_SERVER;
    if index < |arguments| {
      assert arguments[index..][1..] == arguments[index + 1..];
      assert index + 1 < |arguments| ==> arguments[index..][2..] == arguments[index + 2..];
    }
  }

  // ----- The options of the Host Runtime -----

  datatype Setting = Word(text: string) | Pair(name: string, value: Argument)

  /** The settings the Host Runtime's grammar reads, and the arguments it leaves unread because the first of them is
      not Unicode. `None` where it refuses the arguments. */
  function Settings(arguments: seq<Argument>): Option<(seq<Setting>, seq<Argument>)> {
    if arguments == [] || arguments[0].Undecodable? then Some(([], arguments))
    else
      var text := arguments[0].text;
      if TakesNext(HOST_OPTIONS, text) then
        if |arguments| == 1 then None else Before([Pair(text, arguments[1])], Settings(arguments[2..]))
      else if Standalone(HOST_OPTIONS, text) then Before([Word(text)], Settings(arguments[1..]))
      else None
  }

  function Before(settings: seq<Setting>, later: Option<(seq<Setting>, seq<Argument>)>)
    : Option<(seq<Setting>, seq<Argument>)>
  {
    if later.None? then None else Some((settings + later.value.0, later.value.1))
  }

  /** The settings of a whole invocation. */
  function HostSettings(arguments: seq<Argument>): Option<(seq<Setting>, seq<Argument>)> {
    var index := AppServerIndex(arguments);
    if index.None? then None else Settings(arguments[index.value + 1..])
  }

  /** The loop over the arguments behind the subcommand. */
  method AcceptsHostOptions(arguments: seq<Argument>, start: nat) returns (accepted: bool)
    requires start <= |arguments|
    ensures accepted <==> Settings(arguments[start..]).Some?
  {
    hide TakesNext, Standalone, HOST_OPTIONS;
    var index := start;
    ghost var expected := Settings(arguments[start..]).Some?;
    while index < |arguments| && arguments[index].Unicode?
      invariant index <= |arguments|
      invariant Settings(arguments[index..]).Some? == expected
      decreases |arguments| - index
    {
      var argument := arguments[index].text;
      if TakesNext(HOST_OPTIONS, argument) {
        if index + 1 >= |arguments| {
          return false;
        }
        assert arguments[index..][2..] == arguments[index + 2..];
        index := index + 2;
        continue;
      }
      if Standalone(HOST_OPTIONS, argument) {
        assert arguments[index..][1..] == arguments[index + 1..];
        index := index + 1;
        continue;
      }
      return false;
    }
    accepted := true;
  }

  // ----- The default remote listener -----

  predicate ListensOnDefault(arguments: seq<Argument>, saw: bool) {
    if arguments == [] || arguments[0].Undecodable? then saw
    else
      var text := arguments[0].text;
      if text == STDIO then false
      else if text == LISTEN then
        |arguments| > 1 && !saw && arguments[1] == Unicode(UNIX_SCHEME) && ListensOnDefault(arguments[2..], true)
      else if StripPrefix(text, LISTEN_PREFIX).Some? then
        !saw && StripPrefix(text, LISTEN_PREFIX) == Some(UNIX_SCHEME) && ListensOnDefault(arguments[1..], true)
      else if TakesNext(LISTENER_OPTIONS, text) then
        |arguments| > 1 && ListensOnDefault(arguments[2..], saw)
      else
        Standalone(LISTENER_OPTIONS, text) && ListensOnDefault(arguments[1..], saw)
  }

  predicate IsDefaultListener(arguments: seq<Argument>) {
    var index := AppServerIndex(arguments);
    index.Some? && ListensOnDefault(arguments[index.value + 1..], false)
  }

  method IsDefaultRemoteUnixListener(arguments: seq<Argument>) returns (isDefault: bool)
    ensures isDefault <==> IsDefaultListener(arguments)
  {
    var appServer := AppServerSubcommandIndex(arguments);
    if appServer.None? {
      return false;
    }
    isDefault := AcceptsDefaultListener(arguments, appServer.value + 1);
  }

  method AcceptsDefaultListener(arguments: seq<Argument>, start: nat) returns (accepted: bool)
    requires start <= |arguments|
    ensures accepted <==> ListensOnDefault(arguments[start..], false)
  {
    hide *;
    var index := start;
    var sawDefaultListener := false;
    ghost var outcome := ListensOnDefault(arguments[start..], false);
    while index < |arguments| && arguments[index].Unicode?
      invariant index <= |arguments|
      invariant outcome == ListensOnDefault(arguments[index..], sawDefaultListener)
      decreases |arguments| - index
    {
      var argument := arguments[index].text;
      ListensSteps(arguments, index, sawDefaultListener);
      if argument == STDIO {
        return false;
      }
      if argument == LISTEN {
        if index + 1 >= |arguments| || arguments[index + 1].Undecodable? {
          return false;
        }
        if sawDefaultListener || arguments[index + 1].text != UNIX_SCHEME {
          return false;
        }
        sawDefaultListener := true;
        index := index + 2;
        continue;
      }
      var stripped := StripPrefix(argument, LISTEN_PREFIX);
      if stripped.Some? {
        if sawDefaultListener || stripped.value != UNIX_SCHEME {
          return false;
        }
        sawDefaultListener := true;
        index := index + 1;
        continue;
      }
      if TakesNext(LISTENER_OPTIONS, argument) {
        if index + 1 >= |arguments| {
          return false;
        }
        index := index + 2;
        continue;
      }
      if Standalone(LISTENER_OPTIONS, argument) {
        index := index + 1;
        continue;
      }
      return false;
    }
    ListensSteps(arguments, index, sawDefaultListener);
    accepted := sawDefaultListener;
  }

  lemma ListensSteps(arguments: seq<Argument>, index: nat, saw: bool)
    requires index <= |arguments|
    ensures index == |arguments| || arguments[index].Undecodable? ==> ListensOnDefault(arguments[index..], saw) == saw
    ensures index < |arguments| && arguments[index].Unicode? ==>
              var text := arguments[index].text;
              ListensOnDefault(arguments[index..], saw)
              == if text == STDIO then false
                 else if text == LISTEN then
                   index + 1 < |arguments| && !saw && arguments[index + 1] == Unicode(UNIX_SCHEME)
                   && ListensOnDefault(arguments[index + 2..], true)
                 else if StripPrefix(text, LISTEN_PREFIX).Some? then
                   !saw && StripPrefix(text, LISTEN_PREFIX) == Some(UNIX_SCHEME)
                   && ListensOnDefault(arguments[index + 1..], true)
                 else if TakesNext(LISTENER_OPTIONS, text) then
                   index + 1 < |arguments| && ListensOnDefault(arguments[index + 2..], saw)
                 else
                   Standalone(LISTENER_OPTIONS, text)
                   && ListensOnDefault(arguments[index + 1..], saw)
  {
    hide TakesNext, Standalone, StripPrefix, LISTENER_OPTIONS, STDIO, LISTEN, LISTEN_PREFIX, UNIX_SCHEME;
    if index < |arguments| {
      assert arguments[index..][1..] == arguments[index + 1..];
      assert index + 1 < |arguments| ==> arguments[index..][2..] == arguments[index + 2..];
    }
  }

  predicate IsListen(setting: Setting) {
    if setting.Pair? then setting.name == LISTEN else LISTEN_PREFIX <= setting.text
  }

  predicate IsStdio(setting: Setting) {
    setting == Word(STDIO)
  }

  predicate ListensOn(setting: Setting, address: string) {
    setting == Pair(LISTEN, Unicode(address)) || setting == Word(LISTEN_PREFIX + address)
  }

  function Listens(): Setting -> bool {
    (setting: Setting) => IsListen(setting)
  }

  // ----- Rewriting for a local listener -----

  /** Texts the rewriting takes out. */
  predicate Replaced(text: string) {
    text == LISTEN || LISTEN_PREFIX <= text || text == STDIO
  }

  function Kept(arguments: seq<Argument>): seq<Argument>
    decreases |arguments|
  {
    if arguments == [] then []
    else if Shown(arguments[0]) == LISTEN then Kept(From(arguments, 2))
    else if Replaced(Shown(arguments[0])) then Kept(arguments[1..])
    else [arguments[0]] + Kept(arguments[1..])
  }

  /** The socket path as the address of a listener: it is Unicode if the path is. */
  function Address(socketPath: Argument): (address: Argument)
    ensures Shown(address) == UNIX_SCHEME + Shown(socketPath)
  {
    if socketPath.Unicode? then Unicode(UNIX_SCHEME + socketPath.text)
    else Undecodable(UNIX_SCHEME + socketPath.before, socketPath.bytes, socketPath.behind)
  }

  function LocalListener(socketPath: Argument): seq<Argument> {
    [Unicode(LISTEN), Address(socketPath)]
  }

  function Rewritten(arguments: seq<Argument>, socketPath: Argument): Option<seq<Argument>> {
    var index := AppServerIndex(arguments);
    if index.None? then None
    else Some(arguments[..index.value + 1] + Kept(arguments[index.value + 1..]) + LocalListener(socketPath))
  }

  method LocalListenerArguments(arguments: seq<Argument>, socketPath: Argument) returns (rewritten: Option<seq<Argument>>)
    ensures rewritten == Rewritten(arguments, socketPath)
  {
    var appServer := AppServerSubcommandIndex(arguments);
    if appServer.None? {
      return None;
    }
    var start := appServer.value + 1;
    var others := KeepOtherArguments(arguments, start);
    rewritten := Some(arguments[..start] + others + [Unicode(LISTEN), Address(socketPath)]);
  }

  method KeepOtherArguments(arguments: seq<Argument>, start: nat) returns (result: seq<Argument>)
    requires start <= |arguments|
    ensures result == Kept(arguments[start..])
  {
    hide *;
    result := [];
    var index := start;
    ghost var expected: seq<Argument> := Kept(arguments[start..]);
    KeptFrom(arguments, start);
    while index < |arguments|
      invariant result + Kept(From(arguments, index)) == expected
      decreases |arguments| - index
    {
      var argument := arguments[index];
      var text := Shown(argument);
      if text == LISTEN {
        ListenIsDropped(arguments, index);
        index := index + 2;
        continue;
      }
      if LISTEN_PREFIX <= text || text == STDIO {
        InlineIsDropped(arguments, index);
        index := index + 1;
        continue;
      }
      OtherIsKept(arguments, index, result);
      result := result + [argument];
      index := index + 1;
    }
    NothingIsLeft(arguments, index, result);
  }

  lemma KeptFrom(arguments: seq<Argument>, start: nat)
    requires start <= |arguments|
    ensures [] + Kept(From(arguments, start)) == Kept(arguments[start..])
  {
    hide Kept;
    assert From(arguments, start) == arguments[start..];
  }

  lemma ListenIsDropped(arguments: seq<Argument>, index: nat)
    requires index < |arguments| && Shown(arguments[index]) == LISTEN
    ensures Kept(From(arguments, index)) == Kept(From(arguments, index + 2))
  {
    hide Shown, Replaced, LISTEN;
    assert From(From(arguments, index), 2) == From(arguments, index + 2);
  }

  lemma InlineIsDropped(arguments: seq<Argument>, index: nat)
    requires index < |arguments| && Shown(arguments[index]) != LISTEN
    requires LISTEN_PREFIX <= Shown(arguments[index]) || Shown(arguments[index]) == STDIO
    ensures Kept(From(arguments, index)) == Kept(From(arguments, index + 1))
  {
    hide Shown, LISTEN, LISTEN_PREFIX, STDIO;
    assert From(arguments, index)[1..] == From(arguments, index + 1);
  }

  lemma OtherIsKept(arguments: seq<Argument>, index: nat, before: seq<Argument>)
    requires index < |arguments| && Shown(arguments[index]) != LISTEN
    requires !(LISTEN_PREFIX <= Shown(arguments[index])) && Shown(arguments[index]) != STDIO
    ensures before + Kept(From(arguments, index)) == before + [arguments[index]] + Kept(From(arguments, index + 1))
  {
    hide Shown, LISTEN, LISTEN_PREFIX, STDIO;
    var rest := Kept(From(arguments, index + 1));
    assert From(arguments, index)[1..] == From(arguments, index + 1);
    assert Kept(From(arguments, index)) == [arguments[index]] + rest;
    assert before + ([arguments[index]] + rest) == before + [arguments[index]] + rest;
  }

  lemma NothingIsLeft(arguments: seq<Argument>, index: nat, before: seq<Argument>)
    requires index >= |arguments|
    ensures before + Kept(From(arguments, index)) == before
  {
    assert From(arguments, index) == [];
    assert before + [] == before;
  }

  // ----- What the option lists have in common -----

  /** Options other than `--listen` cannot be mistaken for anything the rewriting takes out. */
  predicate Distinctive(option: string) {
    |option| <= 2 || (option[2] != 'l' && option[2] != 's')
  }

  lemma HostValueOption(k: nat)
    requires k < |HOST_OPTIONS.values|
    ensures var option := HOST_OPTIONS.values[k];
            && option != "" && option[0] == '-'
            && if k == 4 then option == LISTEN else Distinctive(option)
  {
  }

  lemma ListenerOptionsAre()
    ensures LISTENER_OPTIONS.values == HOST_OPTIONS.values[..4] + HOST_OPTIONS.values[5..]
    ensures HOST_OPTIONS.flags == [LISTENER_OPTIONS.flags[0], STDIO, LISTENER_OPTIONS.flags[1]]
    ensures |LISTENER_OPTIONS.flags| == 2 && |HOST_OPTIONS.values| == 12
  {
  }

  lemma ReplacedIsNotDistinctive(text: string)
    ensures Replaced(text) ==> !Distinctive(text)
    ensures text == LISTEN || text == STDIO || LISTEN_PREFIX <= text ==> Replaced(text)
    ensures LISTEN_PREFIX <= text ==> |text| > |LISTEN|
    ensures LISTEN + "=" == LISTEN_PREFIX
    ensures STDIO != LISTEN && STDIO != "" && STDIO[0] == '-' && '=' !in STDIO
  {
  }

  lemma HostOptionsTakeNext(text: string)
    ensures TakesNext(HOST_OPTIONS, LISTEN)
    ensures TakesNext(HOST_OPTIONS, text) ==> text != "" && text[0] == '-'
    ensures TakesNext(HOST_OPTIONS, text) && text != LISTEN ==> !Replaced(text)
    ensures TakesNext(LISTENER_OPTIONS, text) <==> TakesNext(HOST_OPTIONS, text) && text != LISTEN
    ensures text == STDIO || LISTEN_PREFIX <= text ==> !TakesNext(HOST_OPTIONS, text)
  {
    hide HOST_OPTIONS, LISTENER_OPTIONS, Replaced, LISTEN, LISTEN_PREFIX, STDIO;
    ReplacedIsNotDistinctive(text);
    ReplacedIsNotDistinctive(LISTEN);
    ListenerOptionsAre();
    HostValueOption(4);
    var values := HOST_OPTIONS.values;
    forall k | 0 <= k < |values|
      ensures values[k] != "" && values[k][0] == '-'
      ensures if k == 4 then values[k] == LISTEN else Distinctive(values[k])
    {
      HostValueOption(k);
    }
    assert values == values[..4] + [values[4]] + values[5..];
    forall k | 0 <= k < |values| && k != 4 ensures values[k] in LISTENER_OPTIONS.values && values[k] != LISTEN {
      assert values[k] == if k < 4 then LISTENER_OPTIONS.values[k] else LISTENER_OPTIONS.values[k - 1];
    }
  }

  lemma HostOptionsInline(text: string)
    ensures Inline(HOST_OPTIONS.values, text) <==> Inline(LISTENER_OPTIONS.values, text) || LISTEN_PREFIX <= text
    ensures Inline(HOST_OPTIONS.values, text) ==> text != "" && text[0] == '-'
  {
    hide HOST_OPTIONS, LISTENER_OPTIONS, LISTEN, LISTEN_PREFIX, STDIO;
    var values := HOST_OPTIONS.values;
    ListenerOptionsAre();
    ReplacedIsNotDistinctive(text);
    HostValueOption(4);
    assert forall option <- LISTENER_OPTIONS.values :: option in values;
    assert forall option <- values :: option in LISTENER_OPTIONS.values || option == LISTEN;
    if option :| option in values && option + "=" <= text {
      var k :| 0 <= k < |values| && values[k] == option;
      HostValueOption(k);
      assert (option + "=")[0] == text[0];
    }
  }

  lemma HostOptionsStandalone(text: string)
    ensures Standalone(HOST_OPTIONS, text) ==> text != "" && text[0] == '-'
    ensures Standalone(HOST_OPTIONS, STDIO)
    ensures LISTEN_PREFIX <= text ==> Standalone(HOST_OPTIONS, text)
    ensures !(LISTEN_PREFIX <= text) && text != STDIO ==>
              (Standalone(LISTENER_OPTIONS, text) <==> Standalone(HOST_OPTIONS, text))
  {
    hide HOST_OPTIONS, LISTENER_OPTIONS, LISTEN, LISTEN_PREFIX, STDIO, Inline;
    HostOptionsInline(text);
    ListenerOptionsAre();
    ListenerFlagsAreDashed();
    ReplacedIsNotDistinctive(text);
  }

  lemma ListenerFlagsAreDashed()
    ensures forall option <- LISTENER_OPTIONS.flags :: option != "" && option[0] == '-'
  {
  }

  // ----- The default listener among the accepted invocations -----

  /** The listener check accepts exactly the arguments that the Host Runtime's grammar accepts with one listen option,
      on the default address, and without `--stdio`. */
  lemma {:induction false} DefaultListenerFrom(arguments: seq<Argument>, saw: bool)
    ensures ListensOnDefault(arguments, saw)
            <==> && Settings(arguments).Some?
                 && var settings := Settings(arguments).value.0;
                    var listens := Select(settings, Listens());
                    && Word(STDIO) !in settings
                    && if saw then listens == [] else |listens| == 1 && ListensOn(listens[0], UNIX_SCHEME)
    decreases |arguments|
  {
    hide TakesNext, Standalone, HOST_OPTIONS, LISTENER_OPTIONS, LISTEN, LISTEN_PREFIX, STDIO, UNIX_SCHEME;
    if arguments == [] || arguments[0].Undecodable? {
    } else {
      var text := arguments[0].text;
      HostOptionsTakeNext(text);
      HostOptionsStandalone(text);
      var first := if TakesNext(HOST_OPTIONS, text) && |arguments| > 1 then Pair(text, arguments[1]) else Word(text);
      var later := arguments[if TakesNext(HOST_OPTIONS, text) && |arguments| > 1 then 2 else 1..];
      DefaultListenerFrom(later, saw || IsListen(first));
    }
  }

  /** `is_default_remote_unix_listener` and the Host Runtime's grammar agree on every invocation. */
  lemma DefaultListenerExact(arguments: seq<Argument>)
    ensures IsDefaultListener(arguments)
            <==> && HostSettings(arguments).Some?
                 && var settings := HostSettings(arguments).value.0;
                    var listens := Select(settings, Listens());
                    Word(STDIO) !in settings && |listens| == 1 && ListensOn(listens[0], UNIX_SCHEME)
  {
    var index := AppServerIndex(arguments);
    if index.Some? {
      DefaultListenerFrom(arguments[index.value + 1..], false);
    }
  }

  // ----- What the rewriting keeps -----

  predicate IsClean(arguments: seq<Argument>) {
    forall argument <- arguments :: !Replaced(Shown(argument))
  }

  lemma {:induction false} KeptIsClean(arguments: seq<Argument>)
    ensures IsClean(Kept(arguments))
    decreases |arguments|
  {
    hide Replaced, Shown, LISTEN;
    if arguments != [] {
      KeptIsClean(arguments[1..]);
      KeptIsClean(From(arguments, 2));
      ListenIsReplaced();
    }
  }

  lemma ListenIsReplaced()
    ensures Replaced(LISTEN)
  {
  }

  lemma {:induction false} KeptOfClean(before: seq<Argument>, behind: seq<Argument>)
    requires IsClean(before)
    ensures Kept(before + behind) == before + Kept(behind)
    decreases |before|
  {
    hide Replaced, Shown, LISTEN;
    ListenIsReplaced();
    if before == [] {
      assert before + behind == behind;
    } else {
      assert before[0] in before;
      assert forall argument <- before[1..] :: argument in before;
      KeptOfClean(before[1..], behind);
      assert (before + behind)[1..] == before[1..] + behind;
      assert before == [before[0]] + before[1..];
    }
  }

  /** What follows the subcommand does not change where it is. */
  lemma {:induction false} AppServerIndexIsStable(arguments: seq<Argument>, behind: seq<Argument>)
    requires AppServerIndex(arguments).Some?
    ensures var i := AppServerIndex(arguments).value;
            AppServerIndex(arguments[..i + 1] + behind) == Some(i)
    decreases |arguments|
  {
    hide TakesNext, Standalone, GLOBAL_OPTIONS, APP_SERVER;
    var i := AppServerIndex(arguments).value;
    var whole := arguments[..i + 1] + behind;
    var text := arguments[0].text;
    if text == APP_SERVER {
      assert whole[0] == arguments[0];
    } else {
      var step := if TakesNext(GLOBAL_OPTIONS, text) then 2 else 1;
      AppServerIndexIsStable(arguments[step..], behind);
      assert arguments[step..][..i + 1 - step] == arguments[..i + 1][step..];
      assert arguments[step..][..i + 1 - step] + behind == whole[step..];
      assert whole[0] == arguments[0];
    }
  }

  lemma RewrittenBehind(arguments: seq<Argument>, behind: seq<Argument>, socketPath: Argument)
    requires AppServerIndex(arguments).Some?
    ensures var before := arguments[..AppServerIndex(arguments).value + 1];
            && AppServerIndex(before + behind) == AppServerIndex(arguments)
            && Rewritten(before + behind, socketPath) == Some(before + Kept(behind) + LocalListener(socketPath))
  {
    hide AppServerIndex, Kept, LocalListener;
    AppServerIndexIsStable(arguments, behind);
    var i := AppServerIndex(arguments).value;
    var whole := arguments[..i + 1] + behind;
    assert whole[..i + 1] == arguments[..i + 1] && whole[i + 1..] == behind;
  }

  /** Rewriting a rewritten invocation is the same as rewriting the original: the last socket wins, and with the same
      socket nothing changes any more. */
  lemma RewritingLastWins(arguments: seq<Argument>, first: Argument, last: Argument)
    requires AppServerIndex(arguments).Some?
    ensures Rewritten(arguments, first).Some?
    ensures Rewritten(Rewritten(arguments, first).value, last) == Rewritten(arguments, last)
  {
    hide *;
    var i := AppServerIndex(arguments).value;
    var before, behind := arguments[..i + 1], arguments[i + 1..];
    assert before + behind == arguments;
    var kept := Kept(behind);
    RewrittenBehind(arguments, behind, first);
    RewrittenBehind(arguments, behind, last);
    assert before + kept + LocalListener(first) == before + (kept + LocalListener(first));
    RewrittenBehind(arguments, kept + LocalListener(first), last);
    KeptIsClean(behind);
    KeptOfClean(kept, LocalListener(first));
    KeptLocalListener(first);
    assert kept + [] == kept;
  }

  lemma KeptLocalListener(socketPath: Argument)
    ensures Kept(LocalListener(socketPath)) == []
  {
    assert From(LocalListener(socketPath), 2) == [];
  }

  // ----- What the rewriting means to the Host Runtime -----

  function Others(): Setting -> bool {
    (setting: Setting) => !IsListen(setting) && !IsStdio(setting)
  }

  /** No option but `--listen` has a value, given as an argument of its own, that the rewriting would take out. */
  predicate ValuesAreClear(settings: seq<Setting>) {
    forall setting <- settings :: setting.Pair? && setting.name != LISTEN ==> !Replaced(Shown(setting.value))
  }

  lemma BeforeNothing(later: Option<(seq<Setting>, seq<Argument>)>)
    ensures Before([], later) == later
  {
    assert later.Some? ==> [] + later.value.0 == later.value.0;
  }

  lemma BeforeTwice(a: seq<Setting>, b: seq<Setting>, later: Option<(seq<Setting>, seq<Argument>)>)
    ensures Before(a, Before(b, later)) == Before(a + b, later)
  {
    assert later.Some? ==> a + (b + later.value.0) == a + b + later.value.0;
  }

  /** Where the values are clear, the rewriting drops the listen and stdio settings and keeps all others. */
  lemma {:induction false} ClearValuesAreKept(arguments: seq<Argument>, behind: seq<Argument>)
    requires Settings(arguments).Some? && ValuesAreClear(Settings(arguments).value.0)
    ensures var (settings, unread) := Settings(arguments).value;
            Settings(Kept(arguments) + behind) == Before(Select(settings, Others()), Settings(Kept(unread) + behind))
    decreases |arguments|
  {
    hide *;
    SettingsStep(arguments);
    var (settings, unread) := Settings(arguments).value;
    if settings == [] {
      SelectStep(settings);
      BeforeNothing(Settings(Kept(unread) + behind));
    } else {
      var later := arguments[if settings[0].Pair? then 2 else 1..];
      ClearStep(settings);
      ClearValuesAreKept(later, behind);
      SelectStep(settings);
      KeptStep(arguments, behind);
      BeforeTwice(if Others()(settings[0]) then [settings[0]] else [], Select(settings[1..], Others()),
                  Settings(Kept(unread) + behind));
      BeforeNothing(Settings(Kept(later) + behind));
    }
  }

  lemma SettingsStep(arguments: seq<Argument>)
    requires Settings(arguments).Some?
    ensures var (settings, unread) := Settings(arguments).value;
            if settings == [] then unread == arguments
            else
              && |arguments| > (if settings[0].Pair? then 1 else 0)
              && Settings(arguments[if settings[0].Pair? then 2 else 1..]) == Some((settings[1..], unread))
  {
    hide TakesNext, Standalone, HOST_OPTIONS;
    if arguments != [] && arguments[0].Unicode? {
      var text := arguments[0].text;
      var first := if TakesNext(HOST_OPTIONS, text) then Pair(text, arguments[1]) else Word(text);
      var (settings, unread) := Settings(arguments).value;
      var later := Settings(arguments[if first.Pair? then 2 else 1..]).value;
      assert settings == [first] + later.0;
    }
  }

  lemma ClearStep(settings: seq<Setting>)
    requires settings != [] && ValuesAreClear(settings)
    ensures ValuesAreClear(settings[1..])
  {
  }

  lemma SelectStep(settings: seq<Setting>)
    ensures Select(settings, Others())
         == if settings == [] then []
            else (if Others()(settings[0]) then [settings[0]] else []) + Select(settings[1..], Others())
  {
  }

  /** What the rewriting makes of one setting: it stays as it is, or goes as a whole. */
  lemma KeptStep(arguments: seq<Argument>, behind: seq<Argument>)
    requires Settings(arguments).Some? && Settings(arguments).value.0 != []
    requires ValuesAreClear(Settings(arguments).value.0)
    ensures var first := Settings(arguments).value.0[0];
            && |arguments| > (if first.Pair? then 1 else 0)
            && var later := Kept(arguments[if first.Pair? then 2 else 1..]) + behind;
               Settings(Kept(arguments) + behind)
               == if Others()(first) then Before([first], Settings(later)) else Settings(later)
  {
    hide *;
    var first := Settings(arguments).value.0[0];
    SettingsStep(arguments);
    SettingsHead(arguments);
    ClearHead(Settings(arguments).value.0);
    FirstTaken(arguments);
    if first.Pair? {
      KeptPair(arguments, behind);
    } else {
      KeptWord(arguments, behind);
    }
  }

  lemma ClearHead(settings: seq<Setting>)
    requires settings != [] && ValuesAreClear(settings)
    ensures settings[0].Pair? && settings[0].name != LISTEN ==> !Replaced(Shown(settings[0].value))
  {
    assert settings[0] in settings;
  }

  lemma FirstTaken(arguments: seq<Argument>)
    requires Settings(arguments).Some? && Settings(arguments).value.0 != []
    ensures arguments[0].Unicode?
    ensures var text := arguments[0].text;
            if Settings(arguments).value.0[0].Pair? then TakesNext(HOST_OPTIONS, text)
            else !TakesNext(HOST_OPTIONS, text) && Standalone(HOST_OPTIONS, text)
  {
    hide TakesNext, Standalone, HOST_OPTIONS;
  }

  lemma KeptPair(arguments: seq<Argument>, behind: seq<Argument>)
    requires |arguments| > 1 && arguments[0].Unicode? && TakesNext(HOST_OPTIONS, arguments[0].text)
    requires arguments[0].text != LISTEN ==> !Replaced(Shown(arguments[1]))
    ensures var first := Pair(arguments[0].text, arguments[1]);
            var later := Kept(arguments[2..]) + behind;
            Settings(Kept(arguments) + behind)
            == if Others()(first) then Before([first], Settings(later)) else Settings(later)
  {
    hide *;
    var text, rest := arguments[0].text, Kept(arguments[2..]) + behind;
    HostOptionsTakeNext(text);
    PairIsOther(text, arguments[1]);
    KeptTwo(arguments);
    if text != LISTEN {
      assert [arguments[0], arguments[1]] + Kept(arguments[2..]) + behind == [arguments[0], arguments[1]] + rest;
      SettingsOfPair(arguments[0], arguments[1], rest);
    }
  }

  lemma PairIsOther(name: string, value: Argument)
    ensures Others()(Pair(name, value)) <==> name != LISTEN
  {
    hide LISTEN, LISTEN_PREFIX, STDIO;
  }

  lemma KeptTwo(arguments: seq<Argument>)
    requires |arguments| > 1 && arguments[0].Unicode?
    requires arguments[0].text != LISTEN ==> !Replaced(arguments[0].text) && !Replaced(Shown(arguments[1]))
    ensures Kept(arguments)
         == if arguments[0].text == LISTEN then Kept(arguments[2..])
            else [arguments[0], arguments[1]] + Kept(arguments[2..])
  {
    ListenIsReplaced();
    hide Replaced, LISTEN;
    assert From(arguments, 2) == arguments[2..] && arguments[1..][1..] == arguments[2..];
    if arguments[0].text != LISTEN {
      assert Kept(arguments[1..]) == [arguments[1]] + Kept(arguments[2..]);
      assert [arguments[0]] + ([arguments[1]] + Kept(arguments[2..]))
          == [arguments[0], arguments[1]] + Kept(arguments[2..]);
    }
  }

  lemma SettingsOfPair(name: Argument, value: Argument, behind: seq<Argument>)
    requires name.Unicode? && TakesNext(HOST_OPTIONS, name.text)
    ensures Settings([name, value] + behind) == Before([Pair(name.text, value)], Settings(behind))
  {
    hide TakesNext, Standalone, HOST_OPTIONS;
    assert ([name, value] + behind)[2..] == behind;
  }

  lemma KeptWord(arguments: seq<Argument>, behind: seq<Argument>)
    requires arguments != [] && arguments[0].Unicode?
    requires !TakesNext(HOST_OPTIONS, arguments[0].text) && Standalone(HOST_OPTIONS, arguments[0].text)
    ensures var first := Word(arguments[0].text);
            var later := Kept(arguments[1..]) + behind;
            Settings(Kept(arguments) + behind)
            == if Others()(first) then Before([first], Settings(later)) else Settings(later)
  {
    hide *;
    var text, rest := arguments[0].text, Kept(arguments[1..]) + behind;
    HostOptionsTakeNext(text);
    WordIsOther(text);
    KeptHead(arguments);
    if !Replaced(text) {
      assert [arguments[0]] + Kept(arguments[1..]) + behind == [arguments[0]] + rest;
      SettingsOfWord(arguments[0], rest);
    }
  }

  lemma KeptHead(arguments: seq<Argument>)
    requires arguments != [] && arguments[0].Unicode? && arguments[0].text != LISTEN
    ensures Kept(arguments)
         == if Replaced(arguments[0].text) then Kept(arguments[1..]) else [arguments[0]] + Kept(arguments[1..])
  {
    hide Replaced, LISTEN;
  }

  lemma SettingsOfWord(argument: Argument, behind: seq<Argument>)
    requires argument.Unicode? && !TakesNext(HOST_OPTIONS, argument.text) && Standalone(HOST_OPTIONS, argument.text)
    ensures Settings([argument] + behind) == Before([Word(argument.text)], Settings(behind))
  {
    hide TakesNext, Standalone, HOST_OPTIONS;
    assert ([argument] + behind)[1..] == behind;
  }

  lemma WordIsOther(text: string)
    requires text != LISTEN
    ensures Others()(Word(text)) <==> !Replaced(text)
  {
    hide LISTEN, LISTEN_PREFIX, STDIO;
  }

  /** In front of the new listener, an argument that is read for its own sake never takes the listener's place. */
  lemma {:induction false} CleanArgumentsHaveClearValues(kept: seq<Argument>, socketPath: Argument)
    requires IsClean(kept)
    requires Settings(kept + LocalListener(socketPath)).Some?
    requires Settings(kept + LocalListener(socketPath)).value.1 == []
    ensures ValuesAreClear(Settings(kept + LocalListener(socketPath)).value.0)
    decreases |kept|
  {
    hide *;
    var whole := kept + LocalListener(socketPath);
    SettingsStep(whole);
    var settings := Settings(whole).value.0;
    SettingsHead(whole);
    AddressIsNoOption(socketPath);
    if kept == [] {
      assert whole == LocalListener(socketPath);
      LocalListenerSettings(socketPath);
      ClearCons(settings);
    } else if settings != [] && settings[0].Pair? {
      if |kept| == 1 {
        assert whole[2..] == [Address(socketPath)] by { LocalListenerIs(socketPath); }
        assert false;
      } else {
        assert whole[2..] == kept[2..] + LocalListener(socketPath);
        CleanPart(kept, 2);
        CleanArgumentsHaveClearValues(kept[2..], socketPath);
        CleanPart(kept, 1);
        assert whole[1] == kept[1];
        ClearCons(settings);
      }
    } else {
      if settings != [] {
        assert whole[1..] == kept[1..] + LocalListener(socketPath);
        CleanPart(kept, 1);
        CleanArgumentsHaveClearValues(kept[1..], socketPath);
      }
      ClearCons(settings);
    }
  }

  lemma CleanPart(arguments: seq<Argument>, n: nat)
    requires IsClean(arguments) && n <= |arguments|
    ensures IsClean(arguments[n..])
    ensures forall i :: 0 <= i < |arguments| ==> !Replaced(Shown(arguments[i]))
  {
  }

  lemma ClearCons(settings: seq<Setting>)
    requires settings != [] && settings[0].Pair? && settings[0].name != LISTEN ==> !Replaced(Shown(settings[0].value))
    requires settings != [] ==> ValuesAreClear(settings[1..])
    ensures ValuesAreClear(settings)
  {
  }

  lemma SettingsHead(arguments: seq<Argument>)
    requires Settings(arguments).Some?
    ensures var settings := Settings(arguments).value.0;
            settings != [] ==>
              && arguments[0].Unicode?
              && if settings[0].Pair? then |arguments| > 1 && settings[0] == Pair(arguments[0].text, arguments[1])
                 else settings[0] == Word(arguments[0].text)
  {
    hide TakesNext, Standalone, HOST_OPTIONS;
  }

  lemma LocalListenerIs(socketPath: Argument)
    ensures LocalListener(socketPath) == [Unicode(LISTEN), Address(socketPath)]
  {
  }

  lemma AddressIsNoOption(socketPath: Argument)
    ensures Settings([Address(socketPath)]) == if socketPath.Unicode? then None else Some(([], [Address(socketPath)]))
  {
    hide TakesNext, Standalone, HOST_OPTIONS;
    var address := Address(socketPath);
    HostOptionsTakeNext(Shown(address));
    HostOptionsStandalone(Shown(address));
    assert Shown(address)[0] == 'u';
  }

  lemma LocalListenerSettings(socketPath: Argument)
    ensures Settings(LocalListener(socketPath)) == Some(([Pair(LISTEN, Address(socketPath))], []))
  {
    hide TakesNext, Standalone, HOST_OPTIONS, LISTEN, Address;
    HostOptionsTakeNext(LISTEN);
    var listener := LocalListener(socketPath);
    assert listener[2..] == [] && listener[0].text == LISTEN;
    assert Settings(listener[2..]) == Some(([], []));
    assert [Pair(LISTEN, Address(socketPath))] + [] == [Pair(LISTEN, Address(socketPath))];
  }

  /** Behind arguments that stay, the new listener alone is not what the Host Runtime reads. */
  lemma ListenerAlone(kept: seq<Argument>, socketPath: Argument)
    requires IsClean(kept)
    ensures Settings(kept + LocalListener(socketPath)) == Some(([Pair(LISTEN, Address(socketPath))], [])) <==> kept == []
  {
    hide *;
    var whole := kept + LocalListener(socketPath);
    if kept == [] {
      assert whole == LocalListener(socketPath);
      LocalListenerSettings(socketPath);
    } else {
      CleanPart(kept, 0);
      ShownUnicode(kept[0]);
      ListenIsReplaced();
      assert whole[0] == kept[0];
      if Settings(whole).Some? {
        SettingsHead(whole);
      }
    }
  }

  lemma ShownUnicode(argument: Argument)
    ensures argument.Unicode? ==> Shown(argument) == argument.text
  {
  }

  /** The Host Runtime accepts a rewritten invocation, reads from it all settings of the original but listen and stdio,
      followed by one listener on the given socket, and reads to the end, exactly when no other option has a value, as an
      argument of its own, that looks like a listen or stdio option, and the rewriting drops whatever followed a
      non-Unicode argument that ended the reading. */
  lemma RewritingIsProjection(arguments: seq<Argument>, socketPath: Argument)
    requires HostSettings(arguments).Some?
    ensures Rewritten(arguments, socketPath).Some?
    ensures var (settings, unread) := HostSettings(arguments).value;
            HostSettings(Rewritten(arguments, socketPath).value)
            == Some((Select(settings, Others()) + [Pair(LISTEN, Address(socketPath))], []))
            <==> ValuesAreClear(settings) && Kept(unread) == []
  {
    hide *;
    HostSettingsIs(arguments);
    var i := AppServerIndex(arguments).value;
    var before, tail := arguments[..i + 1], arguments[i + 1..];
    var (settings, unread) := Settings(tail).value;
    var listener := [Pair(LISTEN, Address(socketPath))];
    var rewritten := Kept(tail) + LocalListener(socketPath);
    assert before + tail == arguments;
    RewrittenBehind(arguments, tail, socketPath);
    assert before + Kept(tail) + LocalListener(socketPath) == before + rewritten;
    AppServerIndexIsStable(arguments, rewritten);
    HostSettingsIs(before + rewritten);
    assert (before + rewritten)[i + 1..] == rewritten;
    KeptIsClean(tail);
    KeptIsClean(unread);
    if ValuesAreClear(settings) {
      ClearValuesAreKept(tail, LocalListener(socketPath));
      ListenerAlone(Kept(unread), socketPath);
      BeforeCancels(Select(settings, Others()), Settings(Kept(unread) + LocalListener(socketPath)), listener);
    } else if Settings(rewritten) == Some((Select(settings, Others()) + listener, [])) {
      CleanArgumentsHaveClearValues(Kept(tail), socketPath);
      ClearOfOthers(settings, listener);
    }
  }

  lemma HostSettingsIs(arguments: seq<Argument>)
    ensures HostSettings(arguments)
         == if AppServerIndex(arguments).None? then None else Settings(arguments[AppServerIndex(arguments).value + 1..])
  {
  }

  lemma BeforeCancels(a: seq<Setting>, later: Option<(seq<Setting>, seq<Argument>)>, b: seq<Setting>)
    ensures Before(a, later) == Some((a + b, [])) <==> later == Some((b, []))
  {
    if later.Some? && a + later.value.0 == a + b {
      assert (a + later.value.0)[|a|..] == later.value.0 && (a + b)[|a|..] == b;
    }
  }

  lemma ClearOfOthers(settings: seq<Setting>, behind: seq<Setting>)
    requires ValuesAreClear(Select(settings, Others()) + behind)
    ensures ValuesAreClear(settings)
  {
    hide Replaced, Shown, LISTEN, LISTEN_PREFIX, STDIO;
    SelectMembers(settings, Others());
    forall setting <- settings | setting.Pair? && setting.name != LISTEN ensures !Replaced(Shown(setting.value)) {
      assert Others()(setting);
      assert setting in Select(settings, Others()) + behind;
    }
  }

  /** The condition under which the rewriting is a projection. */
  predicate RewritesCleanly(arguments: seq<Argument>) {
    && HostSettings(arguments).Some?
    && ValuesAreClear(HostSettings(arguments).value.0)
    && Kept(HostSettings(arguments).value.1) == []
  }

  /** The invocation has the new listener as its only one, and no `--stdio`. */
  predicate ListensOnlyOn(arguments: seq<Argument>, socketPath: Argument) {
    var settings := HostSettings(arguments);
    && settings.Some? && settings.value.1 == []
    && Word(STDIO) !in settings.value.0
    && Select(settings.value.0, Listens()) == [Pair(LISTEN, Address(socketPath))]
  }

  lemma RewrittenListensOnce(arguments: seq<Argument>, socketPath: Argument)
    ensures RewritesCleanly(arguments) ==>
              && Rewritten(arguments, socketPath).Some?
              && ListensOnlyOn(Rewritten(arguments, socketPath).value, socketPath)
  {
    hide HostSettings, Rewritten, Kept, ValuesAreClear, LISTEN, LISTEN_PREFIX, STDIO;
    if RewritesCleanly(arguments) {
      RewritingIsProjection(arguments, socketPath);
      var settings := HostSettings(arguments).value.0;
      var others := Select(settings, Others());
      SelectMembers(settings, Others());
      SelectNone(others, Listens());
      SelectConcat(others, [Pair(LISTEN, Address(socketPath))], Listens());
      assert Others()(Word(STDIO)) == false;
    }
  }

  /** The rewriting takes out an option's value that reads `--stdio`, and the option then takes the new listener's name
      for its value: the Host Runtime refuses what it accepted before. */
  lemma DroppedValueIsRefused(socketPath: Argument)
    requires socketPath.Unicode?
    ensures var arguments := [Unicode(APP_SERVER), Unicode("-c"), Unicode(STDIO)];
            && HostSettings(arguments) == Some(([Pair("-c", Unicode(STDIO))], []))
            && Rewritten(arguments, socketPath).Some?
            && HostSettings(Rewritten(arguments, socketPath).value) == None
  {
    hide *;
    var arguments := [Unicode(APP_SERVER), Unicode("-c"), Unicode(STDIO)];
    StartsWithAppServer(arguments);
    ConfigPair(arguments[1..], Unicode(STDIO));
    assert arguments[1..] == [Unicode("-c"), Unicode(STDIO)];
    var tail := [Unicode("-c")] + LocalListener(socketPath);
    RewrittenBehind(arguments, arguments[1..], socketPath);
    assert arguments[..1] + arguments[1..] == arguments;
    KeptConfig(Unicode(STDIO));
    var rewritten := arguments[..1] + Kept(arguments[1..]) + LocalListener(socketPath);
    assert rewritten == arguments[..1] + tail;
    LocalListenerIs(socketPath);
    assert rewritten[1..] == tail == [Unicode("-c"), Unicode(LISTEN), Address(socketPath)];
    StartsWithAppServer(rewritten);
    ConfigPair(tail, Unicode(LISTEN));
    assert tail[2..] == [Address(socketPath)];
    AddressIsNoOption(socketPath);
  }

  lemma StartsWithAppServer(arguments: seq<Argument>)
    requires arguments != [] && arguments[0] == Unicode(APP_SERVER)
    ensures AppServerIndex(arguments) == Some(0)
    ensures HostSettings(arguments) == Settings(arguments[1..])
  {
    hide Settings, GLOBAL_OPTIONS, APP_SERVER;
  }

  lemma ConfigPair(arguments: seq<Argument>, value: Argument)
    requires |arguments| >= 2 && arguments[0] == Unicode("-c") && arguments[1] == value
    ensures Settings(arguments[2..]) == None ==> Settings(arguments) == None
    ensures |arguments| == 2 ==> Settings(arguments) == Some(([Pair("-c", value)], []))
  {
    assert HOST_OPTIONS.values[0] == "-c";
    assert TakesNext(HOST_OPTIONS, "-c");
    assert |arguments| == 2 ==> Settings(arguments[2..]) == Some(([], []));
    assert [Pair("-c", value)] + [] == [Pair("-c", value)];
  }

  lemma KeptConfig(value: Argument)
    requires value == Unicode(STDIO)
    ensures Kept([Unicode("-c"), value]) == [Unicode("-c")]
  {
    var arguments := [Unicode("-c"), value];
    assert arguments[1..] == [value] && [value][1..] == [];
    assert Kept([value]) == [];
  }

  /** A non-Unicode argument ends the reading of an accepted invocation, and hides the listener the rewriting adds. */
  lemma UnreadArgumentHidesListener(bytes: seq<nat>, socketPath: Argument)
    ensures var arguments := [Unicode(APP_SERVER), Undecodable("", bytes, "")];
            && HostSettings(arguments).Some?
            && Rewritten(arguments, socketPath).Some?
            && HostSettings(Rewritten(arguments, socketPath).value).Some?
            && HostSettings(Rewritten(arguments, socketPath).value).value.0 == []
  {
    hide *;
    var unread := Undecodable("", bytes, "");
    var arguments := [Unicode(APP_SERVER), unread];
    var tail := [unread] + LocalListener(socketPath);
    StartsWithAppServer(arguments);
    UndecodableEnds(arguments[1..]);
    RewrittenBehind(arguments, [unread], socketPath);
    assert arguments[..1] + [unread] == arguments;
    KeptUndecodable(bytes);
    var rewritten := arguments[..1] + [unread] + LocalListener(socketPath);
    assert rewritten[1..] == tail;
    StartsWithAppServer(rewritten);
    UndecodableEnds(tail);
  }

  lemma UndecodableEnds(arguments: seq<Argument>)
    requires arguments != [] && arguments[0].Undecodable?
    ensures Settings(arguments) == Some(([], arguments))
  {
  }

  lemma KeptUndecodable(bytes: seq<nat>)
    ensures Kept([Undecodable("", bytes, "")]) == [Undecodable("", bytes, "")]
  {
    var argument := Undecodable("", bytes, "");
    assert Shown(argument)[0] == REPLACEMENT && |Shown(argument)| == 1;
    assert [argument][1..] == [];
    assert Kept([]) == [];
  }
}
