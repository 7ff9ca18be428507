/** Which `app-server` invocations the Host Runtime serves (crates/shim/src/lib.rs:357-482): those its option grammar
    accepts, unless an internal service or the Skysight memory summarizer started them. */
module HostRuntimeRouting {
  import opened Sequences
  import opened AppServerArguments

  const DESKTOP_ORIGINATOR := "Codex Desktop"
  const PROVIDER_KEY := "model_provider"
  const MEMORY_PROVIDER := "openai-memgen"

  // ----- Trimming -----

  /** The characters of Unicode's White_Space property. */
  predicate IsWhitespace(c: char) {
    || '\t' <= c <= '\r' || c == ' ' || c == '\U{85}' || c == '\U{A0}' || c == '\U{1680}'
    || '\U{2000}' <= c <= '\U{200A}' || c == '\U{2028}' || c == '\U{2029}' || c == '\U{202F}' || c == '\U{205F}'
    || c == '\U{3000}'
  }

  predicate IsQuoteMark(c: char) {
    c == '\'' || c == '"'
  }

  /** The characters that trimming takes off. */
  lemma TrimmedCharacters(c: char)
    ensures IsWhitespace(c) <==>
              || 9 <= c as int <= 13 || c as int == 32 || c as int == 133 || c as int == 160 || c as int == 5760
              || 8192 <= c as int <= 8202 || c as int == 8232 || c as int == 8233 || c as int == 8239
              || c as int == 8287 || c as int == 12288
    ensures IsQuoteMark(c) <==> c as int == 39 || c as int == 34
  {
  }

  function DropLeading(s: string, p: char -> bool): string {
    if s != "" && p(s[0]) then DropLeading(s[1..], p) else s
  }

  function DropTrailing(s: string, p: char -> bool): string {
    if s != "" && p(s[|s| - 1]) then DropTrailing(s[..|s| - 1], p) else s
  }

  function Trim(s: string, p: char -> bool): string {
    DropTrailing(DropLeading(s, p), p)
  }

  predicate All(s: string, p: char -> bool) {
    forall c <- s :: p(c)
  }

  predicate Wraps(s: string, before: string, core: string, behind: string, p: char -> bool) {
    s == before + core + behind && All(before, p) && All(behind, p)
  }

  lemma {:induction false} DropLeadingFacts(s: string, p: char -> bool) returns (before: string)
    ensures s == before + DropLeading(s, p) && All(before, p)
  {
    if s != "" && p(s[0]) {
      var rest := DropLeadingFacts(s[1..], p);
      before := [s[0]] + rest;
      assert s == [s[0]] + s[1..] == before + DropLeading(s[1..], p);
    } else {
      before := "";
      assert before + s == s;
    }
  }

  lemma {:induction false} DropTrailingFacts(s: string, p: char -> bool) returns (behind: string)
    ensures s == DropTrailing(s, p) + behind && All(behind, p)
  {
    if s != "" && p(s[|s| - 1]) {
      var rest := DropTrailingFacts(s[..|s| - 1], p);
      behind := rest + [s[|s| - 1]];
      assert s == s[..|s| - 1] + [s[|s| - 1]] == DropTrailing(s[..|s| - 1], p) + behind;
    } else {
      behind := "";
      assert s + behind == s;
    }
  }

  lemma {:induction false} DropLeadingAll(before: string, rest: string, p: char -> bool)
    requires All(before, p) && (rest != "" ==> !p(rest[0]))
    ensures DropLeading(before + rest, p) == rest
  {
    if before == "" {
      assert before + rest == rest;
    } else {
      assert before[0] in before;
      assert forall c <- before[1..] :: c in before;
      assert (before + rest)[1..] == before[1..] + rest;
      DropLeadingAll(before[1..], rest, p);
    }
  }

  lemma {:induction false} DropTrailingAll(rest: string, behind: string, p: char -> bool)
    requires All(behind, p) && (rest != "" ==> !p(rest[|rest| - 1]))
    ensures DropTrailing(rest + behind, p) == rest
  {
    if behind == "" {
      assert rest + behind == rest;
    } else {
      var front := behind[..|behind| - 1];
      assert behind[|behind| - 1] in behind;
      assert forall c <- front :: c in behind;
      assert (rest + behind)[..|rest + behind| - 1] == rest + front;
      DropTrailingAll(rest, front, p);
    }
  }

  /** Trimming leaves a text with unmatched ends exactly where it is wrapped in matched characters only. */
  lemma TrimExactly(s: string, core: string, p: char -> bool)
    requires core != "" && !p(core[0]) && !p(core[|core| - 1])
    ensures Trim(s, p) == core <==> exists before, behind :: Wraps(s, before, core, behind, p)
  {
    if Trim(s, p) == core {
      var before := DropLeadingFacts(s, p);
      var behind := DropTrailingFacts(DropLeading(s, p), p);
      assert before + (core + behind) == before + core + behind;
      assert Wraps(s, before, core, behind, p);
    }
    if before, behind :| Wraps(s, before, core, behind, p) {
      assert before + core + behind == before + (core + behind);
      assert (core + behind)[0] == core[0];
      DropLeadingAll(before, core + behind, p);
      DropTrailingAll(core, behind, p);
    }
  }

  // ----- The memory summarizer -----

  function IndexOfEquals(s: string): (i: nat)
    ensures i <= |s| && '=' !in s[..i]
    ensures i < |s| ==> s[i] == '='
  {
    if s == "" || s[0] == '=' then 0 else 1 + IndexOfEquals(s[1..])
  }

  /** A config override that selects the memory provider. */
  predicate SelectsMemoryProvider(value: string) {
    var split := IndexOfEquals(value);
    && split < |value|
    && Trim(value[..split], IsWhitespace) == PROVIDER_KEY
    && Trim(Trim(value[split + 1..], IsWhitespace), IsQuoteMark) == MEMORY_PROVIDER
  }

  /** Such an override is the key and the provider, spaced in any way and the provider quoted in any way. */
  ghost predicate SpelledOut(
    value: string, keyBefore: string, keyBehind: string, spaceBefore: string, quotesBefore: string,
    quotesBehind: string, spaceBehind: string)
  {
    && value == (keyBefore + PROVIDER_KEY + keyBehind) + "="
                + (spaceBefore + (quotesBefore + MEMORY_PROVIDER + quotesBehind) + spaceBehind)
    && All(keyBefore, IsWhitespace) && All(keyBehind, IsWhitespace)
    && All(spaceBefore, IsWhitespace) && All(spaceBehind, IsWhitespace)
    && All(quotesBefore, IsQuoteMark) && All(quotesBehind, IsQuoteMark)
  }

  lemma {:induction false} SplitAtEquals(key: string, rest: string)
    requires '=' !in key
    ensures IndexOfEquals(key + "=" + rest) == |key|
  {
    if key != "" {
      SplitAtEquals(key[1..], rest);
      assert (key + "=" + rest)[1..] == key[1..] + "=" + rest;
    }
  }

  lemma Ends()
    ensures PROVIDER_KEY != "" && '=' !in PROVIDER_KEY
    ensures !IsWhitespace(PROVIDER_KEY[0]) && !IsWhitespace(PROVIDER_KEY[|PROVIDER_KEY| - 1])
    ensures MEMORY_PROVIDER != "" && !IsQuoteMark(MEMORY_PROVIDER[0])
    ensures !IsQuoteMark(MEMORY_PROVIDER[|MEMORY_PROVIDER| - 1])
    ensures !IsWhitespace(MEMORY_PROVIDER[0]) && !IsWhitespace(MEMORY_PROVIDER[|MEMORY_PROVIDER| - 1])
    ensures forall c :: IsQuoteMark(c) ==> !IsWhitespace(c)
  {
  }

  /** Quoted text has no white space at its ends. */
  lemma QuotedEnds(quotesBefore: string, quotesBehind: string)
    requires All(quotesBefore, IsQuoteMark) && All(quotesBehind, IsQuoteMark)
    ensures var quoted := quotesBefore + MEMORY_PROVIDER + quotesBehind;
            quoted != "" && !IsWhitespace(quoted[0]) && !IsWhitespace(quoted[|quoted| - 1])
  {
    Ends();
    var quoted := quotesBefore + MEMORY_PROVIDER + quotesBehind;
    assert quoted[0] == if quotesBefore != "" then quotesBefore[0] else MEMORY_PROVIDER[0];
    assert quoted[|quoted| - 1]
        == if quotesBehind != "" then quotesBehind[|quotesBehind| - 1] else MEMORY_PROVIDER[|MEMORY_PROVIDER| - 1];
    assert quotesBefore != "" ==> quotesBefore[0] in quotesBefore;
    assert quotesBehind != "" ==> quotesBehind[|quotesBehind| - 1] in quotesBehind;
  }

  lemma MemoryProviderExactly(value: string)
    ensures SelectsMemoryProvider(value)
            <==> exists a, b, c, d, e, f :: SpelledOut(value, a, b, c, d, e, f)
  {
    Ends();
    hide PROVIDER_KEY, MEMORY_PROVIDER, IsWhitespace, IsQuoteMark, Trim, All;
    if SelectsMemoryProvider(value) {
      var split := IndexOfEquals(value);
      var quoted := Trim(value[split + 1..], IsWhitespace);
      TrimExactly(value[..split], PROVIDER_KEY, IsWhitespace);
      var a, b :| Wraps(value[..split], a, PROVIDER_KEY, b, IsWhitespace);
      TrimExactly(quoted, MEMORY_PROVIDER, IsQuoteMark);
      var d, e :| Wraps(quoted, d, MEMORY_PROVIDER, e, IsQuoteMark);
      QuotedEnds(d, e);
      TrimExactly(value[split + 1..], quoted, IsWhitespace);
      var c, f :| Wraps(value[split + 1..], c, quoted, f, IsWhitespace);
      assert value == value[..split] + "=" + value[split + 1..];
      assert SpelledOut(value, a, b, c, d, e, f);
    }
    if a, b, c, d, e, f :| SpelledOut(value, a, b, c, d, e, f) {
      SpelledOutSelects(value, a, b, c, d, e, f);
    }
  }

  lemma SpelledOutSelects(value: string, a: string, b: string, c: string, d: string, e: string, f: string)
    requires SpelledOut(value, a, b, c, d, e, f)
    ensures SelectsMemoryProvider(value)
  {
    Ends();
    var key, quoted := a + PROVIDER_KEY + b, d + MEMORY_PROVIDER + e;
    NoEqualsInSpace(a);
    NoEqualsInSpace(b);
    hide PROVIDER_KEY, MEMORY_PROVIDER, IsWhitespace, IsQuoteMark, Trim, All;
    var rest := c + quoted + f;
    SplitAtEquals(key, rest);
    assert value[..|key|] == key && value[|key| + 1..] == rest;
    assert Wraps(key, a, PROVIDER_KEY, b, IsWhitespace);
    TrimExactly(key, PROVIDER_KEY, IsWhitespace);
    QuotedEnds(d, e);
    assert Wraps(rest, c, quoted, f, IsWhitespace);
    TrimExactly(rest, quoted, IsWhitespace);
    assert Wraps(quoted, d, MEMORY_PROVIDER, e, IsQuoteMark);
    TrimExactly(quoted, MEMORY_PROVIDER, IsQuoteMark);
  }

  lemma NoEqualsInSpace(s: string)
    requires All(s, IsWhitespace)
    ensures '=' !in s
  {
  }

  /** The override given in the argument itself. */
  function InlineConfig(text: string): Option<string> {
    var short := StripPrefix(text, "-c=");
    if short.Some? then short else StripPrefix(text, "--config=")
  }

  lemma InlineConfigExactly(text: string, value: string)
    ensures InlineConfig(text) == Some(value) <==> text == "-c=" + value || text == "--config=" + value
  {
    StripPrefixExactly(text, "-c=", value);
    StripPrefixExactly(text, "--config=", value);
    if "-c=" <= text {
      assert text[1] == 'c' && ("--config=" + value)[1] == '-';
    }
  }

  lemma StripPrefixExactly(text: string, prefix: string, value: string)
    ensures StripPrefix(text, prefix) == Some(value) <==> text == prefix + value
    ensures StripPrefix(text, prefix).Some? <==> prefix <= text
  {
    if prefix <= text {
      assert text == prefix + text[|prefix|..];
    }
    if text == prefix + value {
      assert text[|prefix|..] == value && prefix <= text;
    }
  }

  /** Some config override among the arguments up to the first that is not Unicode selects the memory provider. The scan
      knows no other options, so it takes the value of one for an argument. */
  predicate IsSkysight(arguments: seq<Argument>)
    decreases |arguments|
  {
    if arguments == [] || arguments[0].Undecodable? then false
    else
      var text := arguments[0].text;
      if text == "-c" || text == "--config" then
        || (|arguments| > 1 && arguments[1].Unicode? && SelectsMemoryProvider(arguments[1].text))
        || IsSkysight(From(arguments, 2))
      else
        || (InlineConfig(text).Some? && SelectsMemoryProvider(InlineConfig(text).value))
        || IsSkysight(arguments[1..])
  }

  lemma SkysightSteps(arguments: seq<Argument>, index: nat)
    ensures index >= |arguments| ==> !IsSkysight(From(arguments, index))
    ensures index < |arguments| ==>
              IsSkysight(From(arguments, index))
              == if arguments[index].Undecodable? then false
                 else
                   var text := arguments[index].text;
                   if text == "-c" || text == "--config" then
                     || (index + 1 < |arguments| && arguments[index + 1].Unicode?
                         && SelectsMemoryProvider(arguments[index + 1].text))
                     || IsSkysight(From(arguments, index + 2))
                   else
                     || (InlineConfig(text).Some? && SelectsMemoryProvider(InlineConfig(text).value))
                     || IsSkysight(From(arguments, index + 1))
  {
    hide SelectsMemoryProvider, InlineConfig;
    if index < |arguments| {
      assert From(arguments, index)[1..] == From(arguments, index + 1);
      assert From(From(arguments, index), 2) == From(arguments, index + 2);
    }
  }

  method IsSkysightMemoryAppServer(arguments: seq<Argument>) returns (skysight: bool)
    ensures skysight <==> IsSkysight(arguments)
  {
    hide IsSkysight, SelectsMemoryProvider, InlineConfig, From;
    var index := 0;
    FromStart(arguments);
    while index < |arguments|
      invariant IsSkysight(From(arguments, index)) == IsSkysight(arguments)
      decreases |arguments| - index
    {
      SkysightSteps(arguments, index);
      if arguments[index].Undecodable? {
        return false;
      }
      var argument := arguments[index].text;
      var configValue: Option<string>;
      if argument == "-c" || argument == "--config" {
        index := index + 1;
        configValue := if index < |arguments| && arguments[index].Unicode? then Some(arguments[index].text) else None;
      } else {
        configValue := InlineConfig(argument);
      }
      if configValue.Some? && SelectsMemoryProvider(configValue.value) {
        return true;
      }
      index := index + 1;
    }
    SkysightSteps(arguments, index);
    skysight := false;
  }

  lemma FromStart(arguments: seq<Argument>)
    ensures From(arguments, 0) == arguments
  {
  }

  // ----- Overrides as they are written -----

  /** An argument on its own, or a config option with its value in the next argument. */
  datatype Token = Plain(text: string) | Override(option: string, value: string)

  predicate WellSpelled(tokens: seq<Token>) {
    forall token <- tokens ::
      if token.Plain? then token.text != "-c" && token.text != "--config"
      else token.option == "-c" || token.option == "--config"
  }

  function Written(tokens: seq<Token>): seq<Argument> {
    if tokens == [] then []
    else
      (if tokens[0].Plain? then [Unicode(tokens[0].text)]
       else [Unicode(tokens[0].option), Unicode(tokens[0].value)]) + Written(tokens[1..])
  }

  /** The token sets some configuration value. */
  function Configures(token: Token): Option<string> {
    if token.Override? then Some(token.value) else InlineConfig(token.text)
  }

  predicate SelectsMemory(token: Token) {
    Configures(token).Some? && SelectsMemoryProvider(Configures(token).value)
  }

  /** An invocation belongs to the summarizer exactly when one of its config overrides, in either notation and anywhere in
      it, selects the memory provider. */
  lemma {:induction false} SkysightExactly(tokens: seq<Token>)
    requires WellSpelled(tokens)
    ensures IsSkysight(Written(tokens)) <==> exists token <- tokens :: SelectsMemory(token)
  {
    hide SelectsMemoryProvider, InlineConfig;
    if tokens != [] {
      var head, rest := tokens[0], tokens[1..];
      assert head in tokens && forall token <- rest :: token in tokens;
      assert tokens == [head] + rest;
      SkysightExactly(rest);
      if head.Plain? {
        WrittenPlain(head, rest, Written(tokens));
      } else {
        WrittenOverride(head, rest, Written(tokens));
      }
    }
  }

  lemma WrittenPlain(head: Token, rest: seq<Token>, written: seq<Argument>)
    requires head.Plain? && head.text != "-c" && head.text != "--config"
    requires written == [Unicode(head.text)] + Written(rest)
    ensures IsSkysight(written) <==> SelectsMemory(head) || IsSkysight(Written(rest))
  {
    hide SelectsMemoryProvider, InlineConfig;
    assert written[1..] == Written(rest);
  }

  lemma WrittenOverride(head: Token, rest: seq<Token>, written: seq<Argument>)
    requires head.Override? && (head.option == "-c" || head.option == "--config")
    requires written == [Unicode(head.option), Unicode(head.value)] + Written(rest)
    ensures IsSkysight(written) <==> SelectsMemory(head) || IsSkysight(Written(rest))
  {
    hide SelectsMemoryProvider, InlineConfig;
    assert From(written, 2) == Written(rest);
  }

  // ----- Routing -----

  /** A named originator other than Desktop. */
  predicate IsAuxiliary(originator: Option<Argument>) {
    originator.Some? && originator.value != Unicode("") && originator.value != Unicode(DESKTOP_ORIGINATOR)
  }

  /** Auxiliary is whoever shows a name, and not Desktop's. */
  lemma AuxiliaryExactly(originator: Option<Argument>)
    ensures IsAuxiliary(originator) <==>
              originator.Some? && Shown(originator.value) != "" && Shown(originator.value) != "Codex Desktop"
  {
    if originator.Some? && originator.value.Undecodable? {
      assert REPLACEMENT in Shown(originator.value);
      assert REPLACEMENT !in "Codex Desktop";
    }
  }

  /** The Host Runtime serves exactly the invocations that its grammar accepts, that no auxiliary service started, and
      that do not select the memory provider. */
  method ShouldStartHostRuntime(arguments: seq<Argument>, internalOriginator: Option<Argument>) returns (start: bool)
    ensures start <==>
              HostSettings(arguments).Some? && !IsAuxiliary(internalOriginator) && !IsSkysight(arguments)
  {
    hide AppServerIndex, IsSkysight, IsAuxiliary, Settings;
    var appServer := AppServerSubcommandIndex(arguments);
    if appServer.None? {
      return false;
    }
    var skysight := IsSkysightMemoryAppServer(arguments);
    if IsAuxiliary(internalOriginator) || skysight {
      return false;
    }
    start := AcceptsHostOptions(arguments, appServer.value + 1);
  }
}
