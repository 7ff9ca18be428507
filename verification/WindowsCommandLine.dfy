/** The command line handed to Windows for a list of arguments, and the list a Windows program reads back
    (crates/platform/src/windows_desktop.rs:277-310). */
module WindowsCommandLine {

  /** A Windows string as its code points. Surrogate code points stand for unpaired surrogates. */
  type CodePoint = c: nat | c <= 0x10_FFFF
  type Text = seq<CodePoint>

  const TAB: CodePoint := 9
  const SPACE: CodePoint := 32
  const QUOTE: CodePoint := 34
  const BACKSLASH: CodePoint := 92
  const REPLACEMENT: CodePoint := 0xFFFD

  predicate IsSeparator(c: CodePoint) {
    c == SPACE || c == TAB
  }

  predicate IsUnicode(text: Text) {
    forall c <- text :: !(0xD800 <= c <= 0xDFFF)
  }

  /** The text with every unpaired surrogate replaced. */
  function Lossy(text: Text): (lossy: Text)
    ensures |lossy| == |text|
  {
    seq(|text|, i requires 0 <= i < |text| => if 0xD800 <= text[i] <= 0xDFFF then REPLACEMENT else text[i])
  }

  predicate NeedsQuotes(argument: Text) {
    argument == [] || exists c <- argument :: IsSeparator(c) || c == QUOTE
  }

  function Backslashes(n: nat): (run: Text)
    ensures |run| == n && forall c <- run :: c == BACKSLASH
  {
    seq(n, i => BACKSLASH)
  }

  // ----- Quoting -----

  /** What follows the opening quote for the rest `value` of an argument, with `pending` backslashes read before it:
      the closing quote is not part of it. */
  function Escaped(value: Text, pending: nat): Text {
    if value == [] then Backslashes(2 * pending)
    else if value[0] == BACKSLASH then Escaped(value[1..], pending + 1)
    else if value[0] == QUOTE then Backslashes(2 * pending + 1) + [QUOTE] + Escaped(value[1..], 0)
    else Backslashes(pending) + [value[0]] + Escaped(value[1..], 0)
  }

  function Quoted(argument: Text): Text {
    if NeedsQuotes(argument) then [QUOTE] + Escaped(Lossy(argument), 0) + [QUOTE] else argument
  }

  method QuoteWindowsArgument(argument: Text) returns (output: Text)
    ensures output == Quoted(argument)
  {
    hide Lossy, Backslashes;
    var value := Lossy(argument);
    LossyKeepsSyntax(argument);
    if value != [] && forall c <- value :: !IsSeparator(c) && c != QUOTE {
      return argument;
    }
    output := [QUOTE];
    var backslashes := 0;
    for i := 0 to |value|
      invariant [QUOTE] + Escaped(value, 0) == output + Escaped(value[i..], backslashes)
    {
      var character := value[i];
      assert value[i..][0] == character && value[i..][1..] == value[i + 1..];
      if character == BACKSLASH {
        backslashes := backslashes + 1;
      } else if character == QUOTE {
        output := output + Backslashes(backslashes * 2 + 1);
        output := output + [QUOTE];
        backslashes := 0;
      } else {
        output := output + Backslashes(backslashes);
        output := output + [character];
        backslashes := 0;
      }
    }
    output := output + Backslashes(backslashes * 2);
    output := output + [QUOTE];
  }

  function CommandLine(arguments: seq<Text>): Text {
    if arguments == [] then []
    else if |arguments| == 1 then Quoted(arguments[0])
    else Quoted(arguments[0]) + [SPACE] + CommandLine(arguments[1..])
  }

  // ----- How a Windows program reads its arguments -----

  /** The number of backslashes `line` starts with. */
  function LeadingBackslashes(line: Text): (n: nat)
    ensures n <= |line|
    ensures forall i :: 0 <= i < n ==> line[i] == BACKSLASH
    ensures n < |line| ==> line[n] != BACKSLASH
  {
    if line != [] && line[0] == BACKSLASH then 1 + LeadingBackslashes(line[1..]) else 0
  }

  /** One argument and the text behind it. Backslashes before a quote count in pairs, an odd one makes the quote
      literal. Runtimes differ on a doubled quote inside quotes: where `doubling`, it is one literal quote. */
  function NextArgument(line: Text, inQuotes: bool, doubling: bool): (result: (Text, Text))
    ensures |result.1| <= |line|
    ensures line != [] && (inQuotes || !IsSeparator(line[0])) ==> |result.1| < |line|
    decreases |line|
  {
    var n := LeadingBackslashes(line);
    if n < |line| && line[n] == QUOTE then
      if n % 2 == 1 then
        var (word, rest) := NextArgument(line[n + 1..], inQuotes, doubling);
        (Backslashes(n / 2) + [QUOTE] + word, rest)
      else if doubling && inQuotes && n + 1 < |line| && line[n + 1] == QUOTE then
        var (word, rest) := NextArgument(line[n + 2..], inQuotes, doubling);
        (Backslashes(n / 2) + [QUOTE] + word, rest)
      else
        var (word, rest) := NextArgument(line[n + 1..], !inQuotes, doubling);
        (Backslashes(n / 2) + word, rest)
    else if n > 0 then
      var (word, rest) := NextArgument(line[n..], inQuotes, doubling);
      (Backslashes(n) + word, rest)
    else if line == [] || (IsSeparator(line[0]) && !inQuotes) then
      ([], line)
    else
      var (word, rest) := NextArgument(line[1..], inQuotes, doubling);
      ([line[0]] + word, rest)
  }

  function Split(line: Text, doubling: bool): seq<Text>
    decreases |line|
  {
    if line == [] then []
    else if IsSeparator(line[0]) then Split(line[1..], doubling)
    else
      var (word, rest) := NextArgument(line, false, doubling);
      [word] + Split(rest, doubling)
  }

  // ----- Reading undoes printing -----

  predicate AtBoundary(rest: Text) {
    rest == [] || IsSeparator(rest[0])
  }

  lemma LossyKeepsSyntax(text: Text)
    ensures forall c :: IsSeparator(c) || c == QUOTE ==> (c in text <==> c in Lossy(text))
    ensures NeedsQuotes(Lossy(text)) == NeedsQuotes(text)
    ensures Lossy(text) == text <==> IsUnicode(text)
    ensures IsUnicode(Lossy(text))
  {
    var lossy := Lossy(text);
    forall c | IsSeparator(c) || c == QUOTE ensures c in text <==> c in lossy {
      if c in text {
        var i :| 0 <= i < |text| && text[i] == c;
        assert lossy[i] == c;
      }
    }
    if IsUnicode(text) {
      forall i | 0 <= i < |text| ensures lossy[i] == text[i] {
        assert text[i] in text;
      }
    }
  }

  lemma LeadingRun(n: nat, tail: Text)
    requires tail == [] || tail[0] != BACKSLASH
    ensures LeadingBackslashes(Backslashes(n) + tail) == n
    ensures LeadingBackslashes(tail) == 0
  {
    var line := Backslashes(n) + tail;
    var m := LeadingBackslashes(line);
    assert forall i :: 0 <= i < n ==> line[i] == BACKSLASH;
    assert tail != [] ==> line[n] == tail[0];
  }

  /** A run of backslashes that no quote follows stands for itself. */
  lemma ReadRun(n: nat, tail: Text, inQuotes: bool, doubling: bool)
    requires tail == [] || (tail[0] != BACKSLASH && tail[0] != QUOTE)
    ensures var (word, rest) := NextArgument(tail, inQuotes, doubling);
            NextArgument(Backslashes(n) + tail, inQuotes, doubling) == (Backslashes(n) + word, rest)
  {
    hide LeadingBackslashes;
    var line := Backslashes(n) + tail;
    var (word, rest) := NextArgument(tail, inQuotes, doubling);
    LeadingRun(n, tail);
    assert line[n..] == tail;
    assert tail != [] ==> line[n] == tail[0];
    if n == 0 {
      assert line == tail;
      assert Backslashes(0) + word == word;
    }
  }

  lemma ReadChar(c: CodePoint, tail: Text, inQuotes: bool, doubling: bool)
    requires c != BACKSLASH && c != QUOTE && (inQuotes || !IsSeparator(c))
    ensures var (word, rest) := NextArgument(tail, inQuotes, doubling);
            NextArgument([c] + tail, inQuotes, doubling) == ([c] + word, rest)
  {
    var line := [c] + tail;
    assert line[1..] == tail;
  }

  /** A run of backslashes and a quote, before what follows them: the quote is literal where the run is odd, and
      otherwise opens or closes a quoted part. */
  lemma ReadQuoteRun(run: nat, tail: Text, inQuotes: bool, doubling: bool)
    requires doubling && inQuotes && run % 2 == 0 ==> tail == [] || tail[0] != QUOTE
    ensures var (word, rest) := NextArgument(tail, if run % 2 == 1 then inQuotes else !inQuotes, doubling);
            NextArgument(Backslashes(run) + ([QUOTE] + tail), inQuotes, doubling)
            == (Backslashes(run / 2) + (if run % 2 == 1 then [QUOTE] else []) + word, rest)
  {
    hide LeadingBackslashes;
    var line := Backslashes(run) + ([QUOTE] + tail);
    LeadingRun(run, [QUOTE] + tail);
    assert line[run] == QUOTE && line[run + 1..] == tail;
    assert tail != [] ==> line[run + 1] == tail[0];
    assert Backslashes(run / 2) + [] == Backslashes(run / 2);
  }

  lemma ReadBoundary(rest: Text, doubling: bool)
    requires AtBoundary(rest)
    ensures NextArgument(rest, false, doubling) == ([], rest)
  {
  }

  lemma EscapedSteps(value: Text, pending: nat, closing: Text)
    ensures value == [] ==> Escaped(value, pending) == Backslashes(2 * pending)
    ensures value != [] && value[0] == BACKSLASH ==> Escaped(value, pending) == Escaped(value[1..], pending + 1)
    ensures value != [] && value[0] == QUOTE ==>
              Escaped(value, pending) + closing
              == Backslashes(2 * pending + 1) + ([QUOTE] + (Escaped(value[1..], 0) + closing))
    ensures value != [] && value[0] != BACKSLASH && value[0] != QUOTE ==>
              Escaped(value, pending) + closing
              == Backslashes(pending) + ([value[0]] + (Escaped(value[1..], 0) + closing))
  {
  }

  /** One character that is not a backslash, as the printer wrote it: the reader has it and the run before it back. */
  lemma ReadEscapedChar(value: Text, pending: nat, closing: Text, doubling: bool)
    requires value != [] && value[0] != BACKSLASH
    ensures var (word, rest) := NextArgument(Escaped(value[1..], 0) + closing, true, doubling);
            NextArgument(Escaped(value, pending) + closing, true, doubling)
            == (Backslashes(pending) + [value[0]] + word, rest)
  {
    hide NextArgument, Escaped;
    var tail := Escaped(value[1..], 0) + closing;
    EscapedSteps(value, pending, closing);
    if value[0] == QUOTE {
      ReadQuoteRun(2 * pending + 1, tail, true, doubling);
    } else {
      var (word, rest) := NextArgument(tail, true, doubling);
      ReadRun(pending, [value[0]] + tail, true, doubling);
      ReadChar(value[0], tail, true, doubling);
      assert Backslashes(pending) + ([value[0]] + word) == Backslashes(pending) + [value[0]] + word;
    }
  }

  /** Inside quotes the reader recovers the value, with the backslashes that were still pending before it. */
  lemma {:induction false} ReadEscaped(value: Text, pending: nat, rest: Text, doubling: bool)
    requires AtBoundary(rest)
    ensures NextArgument(Escaped(value, pending) + ([QUOTE] + rest), true, doubling)
            == (Backslashes(pending) + value, rest)
    decreases |value|
  {
    hide NextArgument, Escaped;
    var closing := [QUOTE] + rest;
    if value == [] {
      EscapedSteps(value, pending, closing);
      ReadQuoteRun(2 * pending, rest, true, doubling);
      ReadBoundary(rest, doubling);
      assert Backslashes(pending) + [] + [] == Backslashes(pending) + value;
    } else if value[0] == BACKSLASH {
      EscapedSteps(value, pending, closing);
      ReadEscaped(value[1..], pending + 1, rest, doubling);
      assert Backslashes(pending + 1) + value[1..] == Backslashes(pending) + value;
    } else {
      ReadEscaped(value[1..], 0, rest, doubling);
      ReadEscapedChar(value, pending, closing, doubling);
      assert Backslashes(pending) + [value[0]] + (Backslashes(0) + value[1..]) == Backslashes(pending) + value;
    }
  }

  /** An argument printed without quotes is read back as it is. */
  lemma {:induction false} ReadBare(argument: Text, rest: Text, doubling: bool)
    requires AtBoundary(rest)
    requires forall c <- argument :: !IsSeparator(c) && c != QUOTE
    ensures NextArgument(argument + rest, false, doubling) == (argument, rest)
    decreases |argument|
  {
    hide NextArgument, LeadingBackslashes;
    var n := LeadingBackslashes(argument);
    var run := Backslashes(n);
    assert argument == run + argument[n..];
    if n == |argument| {
      ReadRun(n, rest, false, doubling);
      ReadBoundary(rest, doubling);
      assert argument[n..] == [] && run == argument;
      assert run + [] == argument;
    } else {
      var c, behind := argument[n], argument[n + 1..];
      assert c in argument;
      assert forall d <- behind :: d in argument;
      ReadBare(behind, rest, doubling);
      ReadChar(c, behind + rest, false, doubling);
      ReadRun(n, [c] + (behind + rest), false, doubling);
      assert run + ([c] + (behind + rest)) == argument + rest;
      assert run + ([c] + behind) == argument;
    }
  }

  /** What a reader recovers of one argument: quoting goes through the lossy text. */
  function Received(argument: Text): Text {
    if NeedsQuotes(argument) then Lossy(argument) else argument
  }

  lemma ReadQuoted(argument: Text, rest: Text, doubling: bool)
    requires AtBoundary(rest)
    ensures NextArgument(Quoted(argument) + rest, false, doubling) == (Received(argument), rest)
    ensures Quoted(argument) != [] && !IsSeparator(Quoted(argument)[0])
  {
    hide NextArgument, Escaped, LeadingBackslashes;
    if NeedsQuotes(argument) {
      var value := Lossy(argument);
      var inner := Escaped(value, 0) + ([QUOTE] + rest);
      ReadEscaped(value, 0, rest, doubling);
      ReadQuoteRun(0, inner, false, doubling);
      assert Backslashes(0) + ([QUOTE] + inner) == Quoted(argument) + rest;
      assert Backslashes(0) + [] + (Backslashes(0) + value) == value;
    } else {
      ReadBare(argument, rest, doubling);
      assert argument[0] in argument;
    }
  }

  function ReceivedList(arguments: seq<Text>): (received: seq<Text>)
    ensures |received| == |arguments|
    ensures forall i :: 0 <= i < |arguments| ==> received[i] == Received(arguments[i])
  {
    if arguments == [] then [] else [Received(arguments[0])] + ReceivedList(arguments[1..])
  }

  /** Splitting a printed command line gives the arguments back, whichever way the reader treats doubled quotes. */
  lemma {:induction false} SplitUndoesCommandLine(arguments: seq<Text>, doubling: bool)
    ensures Split(CommandLine(arguments), doubling) == ReceivedList(arguments)
  {
    hide NextArgument, Quoted, Received;
    if arguments != [] {
      var first, rest := arguments[0], arguments[1..];
      SplitUndoesCommandLine(rest, doubling);
      var tail: Text := if rest == [] then [] else [SPACE] + CommandLine(rest);
      ReadQuoted(first, tail, doubling);
      var line := CommandLine(arguments);
      assert line == Quoted(first) + tail;
      assert line[0] == Quoted(first)[0];
      if rest != [] {
        assert tail[1..] == CommandLine(rest);
      }
      assert Split(tail, doubling) == ReceivedList(rest);
    }
  }

  /** The argument list survives exactly when every argument that has to be quoted is valid Unicode. */
  lemma CommandLineRoundTrip(arguments: seq<Text>, doubling: bool)
    ensures Split(CommandLine(arguments), doubling) == arguments
            <==> forall a <- arguments :: NeedsQuotes(a) ==> IsUnicode(a)
  {
    SplitUndoesCommandLine(arguments, doubling);
    var received := ReceivedList(arguments);
    forall i | 0 <= i < |arguments|
      ensures received[i] == arguments[i] <==> (NeedsQuotes(arguments[i]) ==> IsUnicode(arguments[i]))
    {
      LossyKeepsSyntax(arguments[i]);
    }
    if received == arguments {
      forall a <- arguments ensures NeedsQuotes(a) ==> IsUnicode(a) {
        var i :| 0 <= i < |arguments| && arguments[i] == a;
        assert received[i] == arguments[i];
      }
    }
    if forall a <- arguments :: NeedsQuotes(a) ==> IsUnicode(a) {
      forall i | 0 <= i < |arguments| ensures received[i] == arguments[i] {
        assert arguments[i] in arguments;
      }
    }
  }

  /** An argument is printed as it is exactly when it has something in it and no space, tab or quote. */
  lemma PrintedAsIsExactly(argument: Text)
    ensures Quoted(argument) == argument <==> argument != [] && forall c <- argument :: c != 32 && c != 9 && c != 34
  {
    if NeedsQuotes(argument) {
      EscapedIsLonger(Lossy(argument), 0);
      assert |Quoted(argument)| > |argument|;
    }
  }

  /** Arguments are joined by single spaces. */
  lemma {:induction false} JoinedBySpaces(arguments: seq<Text>, last: Text)
    requires arguments != []
    ensures CommandLine(arguments + [last]) == CommandLine(arguments) + [32] + Quoted(last)
  {
    hide Quoted;
    var whole := arguments + [last];
    if |arguments| == 1 {
      assert whole[1..] == [last];
    } else {
      JoinedBySpaces(arguments[1..], last);
      assert whole[1..] == arguments[1..] + [last];
      var first, rest := Quoted(arguments[0]) + [SPACE], CommandLine(arguments[1..]);
      assert first + (rest + [32] + Quoted(last)) == first + rest + [32] + Quoted(last);
    }
  }

  /** What replaces an unpaired surrogate, and what stays. */
  lemma LossyAt(text: Text, i: nat)
    requires i < |text|
    ensures Lossy(text)[i] == if 0xD800 <= text[i] <= 0xDFFF then 0xFFFD else text[i]
  {
  }

  lemma {:induction false} EscapedIsLonger(value: Text, pending: nat)
    ensures |Escaped(value, pending)| >= |value| + pending
    decreases |value|
  {
    if value != [] {
      EscapedIsLonger(value[1..], if value[0] == BACKSLASH then pending + 1 else 0);
    }
  }

  // ----- Package activation: the whole line goes through the lossy text once more -----

  lemma LossyConcat(a: Text, b: Text)
    ensures Lossy(a + b) == Lossy(a) + Lossy(b)
  {
  }

  lemma {:induction false} EscapedIsUnicode(value: Text, pending: nat)
    requires IsUnicode(value)
    ensures IsUnicode(Escaped(value, pending))
    decreases |value|
  {
    if value != [] {
      assert value[0] in value;
      assert forall c <- value[1..] :: c in value;
      EscapedIsUnicode(value[1..], if value[0] == BACKSLASH then pending + 1 else 0);
    }
  }

  lemma LossyQuoted(argument: Text)
    ensures Lossy(Quoted(argument)) == Quoted(Lossy(argument))
  {
    var lossy := Lossy(argument);
    LossyKeepsSyntax(argument);
    LossyKeepsSyntax(lossy);
    if NeedsQuotes(argument) {
      EscapedIsUnicode(lossy, 0);
      LossyKeepsSyntax(Quoted(argument));
    }
  }

  function LossyList(arguments: seq<Text>): (lossy: seq<Text>)
    ensures |lossy| == |arguments|
    ensures forall i :: 0 <= i < |arguments| ==> lossy[i] == Lossy(arguments[i])
  {
    if arguments == [] then [] else [Lossy(arguments[0])] + LossyList(arguments[1..])
  }

  lemma {:induction false} LossyCommandLine(arguments: seq<Text>)
    ensures Lossy(CommandLine(arguments)) == CommandLine(LossyList(arguments))
  {
    hide Quoted, Lossy;
    if arguments != [] {
      var first, rest := arguments[0], arguments[1..];
      LossyQuoted(first);
      if rest != [] {
        LossyCommandLine(rest);
        LossyConcat(Quoted(first) + [SPACE], CommandLine(rest));
        LossyConcat(Quoted(first), [SPACE]);
        LossyKeepsSyntax([SPACE]);
      }
    }
  }

  /** An activated package receives the lossy text of every argument, in order and in number. */
  lemma ActivationDeliversArguments(arguments: seq<Text>, doubling: bool)
    ensures Split(Lossy(CommandLine(arguments)), doubling) == LossyList(arguments)
  {
    var lossy := LossyList(arguments);
    LossyCommandLine(arguments);
    forall a <- lossy ensures IsUnicode(a) {
      var i :| 0 <= i < |lossy| && lossy[i] == a;
      LossyKeepsSyntax(arguments[i]);
    }
    CommandLineRoundTrip(lossy, doubling);
  }
}
