/** The owner record of the local Host Runtime lease as text
    (crates/shim/src/local_runtime_lease.rs:31-115 and 573-587). */
module OwnerRecords {
  import opened Sequences

  type U32 = n: nat | n < 0x1_0000_0000
  type U64 = n: nat | n < 0x1_0000_0000_0000_0000

  datatype OwnerRecord = OwnerRecord(
    processId: U32,
    processStartedAtMicros: U64,
    desktopProcessId: U32,
    childProcessId: Option<U32>,
    childProcessStartedAtMicros: Option<U64>)

  datatype VersionOneOwnerRecord = VersionOneOwnerRecord(
    processId: U32,
    desktopProcessId: U32,
    childProcessId: Option<U32>)

  datatype StoredOwnerRecord = Exact(owner: OwnerRecord) | VersionOne(legacy: VersionOneOwnerRecord)

  // ----- Numbers -----

  predicate IsDigit(c: char) {
    '0' <= c <= '9'
  }

  function ToDecimal(n: nat): string {
    if n < 10 then [('0' as int + n) as char] else ToDecimal(n / 10) + [('0' as int + n % 10) as char]
  }

  function DigitsValue(digits: string): nat
    requires forall c <- digits :: IsDigit(c)
  {
    if digits == "" then 0
    else
      assert IsDigit(digits[|digits| - 1]);
      10 * DigitsValue(digits[..|digits| - 1]) + (digits[|digits| - 1] as int - '0' as int)
  }

  /** Parsing of an unsigned integer: one optional plus sign, at least one ASCII digit, no overflow. */
  function ParseUnsigned(text: string, limit: nat): (parsed: Option<nat>)
    ensures parsed.Some? ==> parsed.value < limit
  {
    var digits := if text != "" && text[0] == '+' then text[1..] else text;
    if digits == "" || exists c <- digits :: !IsDigit(c) then None
    else if DigitsValue(digits) < limit then Some(DigitsValue(digits))
    else None
  }

  function ParseU32(text: string): Option<U32> {
    ParseUnsigned(text, 0x1_0000_0000)
  }

  function ParseU64(text: string): Option<U64> {
    ParseUnsigned(text, 0x1_0000_0000_0000_0000)
  }

  lemma {:induction false} DecimalFacts(n: nat)
    ensures ToDecimal(n) != ""
    ensures forall c <- ToDecimal(n) :: IsDigit(c)
    ensures DigitsValue(ToDecimal(n)) == n
  {
    if n >= 10 {
      DecimalFacts(n / 10);
      var text := ToDecimal(n);
      assert text[..|text| - 1] == ToDecimal(n / 10);
    } else {
      assert ToDecimal(n)[..0] == "";
    }
  }

  lemma DecimalParses(n: nat, limit: nat)
    requires n < limit
    ensures ParseUnsigned(ToDecimal(n), limit) == Some(n)
  {
    DecimalFacts(n);
    assert IsDigit(ToDecimal(n)[0]);
  }

  /** Decimal text is read back exactly as far as it fits, with or without a plus sign. */
  lemma DecimalsParseExactly(n: nat, limit: nat)
    ensures ParseUnsigned(ToDecimal(n), limit) == if n < limit then Some(n) else None
    ensures ParseUnsigned("+" + ToDecimal(n), limit) == if n < limit then Some(n) else None
  {
    DecimalFacts(n);
    assert IsDigit(ToDecimal(n)[0]);
    assert ("+" + ToDecimal(n))[1..] == ToDecimal(n);
  }

  // ----- Lines and fields -----

  function IndexOf(text: string, c: char): (i: nat)
    ensures i <= |text| && (i < |text| ==> text[i] == c)
    ensures forall j :: 0 <= j < i ==> text[j] != c
  {
    if text == "" || text[0] == c then 0 else 1 + IndexOf(text[1..], c)
  }

  function DropCarriageReturn(line: string): string {
    if line != "" && line[|line| - 1] == '\r' then line[..|line| - 1] else line
  }

  /** Lines end with a line feed, optionally preceded by a carriage return; the last one may lack its end. */
  function Lines(text: string): seq<string>
    decreases |text|
  {
    if text == "" then []
    else
      var end := IndexOf(text, '\n');
      if end == |text| then [text] else [DropCarriageReturn(text[..end])] + Lines(text[end + 1..])
  }

  /** The rest of the first line that starts with `name=`. */
  function FieldIn(lines: seq<string>, name: string): Option<string> {
    if lines == [] then None
    else if name + "=" <= lines[0] then Some(lines[0][|name| + 1..])
    else FieldIn(lines[1..], name)
  }

  function Field(text: string, name: string): Option<string> {
    FieldIn(Lines(text), name)
  }

  // ----- The codec -----

  function Line(name: string, value: string): string {
    name + "=" + value + "\n"
  }

  function OptionalDecimal(value: Option<nat>): string {
    if value.Some? then ToDecimal(value.value) else ""
  }

  function Encode(record: OwnerRecord): string {
    EncodeAs("1", record)
  }

  /** The record under some version. */
  function EncodeAs(version: string, record: OwnerRecord): string {
    Line("version", version)
    + (Line("process_id", ToDecimal(record.processId))
    + (Line("process_started_at_micros", ToDecimal(record.processStartedAtMicros))
    + (Line("desktop_process_id", ToDecimal(record.desktopProcessId))
    + (Line("child_process_id", OptionalDecimal(record.childProcessId))
    + (Line("child_process_started_at_micros", OptionalDecimal(record.childProcessStartedAtMicros))
    + "")))))
  }

  function FieldU32(text: string, name: string): Option<U32> {
    var value := Field(text, name);
    if value.None? then None else ParseU32(value.value)
  }

  function FieldU64(text: string, name: string): Option<U64> {
    var value := Field(text, name);
    if value.None? then None else ParseU64(value.value)
  }

  function Decode(text: string): Option<StoredOwnerRecord> {
    var version := Field(text, "version");
    var processId := FieldU32(text, "process_id");
    var desktopProcessId := FieldU32(text, "desktop_process_id");
    var childProcessId := FieldU32(text, "child_process_id");
    if version.None? || processId.None? || desktopProcessId.None? then None
    else if version.value == "1" && Field(text, "process_started_at_micros").None? then
      Some(VersionOne(VersionOneOwnerRecord(processId.value, desktopProcessId.value, childProcessId)))
    else if version.value != "2" && version.value != "1" then None
    else
      var childStart := FieldU64(text, "child_process_started_at_micros");
      var start := FieldU64(text, "process_started_at_micros");
      if childProcessId.Some? != childStart.Some? || start.None? then None
      else Some(Exact(OwnerRecord(processId.value, start.value, desktopProcessId.value, childProcessId, childStart)))
  }

  /** The reader released Shims use. */
  function DecodeReleasedVersionOne(text: string): Option<VersionOneOwnerRecord> {
    var processId := FieldU32(text, "process_id");
    var desktopProcessId := FieldU32(text, "desktop_process_id");
    if Field(text, "version") != Some("1") || processId.None? || desktopProcessId.None? then None
    else Some(VersionOneOwnerRecord(processId.value, desktopProcessId.value, FieldU32(text, "child_process_id")))
  }

  // ----- Reading back what was written -----

  /** Text that stays on its line. */
  predicate Plain(text: string) {
    '\n' !in text && '\r' !in text
  }

  lemma LinesCons(name: string, value: string, rest: string)
    requires Plain(name) && Plain(value)
    ensures Lines(Line(name, value) + rest) == [name + "=" + value] + Lines(rest)
  {
    var line := name + "=" + value;
    var text := Line(name, value) + rest;
    assert text == line + "\n" + rest;
    assert text[|line|] == '\n';
    forall j | 0 <= j < |line| ensures text[j] != '\n' && text[j] != '\r' {
      assert text[j] == line[j];
      assert line[j] in name || line[j] == '=' || line[j] in value;
    }
    assert IndexOf(text, '\n') == |line|;
    assert text[..|line|] == line && text[|line| + 1..] == rest;
    assert line[|line| - 1] == text[|line| - 1];
  }

  /** A line belongs to the field it names and to no other. */
  lemma {:induction false} IndexOfAbsent(text: string, c: char)
    requires c !in text
    ensures IndexOf(text, c) == |text|
  {
    if text != "" {
      IndexOfAbsent(text[1..], c);
    }
  }

  /** A line may also end with a carriage return before its line feed, and the last one with nothing. */
  lemma LinesEndings(line: string, rest: string)
    requires Plain(line)
    ensures Lines(line + "\r\n" + rest) == [line] + Lines(rest)
    ensures Lines(line) == if line == "" then [] else [line]
  {
    var text := line + "\r\n" + rest;
    var end := IndexOf(text, '\n');
    assert text[|line| + 1] == '\n' && text[|line|] == '\r';
    assert forall j :: 0 <= j < |line| ==> text[j] == line[j] && text[j] in line;
    assert end == |line| + 1;
    assert text[..end] == line + "\r" && text[end + 1..] == rest;
    assert DropCarriageReturn(line + "\r") == line;
    IndexOfAbsent(line, '\n');
  }

  lemma FieldPrefix(name: string, key: string, value: string)
    requires '=' !in name && '=' !in key
    ensures name + "=" <= key + "=" + value <==> name == key
    ensures (key + "=" + value)[|key| + 1..] == value
  {
    var prefix, line := name + "=", key + "=" + value;
    assert forall j :: 0 <= j < |key| ==> line[j] == key[j];
    assert forall j :: 0 <= j < |name| ==> prefix[j] == name[j];
    if prefix <= line {
      assert line[|name|] == prefix[|name|] == '=';
      assert line[|key|] == '=';
      assert !(|name| < |key|) && !(|key| < |name|);
      assert name == prefix[..|name|] == line[..|name|];
      assert key == line[..|key|];
    }
  }

  ghost predicate Named(keys: seq<string>) {
    && (forall k <- keys :: '=' !in k)
    && forall i, j :: 0 <= i < j < |keys| ==> keys[i] != keys[j]
  }

  function Assign(keys: seq<string>, values: seq<string>): (lines: seq<string>)
    requires |keys| == |values|
    ensures |lines| == |keys|
  {
    if keys == [] then [] else [keys[0] + "=" + values[0]] + Assign(keys[1..], values[1..])
  }

  lemma {:induction false} FieldOfAssign(keys: seq<string>, values: seq<string>, i: nat)
    requires |keys| == |values| && Named(keys) && i < |keys|
    ensures FieldIn(Assign(keys, values), keys[i]) == Some(values[i])
  {
    FieldPrefix(keys[i], keys[0], values[0]);
    assert Assign(keys, values)[1..] == Assign(keys[1..], values[1..]);
    if i > 0 {
      FieldOfAssign(keys[1..], values[1..], i - 1);
    }
  }

  function Keys(): seq<string> {
    ["version", "process_id", "process_started_at_micros", "desktop_process_id", "child_process_id",
     "child_process_started_at_micros"]
  }

  function Values(version: string, record: OwnerRecord): seq<string> {
    [version, ToDecimal(record.processId), ToDecimal(record.processStartedAtMicros), ToDecimal(record.desktopProcessId),
     OptionalDecimal(record.childProcessId), OptionalDecimal(record.childProcessStartedAtMicros)]
  }

  lemma DecimalIsPlain(value: Option<nat>)
    ensures Plain(OptionalDecimal(value))
  {
    if value.Some? {
      DecimalFacts(value.value);
    }
  }

  lemma {:induction false} LinesOfAll(keys: seq<string>, values: seq<string>)
    requires |keys| == |values|
    requires forall i :: 0 <= i < |keys| ==> Plain(keys[i]) && Plain(values[i])
    ensures Lines(Unlines(keys, values)) == Assign(keys, values)
  {
    if keys != [] {
      LinesCons(keys[0], values[0], Unlines(keys[1..], values[1..]));
      LinesOfAll(keys[1..], values[1..]);
    }
  }

  function Unlines(keys: seq<string>, values: seq<string>): string
    requires |keys| == |values|
  {
    if keys == [] then "" else Line(keys[0], values[0]) + Unlines(keys[1..], values[1..])
  }

  lemma EncodeIsUnlines(version: string, record: OwnerRecord)
    ensures EncodeAs(version, record) == Unlines(Keys(), Values(version, record))
  {
    var k, v := Keys(), Values(version, record);
    UnlinesFrom(k, v, 0);
    UnlinesFrom(k, v, 1);
    UnlinesFrom(k, v, 2);
    UnlinesFrom(k, v, 3);
    UnlinesFrom(k, v, 4);
    UnlinesFrom(k, v, 5);
    assert k[0..] == k && v[0..] == v;
  }

  lemma UnlinesFrom(keys: seq<string>, values: seq<string>, i: nat)
    requires |keys| == |values| && i < |keys|
    ensures Unlines(keys[i..], values[i..]) == Line(keys[i], values[i]) + Unlines(keys[i + 1..], values[i + 1..])
  {
    assert keys[i..][1..] == keys[i + 1..] && values[i..][1..] == values[i + 1..];
  }

  lemma EncodedField(version: string, record: OwnerRecord, i: nat)
    requires i < 6 && Plain(version)
    ensures Field(EncodeAs(version, record), Keys()[i]) == Some(Values(version, record)[i])
  {
    EncodeIsUnlines(version, record);
    DecimalIsPlain(Some(record.processId));
    DecimalIsPlain(Some(record.processStartedAtMicros));
    DecimalIsPlain(Some(record.desktopProcessId));
    DecimalIsPlain(record.childProcessId);
    DecimalIsPlain(record.childProcessStartedAtMicros);
    LinesOfAll(Keys(), Values(version, record));
    KeysAreNamed();
    FieldOfAssign(Keys(), Values(version, record), i);
  }

  lemma KeysAreNamed()
    ensures Named(Keys())
  {
    assert |Keys()[0]| == 7 && |Keys()[1]| == 10 && |Keys()[2]| == 25;
    assert |Keys()[3]| == 18 && |Keys()[4]| == 16 && |Keys()[5]| == 31;
  }

  lemma OptionalParses(value: Option<nat>, limit: nat)
    requires value.Some? ==> value.value < limit
    ensures ParseUnsigned(OptionalDecimal(value), limit) == value
  {
    if value.Some? {
      DecimalParses(value.value, limit);
    }
  }

  lemma EncodedFields(version: string, record: OwnerRecord)
    requires Plain(version)
    ensures var text := EncodeAs(version, record);
            && Field(text, "version") == Some(version)
            && FieldU32(text, "process_id") == Some(record.processId)
            && Field(text, "process_started_at_micros").Some?
            && FieldU64(text, "process_started_at_micros") == Some(record.processStartedAtMicros)
            && FieldU32(text, "desktop_process_id") == Some(record.desktopProcessId)
            && FieldU32(text, "child_process_id") == record.childProcessId
            && FieldU64(text, "child_process_started_at_micros") == record.childProcessStartedAtMicros
  {
    hide EncodeAs, Lines, FieldIn, ToDecimal, DigitsValue;
    EncodedField(version, record, 0);
    EncodedField(version, record, 1);
    EncodedField(version, record, 2);
    EncodedField(version, record, 3);
    EncodedField(version, record, 4);
    EncodedField(version, record, 5);
    DecimalParses(record.processId, 0x1_0000_0000);
    DecimalParses(record.processStartedAtMicros, 0x1_0000_0000_0000_0000);
    DecimalParses(record.desktopProcessId, 0x1_0000_0000);
    OptionalParses(record.childProcessId, 0x1_0000_0000);
    OptionalParses(record.childProcessStartedAtMicros, 0x1_0000_0000_0000_0000);
  }

  /** Under version 1, and under version 2 as development builds wrote it, a record is read back; under no other. */
  lemma VersionsReadExactly(version: string, record: OwnerRecord)
    requires Plain(version)
    ensures Decode(EncodeAs(version, record)) ==
            if (version == "1" || version == "2")
               && record.childProcessId.Some? == record.childProcessStartedAtMicros.Some?
            then Some(Exact(record)) else None
  {
    hide EncodeAs, Field, FieldU32, FieldU64;
    EncodedFields(version, record);
  }

  /** Decoding undoes encoding exactly for records whose child PID and child start time are both present or both
      absent; any other record is unreadable. */
  lemma RoundTrip(record: OwnerRecord)
    ensures Decode(Encode(record)) ==
            if record.childProcessId.Some? == record.childProcessStartedAtMicros.Some?
            then Some(Exact(record)) else None
  {
    hide EncodeAs, Field, FieldU32, FieldU64;
    EncodedFields("1", record);
  }

  /** Released Shims read the same text and recover the two owners and the child PID. */
  lemma ReleasedShimsReadExactRecords(record: OwnerRecord)
    ensures DecodeReleasedVersionOne(Encode(record)) ==
            Some(VersionOneOwnerRecord(record.processId, record.desktopProcessId, record.childProcessId))
  {
    hide EncodeAs, Field, FieldU32, FieldU64;
    EncodedFields("1", record);
  }

  // ----- Records of released Shims -----

  /** The text released Shims write: no start times. */
  function EncodeReleased(legacy: VersionOneOwnerRecord): string {
    Line("version", "1")
    + (Line("process_id", ToDecimal(legacy.processId))
    + (Line("desktop_process_id", ToDecimal(legacy.desktopProcessId))
    + (Line("child_process_id", OptionalDecimal(legacy.childProcessId))
    + "")))
  }

  function ReleasedKeys(): (keys: seq<string>)
    ensures |keys| == 4
  {
    ["version", "process_id", "desktop_process_id", "child_process_id"]
  }

  function ReleasedValues(legacy: VersionOneOwnerRecord): seq<string> {
    ["1", ToDecimal(legacy.processId), ToDecimal(legacy.desktopProcessId), OptionalDecimal(legacy.childProcessId)]
  }

  lemma ReleasedIsUnlines(legacy: VersionOneOwnerRecord)
    ensures EncodeReleased(legacy) == Unlines(ReleasedKeys(), ReleasedValues(legacy))
  {
    var k, v := ReleasedKeys(), ReleasedValues(legacy);
    UnlinesFrom(k, v, 0);
    UnlinesFrom(k, v, 1);
    UnlinesFrom(k, v, 2);
    UnlinesFrom(k, v, 3);
    assert k[0..] == k && v[0..] == v;
  }

  lemma ReleasedKeysAreNamed()
    ensures Named(ReleasedKeys())
    ensures forall i :: 0 <= i < 4 ==> Plain(ReleasedKeys()[i])
  {
    assert |ReleasedKeys()[0]| == 7 && |ReleasedKeys()[1]| == 10;
    assert |ReleasedKeys()[2]| == 18 && |ReleasedKeys()[3]| == 16;
  }

  lemma ReleasedLines(legacy: VersionOneOwnerRecord)
    ensures Lines(EncodeReleased(legacy)) == Assign(ReleasedKeys(), ReleasedValues(legacy))
  {
    ReleasedKeysAreNamed();
    ReleasedIsUnlines(legacy);
    DecimalIsPlain(Some(legacy.processId));
    DecimalIsPlain(Some(legacy.desktopProcessId));
    DecimalIsPlain(legacy.childProcessId);
    hide Lines, EncodeReleased, ToDecimal, Named, Unlines, Assign, ReleasedKeys;
    LinesOfAll(ReleasedKeys(), ReleasedValues(legacy));
  }

  /** A name that no key has is not assigned. */
  lemma {:induction false} FieldNotAssigned(keys: seq<string>, values: seq<string>, name: string)
    requires |keys| == |values| && '=' !in name && name !in keys
    requires forall k <- keys :: '=' !in k
    ensures FieldIn(Assign(keys, values), name).None?
  {
    if keys != [] {
      FieldPrefix(name, keys[0], values[0]);
      assert keys[0] in keys && forall k <- keys[1..] :: k in keys;
      assert Assign(keys, values)[1..] == Assign(keys[1..], values[1..]);
      FieldNotAssigned(keys[1..], values[1..], name);
    }
  }

  lemma ReleasedFields(legacy: VersionOneOwnerRecord)
    ensures var text := EncodeReleased(legacy);
            && Field(text, "version") == Some("1")
            && Field(text, "process_started_at_micros").None?
            && FieldU32(text, "process_id") == Some(legacy.processId)
            && FieldU32(text, "desktop_process_id") == Some(legacy.desktopProcessId)
            && FieldU32(text, "child_process_id") == legacy.childProcessId
  {
    hide EncodeReleased, Lines, FieldIn, ToDecimal, DigitsValue, Assign;
    var k, v := ReleasedKeys(), ReleasedValues(legacy);
    ReleasedLines(legacy);
    ReleasedKeysAreNamed();
    FieldOfAssign(k, v, 0);
    FieldOfAssign(k, v, 1);
    FieldOfAssign(k, v, 2);
    FieldOfAssign(k, v, 3);
    StartIsNoReleasedKey();
    FieldNotAssigned(k, v, "process_started_at_micros");
    DecimalParses(legacy.processId, 0x1_0000_0000);
    DecimalParses(legacy.desktopProcessId, 0x1_0000_0000);
    OptionalParses(legacy.childProcessId, 0x1_0000_0000);
  }

  lemma StartIsNoReleasedKey()
    ensures '=' !in "process_started_at_micros" && "process_started_at_micros" !in ReleasedKeys()
    ensures forall k <- ReleasedKeys() :: '=' !in k
  {
    assert |"process_started_at_micros"| == 25;
  }

  /** A released Shim's record is read as such, complete with its child if there is one. */
  lemma ReleasedRoundTrip(legacy: VersionOneOwnerRecord)
    ensures Decode(EncodeReleased(legacy)) == Some(VersionOne(legacy))
    ensures DecodeReleasedVersionOne(EncodeReleased(legacy)) == Some(legacy)
  {
    hide EncodeReleased, Field, FieldU32, FieldU64;
    ReleasedFields(legacy);
  }

  // ----- Migration of a released record -----

  /** The exact record that replaces a released one once its processes have been observed. */
  function MigratedOwnerRecord(
    legacy: VersionOneOwnerRecord, shimStart: U64, shimParent: U32, child: Option<(U32, U64)>): OwnerRecord
  {
    OwnerRecord(legacy.processId, shimStart, shimParent,
                if child.Some? then Some(child.value.0) else None,
                if child.Some? then Some(child.value.1) else None)
  }

  /** A migrated record is always readable again, with the processes and start times that were observed, and still names
      the Shim, the observed parent and the child to released readers. */
  lemma MigrationIsReadable(legacy: VersionOneOwnerRecord, shimStart: U64, shimParent: U32, child: Option<(U32, U64)>)
    ensures var text := Encode(MigratedOwnerRecord(legacy, shimStart, shimParent, child));
            && Decode(text)
               == Some(Exact(match child
                             case None => OwnerRecord(legacy.processId, shimStart, shimParent, None, None)
                             case Some((id, start)) =>
                               OwnerRecord(legacy.processId, shimStart, shimParent, Some(id), Some(start))))
            && DecodeReleasedVersionOne(text)
               == Some(VersionOneOwnerRecord(legacy.processId, shimParent,
                                             if child.Some? then Some(child.value.0) else None))
  {
    hide Encode, Decode, DecodeReleasedVersionOne;
    RoundTrip(MigratedOwnerRecord(legacy, shimStart, shimParent, child));
    ReleasedShimsReadExactRecords(MigratedOwnerRecord(legacy, shimStart, shimParent, child));
  }
}
