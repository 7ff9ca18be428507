/** The environment block of a packaged Windows process (crates/platform/src/windows_desktop.rs:312-347). */
module WindowsEnvironment {
  import opened Sequences

  /** A UTF-16 code unit; any sequence of them can be a Windows string. */
  type Unit = u: nat | u < 0x1_0000
  type Wide = seq<Unit>

  const NUL: Unit := 0
  const EQUALS: Unit := 61

  datatype Entry = Entry(name: Wide, value: Wide)
  datatype Result<+T> = Ok(value: T) | InvalidNameOrValue

  predicate ValidEntry(entry: Entry) {
    entry.name != [] && NUL !in entry.name && EQUALS !in entry.name && NUL !in entry.value
  }

  // ----- The order of the names -----

  /** Strings compare code point by code point. */
  function TextLess(a: seq<nat>, b: seq<nat>): bool {
    b != [] && (a == [] || a[0] < b[0] || (a[0] == b[0] && TextLess(a[1..], b[1..])))
  }

  lemma {:induction false} TextLessAsymmetric(a: seq<nat>, b: seq<nat>)
    requires TextLess(a, b)
    ensures !TextLess(b, a)
  {
    if a != [] && a[0] == b[0] {
      TextLessAsymmetric(a[1..], b[1..]);
    }
  }

  lemma {:induction false} TextLessTransitive(a: seq<nat>, b: seq<nat>, c: seq<nat>)
    requires !TextLess(b, a) && !TextLess(c, b)
    ensures !TextLess(c, a)
  {
    if a != [] && b != [] && c != [] && a[0] == b[0] == c[0] {
      TextLessTransitive(a[1..], b[1..], c[1..]);
    }
  }

  /** Texts that neither way come first are the same. */
  lemma {:induction false} TextLessTotal(a: seq<nat>, b: seq<nat>)
    requires !TextLess(a, b) && !TextLess(b, a)
    ensures a == b
  {
    if a != [] && b != [] {
      TextLessTotal(a[1..], b[1..]);
      assert a == [a[0]] + a[1..] && b == [b[0]] + b[1..];
    }
  }

  /** The order is decided at the first difference, and a text comes before its extensions. */
  lemma {:induction false} TextLessAtDifference(common: seq<nat>, a: seq<nat>, b: seq<nat>)
    requires a != [] ==> b != [] ==> a[0] != b[0]
    ensures TextLess(common + a, common + b) <==> b != [] && (a == [] || a[0] < b[0])
  {
    if common == [] {
      assert common + a == a && common + b == b;
    } else {
      TextLessAtDifference(common[1..], a, b);
      assert (common + a)[1..] == common[1..] + a && (common + b)[1..] == common[1..] + b;
    }
  }

  /** Entries are ordered by their names after `fold`, the lower-casing of the system's Unicode tables. */
  function FoldedNameLess(fold: Wide -> seq<nat>): (Entry, Entry) -> bool {
    (x: Entry, y: Entry) => TextLess(fold(x.name), fold(y.name))
  }

  lemma FoldedNamesAreOrdered(fold: Wide -> seq<nat>)
    ensures StrictWeakOrder(FoldedNameLess(fold))
  {
    var less := FoldedNameLess(fold);
    forall x, y | less(x, y) ensures !less(y, x) {
      TextLessAsymmetric(fold(x.name), fold(y.name));
    }
    forall x, y, z | !less(y, x) && !less(z, y) ensures !less(z, x) {
      TextLessTransitive(fold(x.name), fold(y.name), fold(z.name));
    }
  }

  // ----- Writing -----

  function EntryUnits(entry: Entry): Wide {
    entry.name + [EQUALS] + entry.value + [NUL]
  }

  function Body(entries: seq<Entry>): Wide {
    if entries == [] then [] else EntryUnits(entries[0]) + Body(entries[1..])
  }

  function Block(entries: seq<Entry>): Wide {
    Body(entries) + if entries == [] then [NUL, NUL] else [NUL]
  }

  lemma {:induction false} BodyAppend(entries: seq<Entry>, last: Entry)
    ensures Body(entries + [last]) == Body(entries) + EntryUnits(last)
  {
    if entries == [] {
      assert entries + [last] == [last];
      assert Body([last]) == EntryUnits(last) + Body([]);
    } else {
      BodyAppend(entries[1..], last);
      assert (entries + [last])[1..] == entries[1..] + [last];
    }
  }

  /** Refuses the list exactly when an entry has an empty name, a NUL, or an equals sign in its name, and otherwise writes
      the entries sorted by folded name. */
  method WindowsEnvironmentBlock(environment: seq<Entry>, fold: Wide -> seq<nat>) returns (result: Result<Wide>)
    ensures result.Ok? <==> forall entry <- environment ::
              entry.name != [] && 0 !in entry.name && 0 !in entry.value && 61 !in entry.name
    ensures result.Ok? ==> result.value == Block(SortBy(environment, FoldedNameLess(fold)))
  {
    for i := 0 to |environment|
      invariant forall entry <- environment[..i] :: ValidEntry(entry)
    {
      var Entry(name, value) := environment[i];
      if name == [] || NUL in name || EQUALS in name || NUL in value {
        assert environment[i] in environment && !ValidEntry(environment[i]);
        return InvalidNameOrValue;
      }
      assert environment[..i + 1] == environment[..i] + [environment[i]];
    }
    assert environment[..|environment|] == environment;
    var entries := SortBy(environment, FoldedNameLess(fold));
    var block: Wide := [];
    for i := 0 to |entries|
      invariant block == Body(entries[..i])
      invariant |block| >= i
    {
      var Entry(name, value) := entries[i];
      BodyAppend(entries[..i], entries[i]);
      assert entries[..i + 1] == entries[..i] + [entries[i]];
      block := block + name;
      block := block + [EQUALS];
      block := block + value;
      block := block + [NUL];
    }
    assert entries[..|entries|] == entries;
    block := block + [NUL];
    if |block| == 1 {
      block := block + [NUL];
    }
    result := Ok(block);
  }

  // ----- Reading -----

  function UpTo(text: Wide, stop: Unit): (n: nat)
    ensures n <= |text| && stop !in text[..n]
    ensures n < |text| ==> text[n] == stop
  {
    if text == [] || text[0] == stop then 0 else 1 + UpTo(text[1..], stop)
  }

  /** What a process reads from its environment block, and the units behind the end of the block: entries end with
      a NUL, a name with the first equals sign, and the block with an empty entry. */
  function ReadBlock(block: Wide): Option<(seq<Entry>, Wide)> {
    var end := UpTo(block, NUL);
    if end == |block| then None
    else if end == 0 then Some(([], block[1..]))
    else
      var text := block[..end];
      var split := UpTo(text, EQUALS);
      var others := ReadBlock(block[end + 1..]);
      if split == end || others.None? then None
      else Some(([Entry(text[..split], text[split + 1..])] + others.value.0, others.value.1))
  }

  lemma {:induction false} UpToFirst(before: Wide, stop: Unit, behind: Wide)
    requires stop !in before
    ensures UpTo(before + [stop] + behind, stop) == |before|
  {
    if before != [] {
      UpToFirst(before[1..], stop, behind);
      assert (before + [stop] + behind)[1..] == before[1..] + [stop] + behind;
    }
  }

  lemma ReadEntry(entry: Entry, behind: Wide)
    requires ValidEntry(entry)
    ensures var others := ReadBlock(behind);
            ReadBlock(EntryUnits(entry) + behind)
            == if others.None? then None else Some(([entry] + others.value.0, others.value.1))
  {
    var text := entry.name + [EQUALS] + entry.value;
    var block := EntryUnits(entry) + behind;
    assert block == text + [NUL] + behind;
    UpToFirst(text, NUL, behind);
    UpToFirst(entry.name, EQUALS, entry.value);
    assert block[..|text|] == text && block[|text| + 1..] == behind;
    assert text[..|entry.name|] == entry.name && text[|entry.name| + 1..] == entry.value;
  }

  lemma ReadEmptyEntry(behind: Wide)
    ensures ReadBlock([NUL] + behind) == Some(([], behind))
  {
  }

  lemma {:induction false} ReadBody(entries: seq<Entry>)
    requires forall entry <- entries :: ValidEntry(entry)
    ensures ReadBlock(Body(entries) + [NUL]) == Some((entries, []))
  {
    hide EntryUnits, ValidEntry, ReadBlock;
    if entries == [] {
      ReadEmptyEntry([]);
      assert Body(entries) + [NUL] == [NUL] + [];
    } else {
      assert [entries[0]] + entries[1..] == entries;
      assert entries[0] in entries;
      assert forall entry <- entries[1..] :: entry in entries;
      ReadBody(entries[1..]);
      ReadEntry(entries[0], Body(entries[1..]) + [NUL]);
      assert EntryUnits(entries[0]) + (Body(entries[1..]) + [NUL]) == Body(entries) + [NUL];
    }
  }

  lemma {:induction false} BodyEnds(entries: seq<Entry>)
    requires entries != []
    ensures Body(entries) != [] && Body(entries)[|Body(entries)| - 1] == NUL
  {
    if |entries| > 1 {
      BodyEnds(entries[1..]);
    }
  }

  /** A block ends in two NULs, and nothing of it is left unread but the second NUL of an empty block. */
  lemma ReadWholeBlock(entries: seq<Entry>)
    requires forall entry <- entries :: ValidEntry(entry)
    ensures ReadBlock(Block(entries)) == Some((entries, if entries == [] then [NUL] else []))
    ensures |Block(entries)| >= 2 && Block(entries)[|Block(entries)| - 2..] == [NUL, NUL]
  {
    hide ValidEntry, ReadBlock;
    if entries == [] {
      ReadEmptyEntry([NUL]);
      assert Block(entries) == [NUL] + [NUL];
    } else {
      ReadBody(entries);
      BodyEnds(entries);
    }
  }

  /** A process given the block of a valid list reads that list back up to order: nothing is lost, added or cut
      short, the names ascend, and entries whose names fold together keep their order. */
  lemma BlockRoundTrip(environment: seq<Entry>, fold: Wide -> seq<nat>)
    requires forall entry <- environment :: ValidEntry(entry)
    ensures var less := FoldedNameLess(fold);
            var entries := SortBy(environment, less);
            && ReadBlock(Block(entries)) == Some((entries, if environment == [] then [NUL] else []))
            && multiset(entries) == multiset(environment)
            && Sorted(entries, less)
            && forall x :: Select(entries, TiesWith(x, less)) == Select(environment, TiesWith(x, less))
  {
    hide ReadBlock, Block, ValidEntry, FoldedNameLess, SortBy;
    var less := FoldedNameLess(fold);
    var entries := SortBy(environment, less);
    FoldedNamesAreOrdered(fold);
    SortBySorts(environment, less);
    forall x ensures Select(entries, TiesWith(x, less)) == Select(environment, TiesWith(x, less)) {
      SortByIsStable(environment, less, x);
    }
    assert |entries| == |multiset(entries)| == |multiset(environment)| == |environment|;
    ReadWholeBlock(entries);
  }
}
