/** Writing a configuration in the form of data/yinkad.conf, and reading any value of it back. */
module ConfigPrinter {
  import opened Options
  import opened CStrings
  import opened Lookup
  import opened ConfigLaws

  datatype Entry = Entry(key: string, value: string)

  datatype Section = Section(name: string, entries: seq<Entry>)

  // What can be written.

  predicate GoodName(name: string) {
    |name| <= 29 && forall i | 0 <= i < |name| :: name[i] != ']' && name[i] != '\n' && name[i] != NUL
  }

  predicate GoodKey(key: string) {
    0 < |key| < 32 && key[0] != '[' && key[0] != '#'
    && forall i | 0 <= i < |key| :: key[i] !in KEY_STOP && !IsSpace(key[i]) && key[i] != NUL
  }

  predicate GoodValue(value: string) {
    value != "" && !IsSpace(value[0]) && !IsSpace(value[|value| - 1])
    && forall i | 0 <= i < |value| :: value[i] != '\n' && value[i] != NUL
  }

  /** The line of an entry, `key = value` and a newline, must fit one piece. */
  predicate GoodEntry(e: Entry) {
    GoodKey(e.key) && GoodValue(e.value) && |e.key| + |e.value| + 4 < KEYVALLEN
  }

  predicate Good(config: seq<Section>) {
    forall s | s in config :: GoodName(s.name) && forall e | e in s.entries :: GoodEntry(e)
  }

  // Writing.

  function SectionLine(name: string): string { "[" + name + "]\n" }

  function EntryText(value: string): string { " " + value + "\n" }

  function KeyLine(e: Entry): string { e.key + " =" + EntryText(e.value) }

  function PrintEntries(es: seq<Entry>): string {
    if es == [] then "" else KeyLine(es[0]) + PrintEntries(es[1..])
  }

  function Print(config: seq<Section>): string {
    if config == [] then ""
    else SectionLine(config[0].name) + PrintEntries(config[0].entries) + Print(config[1..])
  }

  // Looking up in the data.

  function ValueIn(es: seq<Entry>, key: string): Option<string> {
    if es == [] then None
    else if es[0].key == key then Some(es[0].value)
    else ValueIn(es[1..], key)
  }

  function ValueOf(config: seq<Section>, app: string, key: string): Option<string> {
    if config == [] then None
    else if config[0].name == app then ValueIn(config[0].entries, key)
    else ValueOf(config[1..], app, key)
  }

  function OutcomeOf(v: Option<string>): Outcome {
    match v
    case None => Missing
    case Some(value) => Hit(EntryText(value))
  }

  // Each written line is scanned as it was written.

  lemma SectionLineScanned(name: string)
    requires GoodName(name)
    ensures Lines(SectionLine(name)) == [SectionLine(name)] && WholeLines(SectionLine(name))
    ensures IsHeader(SectionLine(name))
  {
    PlainLine(SectionLine(name));
  }

  lemma KeyLineScanned(e: Entry)
    requires GoodEntry(e)
    ensures Lines(KeyLine(e)) == [KeyLine(e)] && WholeLines(KeyLine(e))
  {
    PlainLine(KeyLine(e));
  }

  lemma KeyLineParsed(e: Entry)
    requires GoodEntry(e)
    ensures IsEntry(KeyLine(e)) && !IsHeader(KeyLine(e))
    ensures KeyToken(KeyLine(e)) == e.key && AfterEquals(KeyLine(e)) == EntryText(e.value)
  {
    var l, n := KeyLine(e), |e.key|;
    assert l[n] == ' ' && l[n + 1] == '=' && l[..n] == e.key && l[n + 2..] == EntryText(e.value);
    SpanUnique(l, KEY_STOP, n);
    SpanUnique(l, EQUALS, n + 1);
  }

  /** A header matches exactly the name it was written with, whatever name is asked for. */
  lemma HeaderMatches(app: string, name: string)
    requires GoodName(name)
    ensures Header(app) <= SectionLine(name) <==> app == name
  {
    var l, h := SectionLine(name), Header(app);
    assert forall i | 0 <= i < |name| :: l[i + 1] == name[i];
    if h <= l {
      assert h[|app| + 1] == l[|app| + 1] == ']';
      assert l[1..|app| + 1] == h[1..|app| + 1] == app;
    }
    if app == name {
      assert l[..|h|] == h;
    }
  }

  function EntryLines(es: seq<Entry>): seq<string> {
    if es == [] then [] else [KeyLine(es[0])] + EntryLines(es[1..])
  }

  function ConfigLines(config: seq<Section>): seq<string> {
    if config == [] then []
    else [SectionLine(config[0].name)] + (EntryLines(config[0].entries) + ConfigLines(config[1..]))
  }

  lemma {:induction false} LinesOfEntries(es: seq<Entry>)
    requires forall e | e in es :: GoodEntry(e)
    ensures Lines(PrintEntries(es)) == EntryLines(es) && WholeLines(PrintEntries(es))
  {
    hide Lines, KeyLine, GoodEntry;
    if es == [] {
      LinesOfNothing();
    } else {
      KeyLineScanned(es[0]);
      LinesOfEntries(es[1..]);
      LinesAppend(KeyLine(es[0]), PrintEntries(es[1..]));
    }
  }

  lemma {:induction false} LinesOfPrint(config: seq<Section>)
    requires Good(config)
    ensures Lines(Print(config)) == ConfigLines(config)
  {
    hide Lines, SectionLine;
    if config == [] {
      LinesOfNothing();
    } else {
      SectionLineScanned(config[0].name);
      LinesOfEntries(config[0].entries);
      LinesOfPrint(config[1..]);
      LinesOfThree(SectionLine(config[0].name), PrintEntries(config[0].entries), Print(config[1..]));
    }
  }

  lemma EntryLinesStep(es: seq<Entry>, rest: seq<string>)
    ensures EntryLines([]) + rest == rest
    ensures es != [] ==> EntryLines(es) + rest == [KeyLine(es[0])] + (EntryLines(es[1..]) + rest)
  {
  }

  /** Inside a section: its entries are searched, and the next header or the end of the file stops the search. */
  lemma {:induction false} ScanEntries(es: seq<Entry>, rest: seq<string>, app: string, key: string)
    requires forall e | e in es :: GoodEntry(e)
    requires rest == [] || IsHeader(rest[0])
    ensures Scan(EntryLines(es) + rest, app, key, true) == OutcomeOf(ValueIn(es, key))
    ensures KeysFit(EntryLines(es) + rest, app, key, true)
  {
    EntryLinesStep(es, rest);
    hide EntryLines;
    if es != [] {
      hide KeyLine, KeyToken, AfterEquals, Scan, KeysFit;
      KeyLineParsed(es[0]);
      ScanEntries(es[1..], rest, app, key);
      ScanStep(KeyLine(es[0]), EntryLines(es[1..]) + rest, app, key);
    }
  }

  /** In a section with another name, no line is taken for the wanted header. */
  lemma {:induction false} SkipEntries(es: seq<Entry>, rest: seq<string>, app: string, key: string)
    requires forall e | e in es :: GoodEntry(e)
    ensures Scan(EntryLines(es) + rest, app, key, false) == Scan(rest, app, key, false)
    ensures KeysFit(EntryLines(es) + rest, app, key, false) == KeysFit(rest, app, key, false)
  {
    EntryLinesStep(es, rest);
    hide EntryLines;
    if es != [] {
      hide KeyLine, Scan, KeysFit;
      KeyLineParsed(es[0]);
      HeaderOpens(app, KeyLine(es[0]));
      SkipEntries(es[1..], rest, app, key);
      ScanStep(KeyLine(es[0]), EntryLines(es[1..]) + rest, app, key);
    }
  }

  lemma {:induction false} ScanConfig(config: seq<Section>, app: string, key: string)
    requires Good(config)
    ensures Scan(ConfigLines(config), app, key, false) == OutcomeOf(ValueOf(config, app, key))
    ensures KeysFit(ConfigLines(config), app, key, false)
  {
    if config != [] {
      hide SectionLine, Header, EntryLines;
      var s, rest := config[0], ConfigLines(config[1..]);
      var all := ConfigLines(config);
      assert all[0] == SectionLine(s.name) && all[1..] == EntryLines(s.entries) + rest;
      HeaderMatches(app, s.name);
      if s.name == app {
        if config[1..] != [] {
          SectionLineScanned(config[1].name);
        }
        ScanEntries(s.entries, rest, app, key);
      } else {
        SkipEntries(s.entries, rest, app, key);
        ScanConfig(config[1..], app, key);
      }
    }
  }

  lemma StoredIsValue(value: string, before: string)
    requires GoodValue(value)
    ensures Stored(EntryText(value), before) == value
  {
    var text := EntryText(value);
    SpanUnique(text, NEWLINE, |value| + 1);
    var raw := text[..|value| + 1];
    assert raw == " " + value && value == raw[1..|raw|] && raw[..1] == " ";
    assert TrimmedAt(raw, value, 1, |raw|);
    TrimIs(raw, value);
  }

  /** Reading back: for every written configuration and every query, the scan finds what the data hold,
      the stored value is exact, and no key overruns its buffer. */
  lemma PrintThenFind(config: seq<Section>, app: string, key: string, before: string)
    requires Good(config)
    ensures var found := Find(Print(config), app, key);
            var v := ValueOf(config, app, key);
            (found.Hit? <==> v.Some?) && (v.Some? ==> Stored(found.text, before) == v.value)
    ensures KeysFit(Lines(Print(config)), app, key, false)
  {
    hide Scan, KeysFit, Lines, Stored, Print, ConfigLines, EntryText;
    LinesOfPrint(config);
    ScanConfig(config, app, key);
    match ValueOf(config, app, key)
    case None =>
    case Some(v) =>
      ValueIsGood(config, app, key);
      StoredIsValue(v, before);
  }

  lemma {:induction false} ValueIsGood(config: seq<Section>, app: string, key: string)
    requires Good(config) && ValueOf(config, app, key).Some?
    ensures GoodValue(ValueOf(config, app, key).value)
  {
    if config[0].name == app {
      ValueInIsGood(config[0].entries, key);
    } else {
      ValueIsGood(config[1..], app, key);
    }
  }

  lemma {:induction false} ValueInIsGood(es: seq<Entry>, key: string)
    requires (forall e | e in es :: GoodEntry(e)) && ValueIn(es, key).Some?
    ensures GoodValue(ValueIn(es, key).value)
  {
    if es[0].key == key {
      assert es[0] in es;
    } else {
      ValueInIsGood(es[1..], key);
    }
  }

  predicate DistinctNames(config: seq<Section>) {
    forall i, j | 0 <= i < j < |config| :: config[i].name != config[j].name
  }

  predicate DistinctKeys(es: seq<Entry>) {
    forall i, j | 0 <= i < j < |es| :: es[i].key != es[j].key
  }

  lemma {:induction false} ValueInAt(es: seq<Entry>, j: nat)
    requires DistinctKeys(es) && j < |es|
    ensures ValueIn(es, es[j].key) == Some(es[j].value)
  {
    if j > 0 {
      ValueInAt(es[1..], j - 1);
    }
  }

  lemma {:induction false} ValueAt(config: seq<Section>, i: nat, j: nat)
    requires DistinctNames(config) && i < |config| && j < |config[i].entries| && DistinctKeys(config[i].entries)
    ensures ValueOf(config, config[i].name, config[i].entries[j].key) == Some(config[i].entries[j].value)
  {
    if i == 0 {
      ValueInAt(config[0].entries, j);
    } else {
      ValueAt(config[1..], i - 1, j);
    }
  }

  /** With distinct names and keys, every entry is read back exactly. */
  lemma RoundTrip(config: seq<Section>, i: nat, j: nat, before: string)
    requires Good(config) && DistinctNames(config)
    requires i < |config| && j < |config[i].entries| && DistinctKeys(config[i].entries)
    ensures var e := config[i].entries[j];
            var found := Find(Print(config), config[i].name, e.key);
            found.Hit? && Stored(found.text, before) == e.value
  {
    var e := config[i].entries[j];
    ValueAt(config, i, j);
    PrintThenFind(config, config[i].name, e.key, before);
  }
}
