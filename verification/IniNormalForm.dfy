/** Printing a parsed document and parsing the print gives the document back. */
module IniNormalForm {
  import opened Text
  import opened IniParsing

  // ---- The print: each section in order, its header and then its entries ----

  function EntryLine(e: IniEntry): string { e.key + ['='] + e.value }

  function HeaderLine(name: string): string { ['['] + name + [']'] }

  function EntryLines(entries: seq<IniEntry>): seq<string> {
    if entries == [] then [] else EntryLines(entries[..|entries| - 1]) + [EntryLine(entries[|entries| - 1])]
  }

  function SectionLines(d: Document, name: string): seq<string> {
    [HeaderLine(name)] + EntryLines(EntriesOf(d, name))
  }

  // The lines of the first k sections.
  function PrintedLines(d: Document, k: nat): seq<string>
    requires k <= |d.order|
  {
    if k == 0 then [] else PrintedLines(d, k - 1) + SectionLines(d, d.order[k - 1])
  }

  function Joined(lines: seq<string>): string {
    if lines == [] then [] else lines[0] + ['\n'] + Joined(lines[1..])
  }

  function Print(d: Document): string { Joined(PrintedLines(d, |d.order|)) }

  // ---- What parsing can produce ----

  predicate OneLine(s: string) { '\n' !in s }

  predicate PrintableName(name: string) { Trimmed(name) && OneLine(name) }

  predicate PrintableEntry(e: IniEntry) {
    && Trimmed(e.key) && Trimmed(e.value) && OneLine(e.key) && OneLine(e.value) && '=' !in e.key
    && (e.key != [] ==> !IsComment(e.key[0]))
    && !(e.key != [] && e.key[0] == '[' && e.value != [] && e.value[|e.value| - 1] == ']')
  }

  ghost predicate PrintableEntries(entries: seq<IniEntry>) {
    entries != [] && forall i :: 0 <= i < |entries| ==> PrintableEntry(entries[i])
  }

  function NamesOf(order: seq<string>): set<string> {
    if order == [] then {} else NamesOf(order[..|order| - 1]) + {Normalized(order[|order| - 1])}
  }

  // No two names are equal up to case.
  predicate Distinct(order: seq<string>) {
    order == [] || (Distinct(order[..|order| - 1]) && Normalized(order[|order| - 1]) !in NamesOf(order[..|order| - 1]))
  }

  ghost predicate WellFormed(d: Document) {
    && (forall i :: 0 <= i < |d.order| ==> PrintableName(d.order[i]))
    && Distinct(d.order) && d.sections.Keys == NamesOf(d.order)
    && (forall n :: n in d.sections ==> PrintableEntries(d.sections[n]))
  }

  lemma {:induction false} DistinctAt(order: seq<string>, k: nat)
    requires Distinct(order) && k < |order|
    ensures Normalized(order[k]) !in NamesOf(order[..k])
    ensures NamesOf(order[..k]) + {Normalized(order[k])} == NamesOf(order[..k + 1]) <= NamesOf(order)
  {
    assert order[..k + 1][..k] == order[..k];
    if k + 1 == |order| {
      assert order[..k + 1] == order;
    } else {
      var before := order[..|order| - 1];
      assert before[..k] == order[..k] && before[..k + 1] == order[..k + 1];
      DistinctAt(before, k);
    }
  }

  // One more name, new up to case.
  lemma {:induction false} NamesGrow(order: seq<string>, name: string)
    ensures NamesOf(order + [name]) == NamesOf(order) + {Normalized(name)}
    ensures Distinct(order + [name]) <==> Distinct(order) && Normalized(name) !in NamesOf(order)
  {
    assert (order + [name])[..|order|] == order;
  }

  lemma {:induction false} NamesStayDistinct(d: Document, section: string, e: IniEntry)
    requires Distinct(d.order) && d.sections.Keys == NamesOf(d.order)
    ensures var r := WithEntry(d, section, e);
            Distinct(r.order) && r.sections.Keys == NamesOf(r.order)
  {
    NamesGrow(d.order, section);
  }

  lemma {:induction false} EntriesStayPrintable(d: Document, section: string, e: IniEntry)
    requires PrintableEntry(e) && forall n :: n in d.sections ==> PrintableEntries(d.sections[n])
    ensures var r := WithEntry(d, section, e);
            forall n :: n in r.sections ==> PrintableEntries(r.sections[n])
  {
    var r := WithEntry(d, section, e);
    forall n | n in r.sections
      ensures PrintableEntries(r.sections[n])
    {
      if n == Normalized(section) {
        assert r.sections[n] == EntriesOf(d, section) + [e];
      }
    }
  }

  lemma {:induction false} AddKeepsWellFormed(d: Document, section: string, e: IniEntry)
    requires WellFormed(d) && PrintableName(section) && PrintableEntry(e)
    ensures WellFormed(WithEntry(d, section, e))
  {
    NamesStayDistinct(d, section, e);
    EntriesStayPrintable(d, section, e);
  }

  // A trimmed line that is an entry yields a printable one.
  lemma {:induction false} LineGivesPrintable(line: string)
    requires Trimmed(line) && OneLine(line) && IsEntry(line)
    ensures PrintableEntry(EntryOf(line))
  {
    var eq := Find(line, '=');
    FindExactly(line, '=', eq);
    TrimFacts(line[..eq]);
    TrimFacts(line[eq + 1..]);
    var e := EntryOf(line);
    if e.key != [] {
      assert line[..eq][0] == line[0] == e.key[0];
    }
    if e.value != [] {
      assert line[eq + 1..][|line| - eq - 2] == line[|line| - 1] == e.value[|e.value| - 1];
    }
  }

  ghost predicate GoodProgress(p: Progress) { WellFormed(p.document) && PrintableName(p.section) }

  lemma {:induction false} LineKeepsGood(p: Progress, raw: string)
    requires GoodProgress(p) && OneLine(raw)
    ensures GoodProgress(OnLine(p, Trim(raw)))
  {
    var line := Trim(raw);
    TrimFacts(raw);
    if IsHeader(line) {
      TrimFacts(line[1..|line| - 1]);
    } else if IsEntry(line) {
      LineGivesPrintable(line);
      AddKeepsWellFormed(p.document, p.section, EntryOf(line));
    }
  }

  lemma {:induction false} ParsingIsGood(p: Progress, text: string)
    requires GoodProgress(p)
    ensures GoodProgress(ParseFrom(p, text))
    decreases |text|
  {
    var n := Find(text, '\n');
    FindExactly(text, '\n', n);
    if n == |text| {
      LineKeepsGood(p, text);
    } else {
      LineKeepsGood(p, text[..n]);
      ParsingIsGood(OnLine(p, Trim(text[..n])), text[n + 1..]);
    }
  }

  // ---- Reading the print back ----

  lemma {:induction false} LinesOfJoined(lines: seq<string>)
    requires forall i :: 0 <= i < |lines| ==> OneLine(lines[i])
    ensures Lines(Joined(lines)) == lines + [[]]
  {
    if lines == [] {
      assert Lines([]) == [[]];
    } else {
      LinesOfJoined(lines[1..]);
      LinesConcat(lines[0], Joined(lines[1..]));
      FindExactly(lines[0], '\n', |lines[0]|);
      assert lines == [lines[0]] + lines[1..];
    }
  }

  lemma {:induction false} EntryLineReadsBack(p: Progress, e: IniEntry)
    requires PrintableEntry(e)
    ensures OnLine(p, Trim(EntryLine(e))) == p.(document := WithEntry(p.document, p.section, e))
  {
    var line := EntryLine(e);
    assert line[0] == if e.key == [] then '=' else e.key[0];
    assert line[|line| - 1] == if e.value == [] then '=' else e.value[|e.value| - 1];
    TrimFacts(line);
    FindExactly(line, '=', |e.key|);
    assert line[..|e.key|] == e.key && line[|e.key| + 1..] == e.value;
    TrimFacts(e.key);
    TrimFacts(e.value);
  }

  lemma {:induction false} HeaderLineReadsBack(p: Progress, name: string)
    requires PrintableName(name)
    ensures OnLine(p, Trim(HeaderLine(name))) == p.(section := name)
  {
    var line := HeaderLine(name);
    TrimFacts(line);
    assert line[1..|line| - 1] == name;
    TrimFacts(name);
  }

  lemma {:induction false} OnOneMoreLine(p: Progress, lines: seq<string>, line: string)
    ensures OnLines(p, lines + [line]) == OnLine(OnLines(p, lines), Trim(line))
  {
    OnLinesConcat(p, lines, [line]);
    assert [line][1..] == [];
  }

  // The document after a new section got its entries.
  function WithSection(d: Document, name: string, entries: seq<IniEntry>): Document {
    Document(d.sections[Normalized(name) := entries], d.order + [name])
  }

  lemma {:induction false} SectionGrows(d: Document, name: string, entries: seq<IniEntry>, e: IniEntry)
    requires Normalized(name) !in d.sections
    ensures WithEntry(if entries == [] then d else WithSection(d, name, entries), name, e) ==
            WithSection(d, name, entries + [e])
  {
    var q := if entries == [] then d else WithSection(d, name, entries);
    assert EntriesOf(q, name) == entries;
    assert q.sections[Normalized(name) := entries + [e]] == d.sections[Normalized(name) := entries + [e]];
  }

  // What is known after some entries of a section that did not exist before.
  function AfterEntries(p: Progress, entries: seq<IniEntry>): Progress {
    if entries == [] then p else p.(document := WithSection(p.document, p.section, entries))
  }

  lemma {:induction false} OneMoreEntry(p: Progress, lines: seq<string>, before: seq<IniEntry>, e: IniEntry)
    requires Normalized(p.section) !in p.document.sections && PrintableEntry(e)
    requires OnLines(p, lines) == AfterEntries(p, before)
    ensures OnLines(p, lines + [EntryLine(e)]) == AfterEntries(p, before + [e])
  {
    OnOneMoreLine(p, lines, EntryLine(e));
    EntryLineReadsBack(AfterEntries(p, before), e);
    SectionGrows(p.document, p.section, before, e);
  }

  // Entries read into a section that does not exist yet.
  lemma {:induction false} EntriesReadBack(p: Progress, entries: seq<IniEntry>)
    requires PrintableEntries(entries) && Normalized(p.section) !in p.document.sections
    ensures OnLines(p, EntryLines(entries)) == p.(document := WithSection(p.document, p.section, entries))
  {
    var before, e := entries[..|entries| - 1], entries[|entries| - 1];
    if before != [] {
      EntriesReadBack(p, before);
    }
    OneMoreEntry(p, EntryLines(before), before, e);
    assert entries == before + [e];
  }

  // The document made of the first k sections.
  function FirstSections(d: Document, k: nat): Document
    requires k <= |d.order|
  {
    Document(map n | n in d.sections && n in NamesOf(d.order[..k]) :: d.sections[n], d.order[..k])
  }

  lemma {:induction false} FirstSectionsGrow(d: Document, k: nat)
    requires WellFormed(d) && k < |d.order|
    ensures Normalized(d.order[k]) in d.sections && Normalized(d.order[k]) !in FirstSections(d, k).sections
    ensures FirstSections(d, k + 1) == WithSection(FirstSections(d, k), d.order[k], EntriesOf(d, d.order[k]))
  {
    DistinctAt(d.order, k);
    assert Normalized(d.order[k]) in NamesOf(d.order);
    assert d.order[..k + 1] == d.order[..k] + [d.order[k]];
  }

  lemma {:induction false} SectionReadsBack(d: Document, p: Progress, k: nat)
    requires WellFormed(d) && k < |d.order| && p.document == FirstSections(d, k)
    ensures OnLines(p, SectionLines(d, d.order[k])) == Progress(FirstSections(d, k + 1), d.order[k])
  {
    var name := d.order[k];
    FirstSectionsGrow(d, k);
    HeaderLineReadsBack(p, name);
    EntriesReadBack(p.(section := name), EntriesOf(d, name));
    assert SectionLines(d, name)[1..] == EntryLines(EntriesOf(d, name));
  }

  // The text of the first k + 1 sections reads back if that of the first k does.
  lemma {:induction false} OneMoreSection(d: Document, lines: seq<string>, more: seq<string>, k: nat)
    requires WellFormed(d) && k < |d.order| && OnLines(BEGINNING, lines).document == FirstSections(d, k)
    requires more == lines + SectionLines(d, d.order[k])
    ensures OnLines(BEGINNING, more).document == FirstSections(d, k + 1)
  {
    SectionReadsBack(d, OnLines(BEGINNING, lines), k);
    OnLinesConcat(BEGINNING, lines, SectionLines(d, d.order[k]));
  }

  lemma {:induction false} NoSections(d: Document)
    ensures FirstSections(d, 0) == EMPTY_DOCUMENT && OnLines(BEGINNING, PrintedLines(d, 0)) == BEGINNING
  {
    assert d.order[..0] == [];
    assert FirstSections(d, 0).sections == map[];
  }

  lemma {:induction false} EntriesOneLine(entries: seq<IniEntry>)
    requires forall i :: 0 <= i < |entries| ==> PrintableEntry(entries[i])
    ensures forall i :: 0 <= i < |EntryLines(entries)| ==> OneLine(EntryLines(entries)[i])
  {
    if entries != [] {
      EntriesOneLine(entries[..|entries| - 1]);
    }
  }

  lemma {:induction false} PrintedOneLine(d: Document, k: nat)
    requires WellFormed(d) && k <= |d.order|
    ensures forall i :: 0 <= i < |PrintedLines(d, k)| ==> OneLine(PrintedLines(d, k)[i])
  {
    if k > 0 {
      PrintedOneLine(d, k - 1);
      FirstSectionsGrow(d, k - 1);
      EntriesOneLine(EntriesOf(d, d.order[k - 1]));
    }
  }

  lemma {:induction false} SectionsReadBack(d: Document, k: nat)
    requires WellFormed(d) && k <= |d.order|
    ensures OnLines(BEGINNING, PrintedLines(d, k)).document == FirstSections(d, k)
  {
    if k == 0 {
      NoSections(d);
    } else {
      SectionsReadBack(d, k - 1);
      OneMoreSection(d, PrintedLines(d, k - 1), PrintedLines(d, k), k - 1);
    }
  }

  lemma {:induction false} PrintReadsBack(d: Document)
    requires WellFormed(d)
    ensures Parse(Print(d)).document == d
  {
    var lines := PrintedLines(d, |d.order|);
    SectionsReadBack(d, |d.order|);
    PrintedOneLine(d, |d.order|);
    LinesOfJoined(lines);
    OnOneMoreLine(BEGINNING, lines, []);
    TrimFacts([]);
    assert FirstSections(d, |d.order|).order == d.order;
    assert FirstSections(d, |d.order|).sections == d.sections;
  }

  /** For every text: print what was parsed, parse it again, and nothing has changed. */
  lemma {:induction false} ParsePrintParse(text: string)
    ensures Parse(Print(Parse(text).document)).document == Parse(text).document
  {
    ParsingIsGood(BEGINNING, text);
    ParseFromIsFold(BEGINNING, text);
    PrintReadsBack(Parse(text).document);
  }

  /** The documents that survive printing are those that some text denotes. */
  lemma {:induction false} PrintableExactly(d: Document)
    ensures Parse(Print(d)).document == d <==> exists text :: Parse(text).document == d
    ensures WellFormed(d) <==> exists text :: Parse(text).document == d
  {
    if WellFormed(d) {
      PrintReadsBack(d);
    }
    forall text | Parse(text).document == d
      ensures WellFormed(d)
    {
      ParsingIsGood(BEGINNING, text);
      ParseFromIsFold(BEGINNING, text);
    }
  }
}
