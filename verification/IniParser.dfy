/** The INI parser: one pass over the text, line by line. */
module IniParsing {
  import opened Keys
  import opened Text

  datatype IniEntry = IniEntry(key: string, value: string)

  // Sections by normalised name; their names as first written, in order of first use.
  datatype Document = Document(sections: map<string, seq<IniEntry>>, order: seq<string>)

  const EMPTY_DOCUMENT := Document(map[], [])

  function EntriesOf(d: Document, section: string): seq<IniEntry> {
    if Normalized(section) in d.sections then d.sections[Normalized(section)] else []
  }

  function WithEntry(d: Document, section: string, e: IniEntry): Document {
    Document(d.sections[Normalized(section) := EntriesOf(d, section) + [e]],
             if Normalized(section) in d.sections then d.order else d.order + [section])
  }

  // The value of the first entry from index k on with the key, whatever its case.
  function FirstValue(entries: seq<IniEntry>, key: string, k: nat): (r: Option<string>)
    requires k <= |entries|
    ensures r.None? ==> forall j :: k <= j < |entries| ==> Normalized(entries[j].key) != Normalized(key)
    ensures r.Some? ==> exists i :: k <= i < |entries| && Normalized(entries[i].key) == Normalized(key)
                          && r.value == entries[i].value
                          && forall j :: k <= j < i ==> Normalized(entries[j].key) != Normalized(key)
    decreases |entries| - k
  {
    if k == |entries| then None
    else if Normalized(entries[k].key) == Normalized(key) then Some(entries[k].value)
    else FirstValue(entries, key, k + 1)
  }

  function GetString(d: Document, section: string, key: string): Option<string> {
    FirstValue(EntriesOf(d, section), key, 0)
  }

  class IniDocument {
    var sections: map<string, seq<IniEntry>>
    var sectionOrder: seq<string>

    function State(): Document
      reads this
    {
      Document(sections, sectionOrder)
    }

    constructor ()
      ensures State() == EMPTY_DOCUMENT
    {
      sections, sectionOrder := map[], [];
    }

    method AddEntry(section: string, key: string, value: string)
      modifies this
      ensures State() == WithEntry(old(State()), section, IniEntry(key, value))
    {
      var name := Normalized(section);
      if name !in sections {
        sectionOrder := sectionOrder + [section];
        sections := sections[name := []];
      }
      sections := sections[name := sections[name] + [IniEntry(key, value)]];
    }

    method HasSection(section: string) returns (r: bool)
      ensures r == (Normalized(section) in State().sections)
    {
      return Normalized(section) in sections;
    }

    method GetStringValue(section: string, key: string) returns (r: Option<string>)
      ensures r == GetString(State(), section, key)
    {
      var name := Normalized(section);
      if name !in sections {
        return None;
      }
      var i := 0;
      while i < |sections[name]|
        invariant 0 <= i <= |sections[name]|
        invariant FirstValue(sections[name], key, i) == FirstValue(sections[name], key, 0)
      {
        if Normalized(sections[name][i].key) == Normalized(key) {
          return Some(sections[name][i].value);
        }
        i := i + 1;
      }
      return None;
    }

    method GetSectionEntries(section: string) returns (r: seq<IniEntry>)
      ensures r == EntriesOf(State(), section)
    {
      if Normalized(section) !in sections {
        return [];
      }
      return sections[Normalized(section)];
    }
  }

  // ---- Parsing, as a fold over the lines ----

  // What is carried from line to line: the document and the current section.
  datatype Progress = Progress(document: Document, section: string)

  const BEGINNING := Progress(EMPTY_DOCUMENT, "default")

  predicate IsComment(c: char) { c == ';' || c == '#' }

  predicate IsHeader(line: string) { line != [] && line[0] == '[' && line[|line| - 1] == ']' }

  predicate IsEntry(line: string) {
    line != [] && !IsComment(line[0]) && !IsHeader(line) && Find(line, '=') < |line|
  }

  function EntryOf(line: string): IniEntry
    requires IsEntry(line)
  {
    var eq := Find(line, '=');
    IniEntry(Trim(line[..eq]), Trim(line[eq + 1..]))
  }

  function OnLine(p: Progress, line: string): Progress {
    if IsHeader(line) then p.(section := Trim(line[1..|line| - 1]))
    else if IsEntry(line) then p.(document := WithEntry(p.document, p.section, EntryOf(line)))
    else p
  }

  function OnLines(p: Progress, lines: seq<string>): Progress
    decreases |lines|
  {
    if lines == [] then p else OnLines(OnLine(p, Trim(lines[0])), lines[1..])
  }

  function Lines(text: string): (lines: seq<string>)
    ensures lines != []
    decreases |text|
  {
    var n := Find(text, '\n');
    if n == |text| then [text] else [text[..n]] + Lines(text[n + 1..])
  }

  function Parse(text: string): Progress { OnLines(BEGINNING, Lines(text)) }

  method ParseLineEntry(doc: IniDocument, section: string, line: string) returns (newSection: string)
    modifies doc
    ensures Progress(doc.State(), newSection) == OnLine(Progress(old(doc.State()), section), line)
  {
    newSection := section;
    if line == [] || IsComment(line[0]) {
      return;
    }
    if line[0] == '[' && line[|line| - 1] == ']' {
      newSection := TrimView(line[1..|line| - 1]);
      return;
    }
    var eqPos := Find(line, '=');
    if eqPos == |line| {
      return;
    }
    var key := TrimView(line[..eqPos]);
    var val := TrimView(line[eqPos + 1..]);
    doc.AddEntry(section, key, val);
  }

  // The same without building the split: handle the first line, go on behind its newline.
  function ParseFrom(p: Progress, text: string): Progress
    decreases |text|
  {
    var n := Find(text, '\n');
    if n == |text| then OnLine(p, Trim(text)) else ParseFrom(OnLine(p, Trim(text[..n])), text[n + 1..])
  }

  lemma {:induction false} ParseFromIsFold(p: Progress, text: string)
    ensures ParseFrom(p, text) == OnLines(p, Lines(text))
    decreases |text|
  {
    var n := Find(text, '\n');
    if n == |text| {
      assert Lines(text) == [text];
      assert [text][1..] == [];
    } else {
      var more := Lines(text[n + 1..]);
      assert Lines(text) == [text[..n]] + more;
      assert ([text[..n]] + more)[1..] == more;
      ParseFromIsFold(OnLine(p, Trim(text[..n])), text[n + 1..]);
    }
  }

  // What is left to parse once the index stands at start; one past the end is the end.
  function ParseAt(p: Progress, text: string, start: nat): Progress {
    if start < |text| then ParseFrom(p, text[start..]) else p
  }

  lemma {:induction false} ParseFromNext(p: Progress, text: string, n: nat, line: string, rest: string)
    requires n == Find(text, '\n') && n < |text| && line == Trim(text[..n]) && rest == text[n + 1..]
    ensures ParseFrom(p, text) == ParseFrom(OnLine(p, line), rest)
  {}

  lemma {:induction false} ParseFromLast(p: Progress, text: string, line: string)
    requires Find(text, '\n') == |text| && line == Trim(text)
    ensures ParseFrom(p, text) == OnLine(p, line)
  {}

  lemma {:induction false} ParseAtStep(p: Progress, text: string, start: nat)
    requires start < |text|
    ensures var end := start + Find(text[start..], '\n');
            ParseAt(p, text, start) == ParseAt(OnLine(p, Trim(text[start..end])), text, end + 1)
  {
    var rest := text[start..];
    var n := Find(rest, '\n');
    var line := Trim(text[start..start + n]);
    assert rest[..n] == text[start..start + n];
    if n < |rest| {
      assert rest[n + 1..] == text[start + n + 1..];
      ParseFromNext(p, rest, n, line, text[start + n + 1..]);
      NothingToParse(OnLine(p, line));
    } else {
      assert rest[..n] == rest;
      ParseFromLast(p, rest, line);
    }
  }

  lemma {:induction false} NothingToParse(p: Progress)
    ensures ParseFrom(p, "") == p
  {}

  lemma {:induction false} ParseAtStart(text: string)
    ensures ParseAt(BEGINNING, text, 0) == Parse(text)
  {
    ParseFromIsFold(BEGINNING, text);
    NothingToParse(BEGINNING);
    assert text[0..] == text;
  }

  // The body of the loop below: one line, from start to the next newline or the end.
  method ParseLineAt(doc: IniDocument, section: string, content: string, start: nat, ghost whole: Progress)
    returns (newSection: string, next: nat)
    requires start < |content| && ParseAt(Progress(doc.State(), section), content, start) == whole
    modifies doc
    ensures start < next <= |content| + 1 && ParseAt(Progress(doc.State(), newSection), content, next) == whole
  {
    ghost var before := Progress(doc.State(), section);
    var end := start + Find(content[start..], '\n');
    var line := TrimView(content[start..end]);
    ParseAtStep(before, content, start);
    newSection := ParseLineEntry(doc, section, line);
    next := end + 1;
    assert Progress(doc.State(), newSection) == OnLine(before, line);
  }

  /** The index loop computes the fold over the newline split. */
  method ParseString(content: string) returns (doc: IniDocument)
    ensures fresh(doc) && doc.State() == Parse(content).document
  {
    ghost var whole := Parse(content);
    ParseAtStart(content);
    doc := new IniDocument();
    var section := "default";
    var start := 0;
    while start < |content|
      invariant 0 <= start <= |content| + 1
      invariant fresh(doc)
      invariant ParseAt(Progress(doc.State(), section), content, start) == whole
      decreases |content| + 1 - start
    {
      section, start := ParseLineAt(doc, section, content, start, whole);
    }
  }

  lemma {:induction false} OnLinesConcat(p: Progress, a: seq<string>, b: seq<string>)
    ensures OnLines(p, a + b) == OnLines(OnLines(p, a), b)
    decreases |a|
  {
    if a == [] {
      assert a + b == b;
    } else {
      assert (a + b)[1..] == a[1..] + b;
      OnLinesConcat(OnLine(p, Trim(a[0])), a[1..], b);
    }
  }

  lemma {:induction false} LinesConcat(a: string, b: string)
    ensures Lines(a + ['\n'] + b) == Lines(a) + Lines(b)
    decreases |a|
  {
    var n := Find(a, '\n');
    var t := a + ['\n'] + b;
    assert t[..n] == a[..n];
    FindExactly(a, '\n', n);
    FindExactly(t, '\n', n);
    if n == |a| {
      assert a[..n] == a && t[n + 1..] == b;
    } else {
      assert t[n + 1..] == a[n + 1..] + ['\n'] + b;
      LinesConcat(a[n + 1..], b);
    }
  }

  /** Parsing a text joined by a newline goes on from the document and the section the first part ended in. */
  lemma {:induction false} ParseContinues(a: string, b: string)
    ensures Parse(a + ['\n'] + b) == OnLines(Parse(a), Lines(b))
  {
    LinesConcat(a, b);
    OnLinesConcat(BEGINNING, Lines(a), Lines(b));
  }

  // Every line feed turned into carriage return and line feed.
  function WithReturns(text: string): string {
    if text == [] then []
    else (if text[0] == '\n' then ['\r', '\n'] else [text[0]]) + WithReturns(text[1..])
  }

  lemma {:induction false} WithReturnsByLine(text: string)
    ensures var n := Find(text, '\n');
            WithReturns(text) == if n == |text| then text else text[..n] + ['\r', '\n'] + WithReturns(text[n + 1..])
  {
    if text != [] && text[0] != '\n' {
      WithReturnsByLine(text[1..]);
      var n := Find(text[1..], '\n');
      assert text[..n + 1] == [text[0]] + text[1..][..n];
      if n < |text[1..]| {
        assert text[1..][n + 1..] == text[n + 2..];
      }
    }
  }

  lemma {:induction false} FirstLineOfReturns(text: string, n: nat)
    requires n == Find(text, '\n') && n < |text|
    ensures var t := WithReturns(text);
            Find(t, '\n') == n + 1 && n + 1 < |t|
            && t[..n + 1] == text[..n] + ['\r'] && t[n + 2..] == WithReturns(text[n + 1..])
  {
    WithReturnsByLine(text);
    var t := WithReturns(text);
    FindExactly(text, '\n', n);
    assert t[..n + 1] == text[..n] + ['\r'];
    FindExactly(t, '\n', n + 1);
  }

  lemma {:induction false} ReturnsChangeNothing(p: Progress, text: string)
    ensures ParseFrom(p, WithReturns(text)) == ParseFrom(p, text)
    decreases |text|
  {
    var n := Find(text, '\n');
    if n == |text| {
      WithReturnsByLine(text);
    } else {
      var line, rest := Trim(text[..n]), text[n + 1..];
      FirstLineOfReturns(text, n);
      TrimBeforeReturn(text[..n]);
      ParseFromNext(p, text, n, line, rest);
      ParseFromNext(p, WithReturns(text), n + 1, line, WithReturns(rest));
      ReturnsChangeNothing(OnLine(p, line), rest);
    }
  }

  /** DOS line ends never change the document. */
  lemma {:induction false} LineEndsDoNotMatter(text: string)
    ensures Parse(WithReturns(text)) == Parse(text)
  {
    ReturnsChangeNothing(BEGINNING, text);
    ParseFromIsFold(BEGINNING, text);
    ParseFromIsFold(BEGINNING, WithReturns(text));
  }
}
