/** What single lines of an INI file mean, whatever white space is in them. */
module IniLaws {
  import opened Keys
  import opened Text
  import opened IniParsing
  import opened IniNormalForm

  /** A line whose first character, white space aside, has code 59 or 35 is a comment: it changes nothing. */
  lemma {:induction false} CommentChangesNothing(p: Progress, a: string, mark: char, rest: string)
    requires White(a) && mark as int in {59, 35}
    ensures OnLine(p, Trim(a + [mark] + rest)) == p
  {
    var line := [mark] + rest;
    TrimSkips(a, line, []);
    assert a + [mark] + rest == a + line + [];
    TrimFacts(line);
    assert Trim(line)[0] == mark;
  }

  // What is left of an entry's line once it is trimmed.
  function Core(k: string, b: string, c: string, v: string): string {
    (if k == [] then [] else k + b) + ['='] + (if v == [] then [] else c + v)
  }

  // A key and a value that can be read back: trimmed, no equals sign (61) in the key, which starts no
  // comment (59, 35), and not together in square brackets (91, 93).
  predicate Readable(k: string, v: string) {
    && Trimmed(k) && Trimmed(v)
    && (forall i :: 0 <= i < |k| ==> k[i] as int != 61)
    && (k != [] ==> k[0] as int !in {59, 35})
    && !(k != [] && k[0] as int == 91 && v != [] && v[|v| - 1] as int == 93)
  }

  lemma {:induction false} WhiteAppended(a: string, b: string)
    requires White(a) && White(b)
    ensures White(a + b)
  {}

  lemma {:induction false} CoreOfLine(k: string, v: string, a: string, b: string, c: string, d: string)
    requires Readable(k, v) && White(a) && White(b) && White(c) && White(d)
    ensures Trim(a + k + b + ['='] + c + v + d) == Core(k, b, c, v)
  {
    var core := Core(k, b, c, v);
    var left := if k == [] then a + b else a;
    var right := if v == [] then c + d else d;
    WhiteAppended(a, b);
    WhiteAppended(c, d);
    assert a + k + b + ['='] + c + v + d == left + core + right;
    TrimSkips(left, core, right);
    CoreIsTrimmed(k, v, b, c);
    TrimFacts(core);
  }

  lemma {:induction false} CoreIsTrimmed(k: string, v: string, b: string, c: string)
    requires Readable(k, v)
    ensures Trimmed(Core(k, b, c, v))
  {
    var core := Core(k, b, c, v);
    assert core[0] == if k == [] then '=' else k[0];
    assert core[|core| - 1] == if v == [] then '=' else v[|v| - 1];
  }

  lemma {:induction false} EqualsAt(head: string, tail: string)
    requires forall i :: 0 <= i < |head| ==> head[i] != '='
    ensures var line := head + ['='] + tail;
            Find(line, '=') == |head| && line[..|head|] == head && line[|head| + 1..] == tail
  {
    FindExactly(head + ['='] + tail, '=', |head|);
  }

  lemma {:induction false} CoreIsEntry(k: string, v: string, b: string, c: string)
    requires Readable(k, v) && White(b) && White(c)
    ensures IsEntry(Core(k, b, c, v)) && EntryOf(Core(k, b, c, v)) == IniEntry(k, v)
  {
    var core := Core(k, b, c, v);
    var head, tail := if k == [] then [] else k + b, if v == [] then [] else c + v;
    assert core[0] == if k == [] then '=' else k[0];
    assert core[|core| - 1] == if v == [] then '=' else v[|v| - 1];
    EqualsAt(head, tail);
    SideTrims(k, b);
    OtherSideTrims(c, v);
  }

  lemma {:induction false} SideTrims(k: string, b: string)
    requires Trimmed(k) && White(b)
    ensures Trim(if k == [] then [] else k + b) == k
  {
    TrimSkips([], k, b);
    assert [] + k + b == k + b;
    TrimFacts(k);
  }

  lemma {:induction false} OtherSideTrims(c: string, v: string)
    requires Trimmed(v) && White(c)
    ensures Trim(if v == [] then [] else c + v) == v
  {
    TrimSkips(c, v, []);
    assert c + v + [] == c + v;
    TrimFacts(v);
  }

  /** A line with an equals sign adds the key before it and the value behind it, without the white space around
      them, to the current section. */
  lemma {:induction false} SpacedEntryReads(p: Progress, k: string, v: string,
                                            a: string, b: string, c: string, d: string)
    requires Readable(k, v) && White(a) && White(b) && White(c) && White(d)
    ensures OnLine(p, Trim(a + k + b + ['='] + c + v + d)) ==
            p.(document := WithEntry(p.document, p.section, IniEntry(k, v)))
  {
    CoreOfLine(k, v, a, b, c, d);
    CoreIsEntry(k, v, b, c);
  }

  function Bracketed(inner: string): string { "[" + inner + "]" }

  lemma {:induction false} BracketsAreHeader(inner: string)
    ensures Trim(Bracketed(inner)) == Bracketed(inner) && IsHeader(Bracketed(inner))
    ensures Bracketed(inner)[1..|Bracketed(inner)| - 1] == inner
  {
    TrimFacts(Bracketed(inner));
  }

  /** A line in square brackets names the section, without the white space inside or outside them. */
  lemma {:induction false} SpacedHeaderReads(p: Progress, name: string, a: string, b: string, c: string, d: string)
    requires Trimmed(name) && White(a) && White(b) && White(c) && White(d)
    ensures OnLine(p, Trim(a + Bracketed(b + name + c) + d)) == p.(section := name)
  {
    TrimSkips(a, Bracketed(b + name + c), d);
    BracketsAreHeader(b + name + c);
    TrimSkips(b, name, c);
    TrimFacts(name);
  }

  /** Before any header entries go to the section "default". */
  lemma {:induction false} FirstEntryReads(k: string, v: string, a: string, b: string, c: string, d: string)
    requires Readable(k, v) && White(a) && White(b) && White(c) && White(d)
    requires OneLine(a + k + b + ['='] + c + v + d)
    ensures Parse(a + k + b + ['='] + c + v + d).document ==
            Document(map[Normalized("default") := [IniEntry(k, v)]], ["default"])
  {
    var line := a + k + b + ['='] + c + v + d;
    FindExactly(line, '\n', |line|);
    assert Lines(line) == [line];
    OnOneMoreLine(BEGINNING, [], line);
    assert [] + [line] == [line];
    SpacedEntryReads(BEGINNING, k, v, a, b, c, d);
    var e := IniEntry(k, v);
    assert EntriesOf(EMPTY_DOCUMENT, "default") + [e] == [e];
    assert [] + ["default"] == ["default"];
    assert WithEntry(EMPTY_DOCUMENT, "default", e).sections == map[Normalized("default") := [e]];
  }

  /** Reading a value back: sections and keys are equal up to case, and the first entry of a key stays. */
  lemma {:induction false} ValueAfterEntry(d: Document, section: string, e: IniEntry, s: string, key: string)
    ensures GetString(WithEntry(d, section, e), s, key) ==
            if GetString(d, s, key).None? && Normalized(s) == Normalized(section)
               && Normalized(key) == Normalized(e.key)
            then Some(e.value) else GetString(d, s, key)
  {
    if Normalized(s) == Normalized(section) {
      FirstValueAppended(EntriesOf(d, s), e, key, 0);
    }
  }

  lemma {:induction false} FirstValueAppended(entries: seq<IniEntry>, e: IniEntry, key: string, k: nat)
    requires k <= |entries|
    ensures FirstValue(entries + [e], key, k) ==
            if FirstValue(entries, key, k).Some? then FirstValue(entries, key, k)
            else if Normalized(e.key) == Normalized(key) then Some(e.value) else None
    decreases |entries| - k
  {
    if k < |entries| && Normalized(entries[k].key) != Normalized(key) {
      FirstValueAppended(entries, e, key, k + 1);
    }
    assert k < |entries| ==> (entries + [e])[k] == entries[k];
  }
}
