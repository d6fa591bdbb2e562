/** The C program's action table: an array filled while configuration is read, searched linearly. */
module LegacyActions {
  import opened Keys
  import opened LegacyKeys
  import opened SequenceMatching
  import opened Text
  import opened Tokens
  import opened Actions
  import opened IniParsing
  import opened Scans
  import TokenLaws

  datatype LegacyAction = LegacyAction(sequence: KeySequence, payload: Payload)

  // The first MAXSEQ blank-separated tokens; a text with more is cut, not refused.
  function LegacyTokens(text: string): seq<string> {
    var tokens := Split(text, BLANK);
    if |tokens| <= MAXSEQ then tokens else tokens[..MAXSEQ]
  }

  // None stands for the result 0: an unknown name or no token at all.
  function LegacyParseSequence(names: NameTable, text: string): Option<KeySequence> {
    var q := ResolveAll(names, LegacyTokens(text));
    if q == Some([]) then None else q
  }

  /** An action's keys are the first eight names of its text, or all when there are fewer. */
  lemma {:induction false} LegacyKeyExactly(names: NameTable, text: string, q: KeySequence)
    ensures var tokens := Split(text, {' '});
            LegacyParseSequence(names, text) == Some(q) <==>
            q != [] && Names(names, if |tokens| <= 8 then tokens else tokens[..8], q)
  {
    var tokens := LegacyTokens(text);
    if q != [] && Names(names, tokens, q) {
      assert forall i :: 0 <= i < |tokens| ==> FindCode(names, tokens[i]) == Some(q[i]);
      NamesIsFunctional(names, tokens, ResolveAll(names, tokens).value, q);
    }
  }

  // None stands for an empty value or an empty command.
  function LegacyParseCommand(value: string, scriptDir: string): Option<Payload> {
    if value == [] then None
    else if value[0] == '@' then
      Some(Script(if value[1..] == [] || value[1] != '/' then scriptDir + "/" + value[1..] else value[1..]))
    else
      var rest := if value[0] in {'!', '#', '\\'} then value[1..] else value;
      if rest == [] then None
      else if value[0] == '!' then Some(Shell(rest))
      else if value[0] == '#' then Some(KindleKeys(rest))
      else Some(SendKeys(rest))
  }

  predicate Taken(actions: seq<LegacyAction>, q: KeySequence) {
    exists j :: 0 <= j < |actions| && actions[j].sequence == q
  }

  // An entry, and the script directory in force when its file was read.
  datatype LegacyEntry = LegacyEntry(scriptDir: string, entry: IniEntry)

  // The table after one more entry.
  function WithRow(names: NameTable, actions: seq<LegacyAction>, e: LegacyEntry): seq<LegacyAction> {
    var q := LegacyParseSequence(names, e.entry.key);
    var p := LegacyParseCommand(e.entry.value, e.scriptDir);
    if q.None? || Taken(actions, q.value) || p.None? then actions
    else actions + [LegacyAction(q.value, p.value)]
  }

  function WithRows(names: NameTable, actions: seq<LegacyAction>, entries: seq<LegacyEntry>): seq<LegacyAction> {
    if entries == [] then actions
    else
      var n := |entries| - 1;
      WithRow(names, WithRows(names, actions, entries[..n]), entries[n])
  }

  lemma {:induction false} WithRowsConcat(names: NameTable, actions: seq<LegacyAction>, a: seq<LegacyEntry>,
                                          b: seq<LegacyEntry>)
    ensures WithRows(names, actions, a + b) == WithRows(names, WithRows(names, actions, a), b)
    decreases |b|
  {
    if b == [] {
      assert a + b == a;
    } else {
      assert (a + b)[..|a + b| - 1] == a + b[..|b| - 1];
      WithRowsConcat(names, actions, a, b[..|b| - 1]);
    }
  }

  lemma {:induction false} OneMoreRow(names: NameTable, table: seq<LegacyAction>, entries: seq<LegacyEntry>, i: nat)
    requires i < |entries|
    ensures WithRows(names, table, entries[..i + 1]) ==
            WithRow(names, WithRows(names, table, entries[..i]), entries[i])
  {
    assert entries[..i + 1][..i] == entries[..i];
  }

  function Under(scriptDir: string, entries: seq<IniEntry>): (r: seq<LegacyEntry>)
    ensures |r| == |entries| && forall k :: 0 <= k < |r| ==> r[k] == LegacyEntry(scriptDir, entries[k])
  {
    if entries == [] then []
    else Under(scriptDir, entries[..|entries| - 1]) + [LegacyEntry(scriptDir, entries[|entries| - 1])]
  }

  // A file: its script directory setting, empty when it has none, and its actions.
  datatype LegacyFile = LegacyFile(scriptDirectory: string, actions: seq<IniEntry>)

  // A new directory is copied over the old one without its terminator: what it does not cover stays.
  function DirAfter(dir: string, value: string): string {
    value + if |value| < |dir| then dir[|value|..] else []
  }

  /** Character by character: the new directory as far as it reaches, and then what is left of the old one. */
  lemma {:induction false} DirCharacters(dir: string, value: string, k: nat)
    requires k < |DirAfter(dir, value)|
    ensures |DirAfter(dir, value)| == if |value| < |dir| then |dir| else |value|
    ensures DirAfter(dir, value)[k] == if k < |value| then value[k] else dir[k]
  {}

  function DirOfFiles(dir: string, files: seq<LegacyFile>): string {
    if files == [] then dir
    else DirAfter(DirOfFiles(dir, files[..|files| - 1]), files[|files| - 1].scriptDirectory)
  }

  // The entries of files read in this order, starting with a script directory.
  function EntriesOfFiles(dir: string, files: seq<LegacyFile>): seq<LegacyEntry> {
    if files == [] then []
    else
      var n := |files| - 1;
      EntriesOfFiles(dir, files[..n]) + Under(DirOfFiles(dir, files[..n + 1]), files[n].actions)
  }

  // The first row of the table with the sequence.
  function Row(actions: seq<LegacyAction>, q: KeySequence, k: nat): (i: nat)
    requires k <= |actions|
    ensures k <= i <= |actions|
    ensures forall j :: k <= j < i ==> actions[j].sequence != q
    ensures i < |actions| ==> actions[i].sequence == q
    decreases |actions| - k
  {
    if k == |actions| || actions[k].sequence == q then k else Row(actions, q, k + 1)
  }

  // What the table answers: a row, else the built-in screenshot for two shifts, else nothing.
  function LegacyLookup(actions: seq<LegacyAction>, q: KeySequence): Option<Payload> {
    var i := Row(actions, q, 0);
    if i < |actions| then Some(actions[i].payload)
    else if q == SCREENSHOT_SEQUENCE then Some(Screenshot) else None
  }

  class ActionTable {
    var pactions: array<LegacyAction>
    var nactions: nat
    var scriptDir: string

    predicate Valid()
      reads this
    {
      nactions <= pactions.Length
    }

    function Table(): seq<LegacyAction>
      requires Valid()
      reads this, pactions
    {
      pactions[..nactions]
    }

    constructor ()
      ensures Valid() && fresh(pactions) && Table() == [] && scriptDir == ""
    {
      pactions := new LegacyAction[0];
      nactions, scriptDir := 0, "";
    }

    // realloc: a larger array with the same rows.
    method Grow(n: nat)
      requires Valid()
      modifies this`pactions
      ensures Valid() && fresh(pactions) && pactions.Length == nactions + n
      ensures nactions == old(nactions) && Table() == old(Table())
    {
      var grown := new LegacyAction[nactions + n](i => LegacyAction([], Screenshot));
      var k := 0;
      while k < nactions
        invariant 0 <= k <= nactions && nactions == old(nactions) && pactions == old(pactions)
        invariant grown[..k] == pactions[..k]
      {
        grown[k] := pactions[k];
        k := k + 1;
      }
      pactions := grown;
    }

    method IsDefined(q: KeySequence) returns (found: bool)
      requires Valid()
      ensures found <==> Taken(Table(), q)
    {
      found := false;
      var j := 0;
      while j < nactions
        invariant 0 <= j <= nactions
        invariant found <==> Taken(Table()[..j], q)
      {
        TakenStep(Table(), q, j);
        if |pactions[j].sequence| == |q| {
          if pactions[j].sequence == q {
            found := true;
          }
        }
        j := j + 1;
      }
      assert Table()[..j] == Table();
    }

    method AddRow(row: LegacyAction)
      requires Valid() && nactions < pactions.Length
      modifies this`nactions, pactions
      ensures Valid() && nactions == old(nactions) + 1
      ensures Table() == old(Table()) + [row]
    {
      pactions[nactions] := row;
      nactions := nactions + 1;
    }

    method ProcessAction(names: NameTable, entry: IniEntry)
      requires Valid() && nactions < pactions.Length
      modifies this`nactions, pactions
      ensures Valid() && nactions <= old(nactions) + 1
      ensures Table() == WithRow(names, old(Table()), LegacyEntry(scriptDir, entry))
    {
      var sequence := LegacyParseSequence(names, entry.key);
      if sequence.Some? {
        var found := IsDefined(sequence.value);
        if !found {
          var command := LegacyParseCommand(entry.value, scriptDir);
          if command.Some? {
            AddRow(LegacyAction(sequence.value, command.value));
          }
        }
      }
    }

    // One step of the loop below: position k of the rows to come.
    method AddEntry(names: NameTable, entry: IniEntry, ghost table: seq<LegacyAction>, ghost rows: seq<LegacyEntry>,
                    ghost k: nat)
      requires Valid() && nactions < pactions.Length
      requires k < |rows| && rows[k] == LegacyEntry(scriptDir, entry) && Table() == WithRows(names, table, rows[..k])
      modifies this`nactions, pactions
      ensures Valid() && nactions <= old(nactions) + 1 && Table() == WithRows(names, table, rows[..k + 1])
    {
      ProcessAction(names, entry);
      OneMoreRow(names, table, rows, k);
    }

    // The loop over the entries of a section, once there is room for all of them.
    method AddEntries(names: NameTable, entries: seq<IniEntry>)
      requires Valid() && nactions + |entries| <= pactions.Length
      modifies this`nactions, pactions
      ensures Valid() && Table() == WithRows(names, old(Table()), Under(scriptDir, entries))
    {
      ghost var table, under := Table(), Under(scriptDir, entries);
      var i := 0;
      while i < |entries|
        invariant 0 <= i <= |entries| && Valid()
        invariant nactions + |entries| - i <= pactions.Length
        invariant Table() == WithRows(names, table, under[..i])
      {
        AddEntry(names, entries[i], table, under, i);
        i := i + 1;
      }
      assert under[..i] == under;
    }

    method ProcessActions(names: NameTable, entries: seq<IniEntry>)
      requires Valid()
      modifies this`pactions, this`nactions, pactions
      ensures Valid() && fresh(pactions)
      ensures Table() == WithRows(names, old(Table()), Under(scriptDir, entries))
    {
      Grow(|entries|);
      AddEntries(names, entries);
    }

    method ProcessIniFile(names: NameTable, file: LegacyFile)
      requires Valid()
      modifies this, pactions
      ensures Valid() && fresh(pactions)
      ensures scriptDir == DirAfter(old(scriptDir), file.scriptDirectory)
      ensures Table() == WithRows(names, old(Table()), Under(scriptDir, file.actions))
    {
      if |file.scriptDirectory| > 0 {
        // strncpy of its characters only
        var tail := if |file.scriptDirectory| < |scriptDir| then scriptDir[|file.scriptDirectory|..] else [];
        scriptDir := file.scriptDirectory + tail;
      }
      ProcessActions(names, file.actions);
    }

    // The files, in the order in which the directory lists them.
    method ProcessIniFiles(names: NameTable, files: seq<LegacyFile>)
      requires Valid()
      modifies this, pactions
      ensures Valid()
      ensures scriptDir == DirOfFiles(old(scriptDir), files)
      ensures Table() == WithRows(names, old(Table()), EntriesOfFiles(old(scriptDir), files))
    {
      ghost var table, dir := Table(), scriptDir;
      var i := 0;
      assert files[..0] == [];
      while i < |files|
        invariant 0 <= i <= |files| && Valid() && (pactions == old(pactions) || fresh(pactions))
        invariant scriptDir == DirOfFiles(dir, files[..i])
        invariant Table() == WithRows(names, table, EntriesOfFiles(dir, files[..i]))
      {
        OneMoreFile(names, table, dir, files, i);
        ProcessIniFile(names, files[i]);
        i := i + 1;
      }
      assert files[..i] == files;
    }

    method FindSequenceAction(q: KeySequence) returns (p: Option<Payload>)
      requires Valid()
      ensures p == LegacyLookup(Table(), q)
    {
      var i := 0;
      while i < nactions
        invariant 0 <= i <= nactions
        invariant Row(Table(), q, i) == Row(Table(), q, 0)
      {
        if pactions[i].sequence == q {
          return Some(pactions[i].payload);
        }
        i := i + 1;
      }
      if q == SCREENSHOT_SEQUENCE {
        return Some(Screenshot);
      }
      return None;
    }
  }

  lemma {:induction false} OneMoreFile(names: NameTable, table: seq<LegacyAction>, dir: string,
                                       files: seq<LegacyFile>, i: nat)
    requires i < |files|
    ensures DirOfFiles(dir, files[..i + 1]) == DirAfter(DirOfFiles(dir, files[..i]), files[i].scriptDirectory)
    ensures WithRows(names, table, EntriesOfFiles(dir, files[..i + 1])) ==
            WithRows(names, WithRows(names, table, EntriesOfFiles(dir, files[..i])),
                     Under(DirOfFiles(dir, files[..i + 1]), files[i].actions))
  {
    var upTo := files[..i + 1];
    assert upTo[..i] == files[..i] && upTo[..i + 1] == upTo;
    WithRowsConcat(names, table, EntriesOfFiles(dir, files[..i]), Under(DirOfFiles(dir, upTo), files[i].actions));
  }

  lemma {:induction false} TakenStep(table: seq<LegacyAction>, q: KeySequence, j: nat)
    requires j < |table|
    ensures Taken(table[..j + 1], q) <==> Taken(table[..j], q) || table[j].sequence == q
  {
    if Taken(table[..j + 1], q) {
      var k :| 0 <= k < j + 1 && table[..j + 1][k].sequence == q;
      assert k < j ==> table[..j][k].sequence == q;
    }
    if Taken(table[..j], q) {
      var k :| 0 <= k < j && table[..j][k].sequence == q;
      assert table[..j + 1][k].sequence == q;
    }
    assert table[..j + 1][j] == table[j];
  }

  // The C program keeps an entry only if its command is not empty.
  predicate Accepts(e: LegacyEntry) { LegacyParseCommand(e.entry.value, e.scriptDir).Some? }

  // What an entry binds, if its command is kept.
  function Kept(names: NameTable, e: LegacyEntry): Option<KeySequence> {
    if Accepts(e) then LegacyParseSequence(names, e.entry.key) else None
  }

  function KeptSequences(names: NameTable, entries: seq<LegacyEntry>): (r: seq<Option<KeySequence>>)
    ensures |r| == |entries| && forall j :: 0 <= j < |r| ==> r[j] == Kept(names, entries[j])
  {
    if entries == [] then []
    else KeptSequences(names, entries[..|entries| - 1]) + [Kept(names, entries[|entries| - 1])]
  }

  // The first entry that binds the sequence to a command that is kept, or the length when there is none.
  function FirstAccepted(names: NameTable, entries: seq<LegacyEntry>, q: KeySequence): (i: nat)
    ensures i <= |entries|
    ensures forall j :: 0 <= j < i ==> Kept(names, entries[j]) != Some(q)
    ensures i < |entries| ==> Kept(names, entries[i]) == Some(q)
  {
    IndexOf(KeptSequences(names, entries), Some(q))
  }

  lemma {:induction false} FirstAcceptedOfPrefix(names: NameTable, entries: seq<LegacyEntry>, n: nat, q: KeySequence)
    requires |entries| == n + 1
    ensures var i := FirstAccepted(names, entries[..n], q);
            FirstAccepted(names, entries, q) == if i < n || Kept(names, entries[n]) == Some(q) then i else n + 1
  {
    assert KeptSequences(names, entries)[..n] == KeptSequences(names, entries[..n]);
  }

  // The row of a sequence, after one more entry.
  lemma {:induction false} RowAfterEntry(names: NameTable, table: seq<LegacyAction>, e: LegacyEntry, q: KeySequence)
    ensures var grown := WithRow(names, table, e);
            var r := Row(table, q, 0);
            && table <= grown
            && Row(grown, q, 0) == (if r < |table| || Kept(names, e) == Some(q) then r else |grown|)
            && (r == |table| && Kept(names, e) == Some(q) ==>
                  r < |grown| && Some(grown[r].payload) == LegacyParseCommand(e.entry.value, e.scriptDir))
  {
    var grown := WithRow(names, table, e);
    if grown != table {
      RowOfLonger(table, grown[|table|], q);
    }
    assert Taken(table, q) <==> Row(table, q, 0) < |table|;
  }

  /** The table answers with the first accepted entry. */
  lemma {:induction false} TableIsScanned(names: NameTable, entries: seq<LegacyEntry>, q: KeySequence)
    ensures var table := WithRows(names, [], entries);
            var i := FirstAccepted(names, entries, q);
            var r := Row(table, q, 0);
            (i < |entries| <==> r < |table|)
            && (i < |entries| ==>
                  Some(table[r].payload) == LegacyParseCommand(entries[i].entry.value, entries[i].scriptDir))
  {
    if entries != [] {
      var n := |entries| - 1;
      TableIsScanned(names, entries[..n], q);
      FirstAcceptedOfPrefix(names, entries, n, q);
      RowAfterEntry(names, WithRows(names, [], entries[..n]), entries[n], q);
    }
  }

  lemma {:induction false} RowOfLonger(table: seq<LegacyAction>, a: LegacyAction, q: KeySequence)
    ensures Row(table + [a], q, 0) ==
            var r := Row(table, q, 0);
            if r < |table| then r else if a.sequence == q then |table| else |table| + 1
  {
    var longer := table + [a];
    var r, r' := Row(table, q, 0), Row(longer, q, 0);
    assert forall k :: 0 <= k < |table| ==> longer[k] == table[k];
    assert longer[|table|] == a;
    assert r < |table| ==> longer[r].sequence == q;
    assert r' < |table| ==> table[r'].sequence == q;
  }

  // ---- The two programs on the same entries ----

  // What the port reads of them.
  function Plain(entries: seq<LegacyEntry>): (r: seq<IniEntry>)
    ensures |r| == |entries| && forall k :: 0 <= k < |r| ==> r[k] == entries[k].entry
  {
    if entries == [] then [] else Plain(entries[..|entries| - 1]) + [entries[|entries| - 1].entry]
  }

  // Keys both programs read alike: blanks are the only white space, and at most MAXSEQ tokens.
  predicate PlainKey(text: string) {
    (forall i :: 0 <= i < |text| ==> (text[i] in WHITESPACE <==> text[i] in BLANK)) && |TokensOf(text)| <= MAXSEQ
  }

  lemma {:induction false} PlainKeysParseAlike(names: NameTable, text: string)
    requires PlainKey(text)
    ensures LegacyParseSequence(names, text) == ParseSequence(names, text)
  {
    SplitAgrees(text, WHITESPACE, BLANK);
  }

  lemma {:induction false} AllParseAlike(names: NameTable, entries: seq<LegacyEntry>)
    requires forall k :: 0 <= k < |entries| ==> PlainKey(entries[k].entry.key)
    ensures forall k :: 0 <= k < |entries| ==>
              KeptSequences(names, entries)[k] ==
              if Accepts(entries[k]) then Sequences(names, Plain(entries))[k] else None
  {
    forall k | 0 <= k < |entries|
      ensures Kept(names, entries[k]) ==
              if Accepts(entries[k]) then ParseSequence(names, entries[k].entry.key) else None
    {
      PlainKeysParseAlike(names, entries[k].entry.key);
    }
  }

  // Striking out some positions moves the first occurrence back, unless it is not struck out.
  lemma {:induction false} FirstAfterStriking(all: seq<Option<KeySequence>>, kept: seq<Option<KeySequence>>,
                                              q: KeySequence)
    requires |all| == |kept| && forall k :: 0 <= k < |all| ==> kept[k] == all[k] || kept[k] == None
    ensures var i := IndexOf(all, Some(q));
            && i <= IndexOf(kept, Some(q))
            && (IndexOf(kept, Some(q)) == i <==> i == |all| || kept[i] == all[i])
  {}

  /** On plain keys both programs bind a sequence to the same entry exactly when the first entry
      for it, if there is one, has a command the C program accepts. */
  lemma {:induction false} SameEntryExactly(names: NameTable, entries: seq<LegacyEntry>, q: KeySequence)
    requires forall i :: 0 <= i < |entries| ==> PlainKey(entries[i].entry.key)
    ensures var i := FirstEntry(names, Plain(entries), q);
            && (FirstAccepted(names, entries, q) == i <==> (i == |entries| || Accepts(entries[i])))
            && i <= FirstAccepted(names, entries, q)
  {
    AllParseAlike(names, entries);
    FirstAfterStriking(Sequences(names, Plain(entries)), KeptSequences(names, entries), q);
  }

  // A script's path comes out the same under both programs' directories.
  predicate JoinedAlike(value: string, legacyDir: string, portDir: string) {
    value != [] && value[0] == '@' ==>
      value[1..] != []
      && (value[1] == '/'
          || (portDir != []
              && legacyDir + "/" == if portDir[|portDir| - 1] == '/' then portDir else portDir + "/"))
  }

  /** An accepted command means the same to both programs exactly when its script, if any, is joined alike. */
  lemma {:induction false} SameCommandExactly(value: string, name: string, legacyDir: string, portDir: string)
    requires LegacyParseCommand(value, legacyDir).Some?
    ensures LegacyParseCommand(value, legacyDir).value == ParseCommand(value, name, portDir).payload <==>
            JoinedAlike(value, legacyDir, portDir)
  {
    if value[0] == '@' && (value[1..] == [] || value[1] != '/') {
      JoinsExactly(value[1..], legacyDir, portDir);
    }
  }

  lemma {:induction false} JoinsExactly(script: string, legacyDir: string, portDir: string)
    requires script == [] || script[0] != '/'
    ensures legacyDir + "/" + script == BuildScriptPath(script, portDir) <==>
            script != [] && portDir != []
            && legacyDir + "/" == if portDir[|portDir| - 1] == '/' then portDir else portDir + "/"
  {
    var dir := legacyDir + "/";
    assert |dir + script| == |legacyDir| + 1 + |script|;
    if script != [] && portDir != [] {
      var joined := if portDir[|portDir| - 1] == '/' then portDir else portDir + "/";
      assert BuildScriptPath(script, portDir) == joined + script;
      SameHead(dir, joined, script);
    }
  }

  lemma {:induction false} SameHead(a: string, b: string, c: string)
    ensures a + c == b + c <==> a == b
  {
    if a + c == b + c {
      assert |a| == |b|;
      assert a == (a + c)[..|a|] == (b + c)[..|b|] == b;
    }
  }

  // A command the C program rejects is empty in the port, and so is none that it accepts.
  lemma {:induction false} RejectedIsOther(rejected: string, name: string, portDir: string, accepted: string,
                                           dir: string, other: string)
    requires LegacyParseCommand(rejected, dir).None? && LegacyParseCommand(accepted, other).Some?
    ensures ParseCommand(rejected, name, portDir).payload != LegacyParseCommand(accepted, other).value
  {}

  function PayloadOf(a: Option<Action>): Option<Payload> {
    if a.Some? then Some(a.value.payload) else None
  }

  // What the table answers, by scanning the entries.
  lemma {:induction false} LegacyScanned(names: NameTable, entries: seq<LegacyEntry>, q: KeySequence)
    ensures var j := FirstAccepted(names, entries, q);
            LegacyLookup(WithRows(names, [], entries), q) ==
            if j < |entries| then LegacyParseCommand(entries[j].entry.value, entries[j].scriptDir)
            else if q == SCREENSHOT_SEQUENCE then Some(Screenshot) else None
  {
    TableIsScanned(names, entries, q);
  }

  // What the port answers.
  lemma {:induction false} PortScanned(names: NameTable, portDir: string, entries: seq<LegacyEntry>, q: KeySequence)
    ensures var i := FirstEntry(names, Plain(entries), q);
            PayloadOf(FindAction(Loaded(names, portDir, Plain(entries)), q)) ==
            if q == SCREENSHOT_SEQUENCE then Some(Screenshot)
            else if i < |entries|
            then Some(ParseCommand(entries[i].entry.value, entries[i].entry.key, portDir).payload) else None
  {
    LookupIsFirstEntry(names, portDir, Plain(entries), q);
  }

  // The port takes entry e. The C program takes it too if it accepts it, and otherwise another one or none.
  lemma {:induction false} AnswersAgree(e: LegacyEntry, portDir: string, other: LegacyEntry, legacy: Option<Payload>)
    requires Accepts(e) ==> legacy == LegacyParseCommand(e.entry.value, e.scriptDir)
    requires !Accepts(e) ==> legacy == None || legacy == LegacyParseCommand(other.entry.value, other.scriptDir)
    ensures Some(ParseCommand(e.entry.value, e.entry.key, portDir).payload) == legacy <==>
            Accepts(e) && JoinedAlike(e.entry.value, e.scriptDir, portDir)
  {
    if Accepts(e) {
      SameCommandExactly(e.entry.value, e.entry.key, e.scriptDir, portDir);
    } else if legacy.Some? {
      RejectedIsOther(e.entry.value, e.entry.key, portDir, other.entry.value, e.scriptDir, other.scriptDir);
    }
  }

  /** Exactly when the two programs look up the same: for two shifts, when no accepted entry binds them; for any
      other sequence, when no entry binds it, or the first one has a command the C program accepts and, if that
      is a script, joins to the same path. */
  lemma {:induction false} LookupsAgreeExactly(names: NameTable, portDir: string, entries: seq<LegacyEntry>,
                                               q: KeySequence)
    requires forall i :: 0 <= i < |entries| ==> PlainKey(entries[i].entry.key)
    ensures var i := FirstEntry(names, Plain(entries), q);
            PayloadOf(FindAction(Loaded(names, portDir, Plain(entries)), q)) ==
            LegacyLookup(WithRows(names, [], entries), q)
            <==>
            if q == SCREENSHOT_SEQUENCE then FirstAccepted(names, entries, q) == |entries|
            else i == |entries|
                 || (Accepts(entries[i]) && JoinedAlike(entries[i].entry.value, entries[i].scriptDir, portDir))
  {
    PortScanned(names, portDir, entries, q);
    LegacyScanned(names, entries, q);
    SameEntryExactly(names, entries, q);
    var i, j := FirstEntry(names, Plain(entries), q), FirstAccepted(names, entries, q);
    var legacy := LegacyLookup(WithRows(names, [], entries), q);
    if q == SCREENSHOT_SEQUENCE {
      if j < |entries| {
        NeverScreenshot(entries[j]);
      }
    } else if i < |entries| {
      AnswersAgree(entries[i], portDir, if j < |entries| then entries[j] else entries[i], legacy);
    }
  }

  lemma {:induction false} NeverScreenshot(e: LegacyEntry)
    ensures LegacyParseCommand(e.entry.value, e.scriptDir) != Some(Screenshot)
  {}

  /** Two shifts: the port always takes a screenshot, the C program lets a user's binding win. */
  lemma {:induction false} TwoShiftsDiffer(names: NameTable, portDir: string, entries: seq<LegacyEntry>, i: nat)
    requires i == FirstAccepted(names, entries, SCREENSHOT_SEQUENCE)
    ensures FindAction(Loaded(names, portDir, Plain(entries)), SCREENSHOT_SEQUENCE) == Some(SCREENSHOT_ACTION)
    ensures i == |entries| ==> LegacyLookup(WithRows(names, [], entries), SCREENSHOT_SEQUENCE) == Some(Screenshot)
    ensures i < |entries| ==>
              LegacyLookup(WithRows(names, [], entries), SCREENSHOT_SEQUENCE) ==
              LegacyParseCommand(entries[i].entry.value, entries[i].scriptDir)
  {
    LegacyScanned(names, entries, SCREENSHOT_SEQUENCE);
  }

  // A configuration of one entry, for the key Q.
  function OneEntry(scriptDir: string, value: string): seq<LegacyEntry> {
    [LegacyEntry(scriptDir, IniEntry("Q", value))]
  }

  const Q_NAMES: NameTable := map["q" := 16]

  lemma {:induction false} KeyQ()
    ensures PlainKey("Q") && ParseSequence(Q_NAMES, "Q") == Some([16])
  {
    var text := "Q";
    TokenLaws.SplitWord(text, WHITESPACE);
    assert Normalized("Q") == "q";
    assert Names(Q_NAMES, TokensOf(text), [16]);
    ParseSequenceExactly(Q_NAMES, text, [16]);
  }

  /** Inputs on which they differ: an empty command, and a script under a directory written with a slash. */
  lemma {:induction false} LookupsDiffer(value: string)
    requires value in {"", "@s.sh"}
    ensures var entries := OneEntry("./scripts/", value);
            PayloadOf(FindAction(Loaded(Q_NAMES, "./scripts/", Plain(entries)), [16])) !=
            LegacyLookup(WithRows(Q_NAMES, [], entries), [16])
  {
    KeyQ();
    var entries := OneEntry("./scripts/", value);
    assert FirstEntry(Q_NAMES, Plain(entries), [16]) == 0;
    LookupsAgreeExactly(Q_NAMES, "./scripts/", entries, [16]);
    assert |"./scripts/" + "/"| != |"./scripts/"|;
  }
}
