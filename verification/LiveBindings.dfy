/** Which bindings of a configuration a user can ever trigger. */
module LiveBindings {
  import opened Keys
  import opened SequenceMatching
  import opened MatcherTraces
  import opened HeldKeys
  import opened Deliverable
  import Framebuffer
  import Fonts
  import Text
  import Tokens
  import IniParsing
  import opened Actions
  import ConfigScanning
  import Execution
  import opened Applications
  import opened ApplicationRuns

  // Every key that a binding's text names has a code, and one that the matcher can append.
  predicate KeysReachable(names: NameTable, c: MatcherConfig, text: string) {
    forall t :: t in Tokens.TokensOf(text) ==> FindCode(names, t).Some? && Reachable(c, FindCode(names, t).value)
  }

  lemma {:induction false} ReachableByCode(names: NameTable, c: MatcherConfig, text: string, q: KeySequence)
    requires c.hasTable && ParseSequence(names, text) == Some(q)
    ensures KeysReachable(names, c, text) <==> AllTypeable(c, q)
  {
    ParseSequenceExactly(names, text, q);
    forall k | 0 <= k < |q|
      ensures Typeable(c, q[k]) <==> Reachable(c, q[k])
      ensures FindCode(names, Tokens.TokensOf(text)[k]) == Some(q[k])
    {
      TypeableExactly(c, q[k]);
    }
  }

  /** The sequence of a binding can be delivered on a keyboard exactly when each key it names is reachable. */
  lemma {:induction false} DeliveredExactly(names: NameTable, c: MatcherConfig, text: string, q: KeySequence)
    requires c.hasTable && ParseSequence(names, text) == Some(q)
    ensures (exists tr :: WellFormed({}, tr) && Delivers(c, tr, q)) <==> KeysReachable(names, c, text)
  {
    ReachableByCode(names, c, text, q);
    DeliverableExactly(c, q);
  }

  /** So a binding that mentions a key by one of its Kindle Keyboard 3 names is never delivered. */
  lemma {:induction false} AliasNamesAreDead(names: NameTable, c: MatcherConfig, text: string, q: KeySequence,
                                             t: string, tr: seq<Stimulus>)
    requires c.hasTable && ParseSequence(WithAliases(names), text) == Some(q)
    requires t in Tokens.TokensOf(text) && Text.Normalized(t) in K3_NAMES
    ensures !Delivers(c, tr, q)
  {
    ParseSequenceExactly(WithAliases(names), text, q);
    var k :| 0 <= k < |q| && Tokens.TokensOf(text)[k] == t;
    assert FindCode(WithAliases(names), t) == Some(q[k]);
    AliasesNameReplacedCodes(names, t);
    AliasBindingIsDead(c, tr, q, k);
  }

  // ---- From a keyboard to the command of one entry ----

  // The configuration with another value for entry i.
  function WithValue(scanned: ConfigScanning.ScannedConfig, i: nat, value: string): ConfigScanning.ScannedConfig
    requires i < |scanned.actions|
  {
    scanned.(actions := scanned.actions[i := IniParsing.IniEntry(scanned.actions[i].key, value)])
  }

  ghost function Start(env: Execution.Environment, base: seq<bv8>, scanned: ConfigScanning.ScannedConfig): AppState {
    Configured(env.names, Unconfigured(base), scanned)
  }

  // These inputs run the shell command of entry i, whatever command is written there.
  ghost predicate Triggers(env: Execution.Environment, base: seq<bv8>, scanned: ConfigScanning.ScannedConfig, i: nat,
                           inputs: seq<AppInput>)
    requires Framebuffer.Fits(env.screen, base) && |env.font| == Fonts.FONT_BYTES && i < |scanned.actions|
  {
    forall command :: command in RunApp(env, Start(env, base, WithValue(scanned, i, "!" + command)), inputs).world.ran
  }

  lemma {:induction false} StartRuns(env: Execution.Environment, base: seq<bv8>,
                                     scanned: ConfigScanning.ScannedConfig, inputs: seq<AppInput>)
    requires Framebuffer.Fits(env.screen, base) && |env.font| == Fonts.FONT_BYTES && NoReload(inputs)
    ensures var s := Start(env, base, scanned);
            RunApp(env, s, inputs).world.ran ==
            CommandsForAll(s.bindings, Run(s.config, START, SeenBy(env, s, inputs)).delivered)
  {
    var s := Start(env, base, scanned);
    StartsInvariant(env, base, scanned);
    CommandsRunExactly(env, base, s, inputs);
    DeliveredIsBatch(s.config, START, SeenBy(env, s, inputs));
    var batch := Batch(s.config, 0, SeenBy(env, s, inputs));
    assert [] + batch == batch;
    var ran := CommandsForAll(s.bindings, batch);
    assert [] + ran == ran;
  }

  // Which entry is first depends on the keys alone.
  lemma {:induction false} FirstEntryByKeys(names: NameTable, a: seq<IniParsing.IniEntry>,
                                            b: seq<IniParsing.IniEntry>, q: KeySequence)
    requires |a| == |b| && forall k :: 0 <= k < |a| ==> a[k].key == b[k].key
    ensures FirstEntry(names, a, q) == FirstEntry(names, b, q)
  {
    var i, j := FirstEntry(names, a, q), FirstEntry(names, b, q);
    assert i < |a| ==> ParseSequence(names, b[i].key) == Some(q);
    assert j < |b| ==> ParseSequence(names, a[j].key) == Some(q);
  }

  // Keys only, all at time zero.
  function KeysOf(tr: seq<Stimulus>): (inputs: seq<AppInput>)
    requires forall k :: 0 <= k < |tr| ==> tr[k].Key?
    ensures |inputs| == |tr| && NoReload(inputs)
  {
    if tr == [] then [] else KeysOf(tr[..|tr| - 1]) + [KeyInput(tr[|tr| - 1].event, 0, 0)]
  }

  lemma {:induction false} KeysAreSeen(env: Execution.Environment, s: AppState, tr: seq<Stimulus>,
                                       inputs: seq<AppInput>)
    requires Sane(env, s) && (forall k :: 0 <= k < |tr| ==> tr[k].Key?) && inputs == KeysOf(tr)
    ensures SeenBy(env, s, inputs) == tr
  {
    if tr != [] {
      var before, last := tr[..|tr| - 1], tr[|tr| - 1];
      KeysAreSeen(env, s, before, KeysOf(before));
      assert inputs[..|tr| - 1] == KeysOf(before) && inputs[|tr| - 1] == KeyInput(last.event, 0, 0);
      assert tr == before + [last];
    }
  }

  lemma {:induction false} KeysAreReal(tr: seq<Stimulus>)
    requires forall k :: 0 <= k < |tr| ==> tr[k].Key?
    ensures HeldBy(KeysOf(tr)) == Held({}, tr) && (RealKeys(KeysOf(tr)) <==> WellFormed({}, tr))
  {
    if tr != [] {
      KeysAreReal(tr[..|tr| - 1]);
      assert KeysOf(tr)[..|tr| - 1] == KeysOf(tr[..|tr| - 1]);
    }
  }

  lemma {:induction false} TypingIsKeys(c: MatcherConfig, q: KeySequence)
    requires AllTypeable(c, q)
    ensures forall k :: 0 <= k < |Typing(c, q)| ==> Typing(c, q)[k].Key?
  {
    if q != [] {
      TypingIsKeys(c, q[..|q| - 1]);
    }
  }

  // What the user does: type the sequence and press the trailer.
  lemma {:induction false} TypedDelivers(c: MatcherConfig, q: KeySequence) returns (tr: seq<Stimulus>)
    requires AllTypeable(c, q)
    ensures forall k :: 0 <= k < |tr| ==> tr[k].Key?
    ensures WellFormed({}, tr) && Run(c, START, tr).delivered == [q]
  {
    var trailer := Key(KeyEvent(c.trailer, Pressed));
    TypingCollects(c, q);
    TypingIsKeys(c, q);
    Snoc(c, Typing(c, q), trailer);
    tr := Typing(c, q) + [trailer];
  }

  lemma {:induction false} CommandsOfOne(bindings: Bindings, q: KeySequence)
    ensures CommandsForAll(bindings, [q]) == CommandsFor(bindings, q)
  {
    assert [q][..0] == [];
  }

  // An entry that comes first for a sequence other than two shifts is what the sequence runs.
  lemma {:induction false} EntryAnswers(names: NameTable, scriptDir: string, entries: seq<IniParsing.IniEntry>,
                                        q: KeySequence, command: string)
    requires q != SCREENSHOT_SEQUENCE
    requires var i := FirstEntry(names, entries, q); i < |entries| && entries[i].value == "!" + command
    ensures CommandsFor(Loaded(names, scriptDir, entries), q) == [command]
  {
    LookupIsFirstEntry(names, scriptDir, entries, q);
    assert ("!" + command)[1..] == command;
  }

  // Keys that deliver a sequence run the command of the first entry for it.
  lemma {:induction false} TypedRuns(env: Execution.Environment, base: seq<bv8>,
                                     scanned: ConfigScanning.ScannedConfig, q: KeySequence, tr: seq<Stimulus>,
                                     command: string)
    requires Framebuffer.Fits(env.screen, base) && |env.font| == Fonts.FONT_BYTES && q != SCREENSHOT_SEQUENCE
    requires forall k :: 0 <= k < |tr| ==> tr[k].Key?
    requires Run(Start(env, base, scanned).config, START, tr).delivered == [q]
    ensures var i := FirstEntry(env.names, scanned.actions, q);
            i < |scanned.actions| && scanned.actions[i].value == "!" + command ==>
            RunApp(env, Start(env, base, scanned), KeysOf(tr)).world.ran == [command]
  {
    var i := FirstEntry(env.names, scanned.actions, q);
    if i < |scanned.actions| && scanned.actions[i].value == "!" + command {
      StartRuns(env, base, scanned, KeysOf(tr));
      KeysAreSeen(env, Start(env, base, scanned), tr, KeysOf(tr));
      EntryAnswers(env.names, scanned.settings.scriptDirectory, scanned.actions, q, command);
      CommandsOfOne(Start(env, base, scanned).bindings, q);
    }
  }

  // Another command in entry i leaves the keys and the matcher's configuration as they are.
  lemma {:induction false} ChangedCommand(env: Execution.Environment, base: seq<bv8>,
                                          scanned: ConfigScanning.ScannedConfig, i: nat, q: KeySequence,
                                          command: string)
    requires i < |scanned.actions|
    ensures var changed := WithValue(scanned, i, "!" + command);
            && |changed.actions| == |scanned.actions| && changed.actions[i].value == "!" + command
            && FirstEntry(env.names, changed.actions, q) == FirstEntry(env.names, scanned.actions, q)
            && Start(env, base, changed).config == Start(env, base, scanned).config
  {
    FirstEntryByKeys(env.names, scanned.actions, WithValue(scanned, i, "!" + command).actions, q);
  }

  lemma {:induction false} TypedTriggers(env: Execution.Environment, base: seq<bv8>,
                                         scanned: ConfigScanning.ScannedConfig, i: nat, q: KeySequence,
                                         tr: seq<Stimulus>, command: string, changed: ConfigScanning.ScannedConfig)
    requires Framebuffer.Fits(env.screen, base) && |env.font| == Fonts.FONT_BYTES && i < |scanned.actions|
    requires changed == WithValue(scanned, i, "!" + command)
    requires forall k :: 0 <= k < |tr| ==> tr[k].Key?
    ensures q != SCREENSHOT_SEQUENCE && FirstEntry(env.names, scanned.actions, q) == i
            && Run(Start(env, base, scanned).config, START, tr).delivered == [q] ==>
            RunApp(env, Start(env, base, changed), KeysOf(tr)).world.ran == [command]
  {
    ChangedCommand(env, base, scanned, i, q, command);
    if q != SCREENSHOT_SEQUENCE && Run(Start(env, base, scanned).config, START, tr).delivered == [q] {
      TypedRuns(env, base, changed, q, tr, command);
    }
  }

  lemma {:induction false} ReachableIsTriggered(env: Execution.Environment, base: seq<bv8>,
                                                scanned: ConfigScanning.ScannedConfig, i: nat, q: KeySequence)
    returns (inputs: seq<AppInput>)
    requires Framebuffer.Fits(env.screen, base) && |env.font| == Fonts.FONT_BYTES && i < |scanned.actions|
    ensures q != SCREENSHOT_SEQUENCE && FirstEntry(env.names, scanned.actions, q) == i
            && AllTypeable(Start(env, base, scanned).config, q) ==>
            RealKeys(inputs) && NoReload(inputs) && Triggers(env, base, scanned, i, inputs)
  {
    inputs := [];
    if q != SCREENSHOT_SEQUENCE && FirstEntry(env.names, scanned.actions, q) == i
       && AllTypeable(Start(env, base, scanned).config, q) {
      var tr := TypedDelivers(Start(env, base, scanned).config, q);
      inputs := KeysOf(tr);
      KeysAreReal(tr);
      forall command
        ensures command in RunApp(env, Start(env, base, WithValue(scanned, i, "!" + command)), inputs).world.ran
      {
        TypedTriggers(env, base, scanned, i, q, tr, command, WithValue(scanned, i, "!" + command));
      }
    }
  }

  // No value of these entries is longer.
  function Longest(entries: seq<IniParsing.IniEntry>): (n: nat)
    ensures forall k :: 0 <= k < |entries| ==> |entries[k].value| <= n
  {
    if entries == [] then 0
    else
      var before, value := Longest(entries[..|entries| - 1]), entries[|entries| - 1].value;
      if |value| <= before then before else |value|
  }

  lemma {:induction false} CommandHasSequence(bindings: Bindings, qs: seq<KeySequence>, command: string)
    returns (q: KeySequence)
    requires command in CommandsForAll(bindings, qs)
    ensures q in qs && command in CommandsFor(bindings, q)
  {
    if command in CommandsFor(bindings, qs[|qs| - 1]) {
      q := qs[|qs| - 1];
    } else {
      q := CommandHasSequence(bindings, qs[..|qs| - 1], command);
    }
  }

  lemma {:induction false} CommandIsShorter(value: string, name: string, scriptDir: string, command: string)
    requires command in Execution.CommandsOf(ParseCommand(value, name, scriptDir))
    ensures |command| < |value|
  {}

  // A command longer than every other value comes from entry i.
  lemma {:induction false} CommandComesFrom(names: NameTable, scriptDir: string, entries: seq<IniParsing.IniEntry>,
                                            i: nat, command: string, p: KeySequence)
    requires i < |entries| && forall k :: 0 <= k < |entries| && k != i ==> |entries[k].value| <= |command|
    requires command in CommandsFor(Loaded(names, scriptDir, entries), p)
    ensures p != SCREENSHOT_SEQUENCE && FirstEntry(names, entries, p) == i
  {
    LookupIsFirstEntry(names, scriptDir, entries, p);
    var j := FirstEntry(names, entries, p);
    if j < |entries| {
      CommandIsShorter(entries[j].value, entries[j].key, scriptDir, command);
    }
  }

  // A command that was run belongs to a sequence that was delivered.
  lemma {:induction false} SequenceThatRan(env: Execution.Environment, base: seq<bv8>,
                                           scanned: ConfigScanning.ScannedConfig, inputs: seq<AppInput>,
                                           command: string) returns (p: KeySequence)
    requires Framebuffer.Fits(env.screen, base) && |env.font| == Fonts.FONT_BYTES && NoReload(inputs)
    requires command in RunApp(env, Start(env, base, scanned), inputs).world.ran
    ensures command in CommandsFor(Start(env, base, scanned).bindings, p)
    ensures AllTypeable(Start(env, base, scanned).config, p)
  {
    var s := Start(env, base, scanned);
    var seen := SeenBy(env, s, inputs);
    StartRuns(env, base, scanned, inputs);
    p := CommandHasSequence(s.bindings, Run(s.config, START, seen).delivered, command);
    OnlyTypeable(s.config, seen);
  }

  lemma {:induction false} TriggeredIsReachable(env: Execution.Environment, base: seq<bv8>,
                                                scanned: ConfigScanning.ScannedConfig, i: nat, q: KeySequence,
                                                inputs: seq<AppInput>)
    requires Framebuffer.Fits(env.screen, base) && |env.font| == Fonts.FONT_BYTES && i < |scanned.actions|
    requires ParseSequence(env.names, scanned.actions[i].key) == Some(q)
    requires NoReload(inputs) && Triggers(env, base, scanned, i, inputs)
    ensures AllTypeable(Start(env, base, scanned).config, q)
    ensures q != SCREENSHOT_SEQUENCE && FirstEntry(env.names, scanned.actions, q) == i
  {
    var command := seq(Longest(scanned.actions), k => 'x');
    var changed := WithValue(scanned, i, "!" + command);
    var p := SequenceThatRan(env, base, changed, inputs, command);
    CommandComesFrom(env.names, changed.settings.scriptDirectory, changed.actions, i, command, p);
    FirstEntryByKeys(env.names, scanned.actions, changed.actions, p);
  }

  /** From a keyboard to a command: entry i of a configuration can be triggered if and only if every key it
      names is reachable, it is not two shifts, and no earlier entry binds the same sequence. */
  lemma {:induction false} LiveExactly(env: Execution.Environment, base: seq<bv8>,
                                       scanned: ConfigScanning.ScannedConfig, i: nat, q: KeySequence)
    requires Framebuffer.Fits(env.screen, base) && |env.font| == Fonts.FONT_BYTES && i < |scanned.actions|
    requires ParseSequence(env.names, scanned.actions[i].key) == Some(q)
    ensures (exists inputs :: RealKeys(inputs) && NoReload(inputs) && Triggers(env, base, scanned, i, inputs)) <==>
            && KeysReachable(env.names, Start(env, base, scanned).config, scanned.actions[i].key)
            && q != SCREENSHOT_SEQUENCE
            && FirstEntry(env.names, scanned.actions, q) == i
  {
    var c := Start(env, base, scanned).config;
    ReachableByCode(env.names, c, scanned.actions[i].key, q);
    if AllTypeable(c, q) && q != SCREENSHOT_SEQUENCE && FirstEntry(env.names, scanned.actions, q) == i {
      var inputs := ReachableIsTriggered(env, base, scanned, i, q);
    }
    forall inputs | NoReload(inputs) && Triggers(env, base, scanned, i, inputs)
      ensures AllTypeable(c, q) && q != SCREENSHOT_SEQUENCE && FirstEntry(env.names, scanned.actions, q) == i
    {
      TriggeredIsReachable(env, base, scanned, i, q, inputs);
    }
  }
}
