/** Splitting on separators, as `stream >> token` and as `strtok_r` do it. */
module Tokens {

  // How many characters come before the first separator.
  function WordLength(s: string, separators: set<char>): (n: nat)
    ensures n <= |s|
    ensures forall i :: 0 <= i < n ==> s[i] !in separators
    ensures n < |s| ==> s[n] in separators
  {
    if s == [] || s[0] in separators then 0 else 1 + WordLength(s[1..], separators)
  }

  function Split(s: string, separators: set<char>): seq<string>
    decreases |s|
  {
    if s == [] then []
    else if s[0] in separators then Split(s[1..], separators)
    else
      var n := WordLength(s, separators);
      [s[..n]] + Split(s[n..], separators)
  }

  const WHITESPACE := {' ', '\t', '\n', 0x0B as char, 0x0C as char, '\r'}
  const BLANK := {' '}

  function TokensOf(s: string): seq<string> { Split(s, WHITESPACE) }

  lemma {:induction false} LengthAgrees(s: string, a: set<char>, b: set<char>)
    requires forall i :: 0 <= i < |s| ==> (s[i] in a <==> s[i] in b)
    ensures WordLength(s, a) == WordLength(s, b)
  {
    if s != [] {
      LengthAgrees(s[1..], a, b);
    }
  }

  /** Separator sets that agree on the characters of a text split it alike. */
  lemma {:induction false} SplitAgrees(s: string, a: set<char>, b: set<char>)
    requires forall i :: 0 <= i < |s| ==> (s[i] in a <==> s[i] in b)
    ensures Split(s, a) == Split(s, b)
    decreases |s|
  {
    if s != [] {
      LengthAgrees(s, a, b);
      SplitAgrees(if s[0] in a then s[1..] else s[WordLength(s, a)..], a, b);
    }
  }
}

/** The laws that fix the tokens of a text, and texts written from their tokens. */
module TokenLaws {
  import opened Text
  import opened Tokens

  predicate AllIn(s: string, separators: set<char>) { forall k :: 0 <= k < |s| ==> s[k] in separators }

  predicate Word(w: string, separators: set<char>) {
    w != [] && forall k :: 0 <= k < |w| ==> w[k] !in separators
  }

  /** No text, no token. */
  lemma {:induction false} SplitNothing(separators: set<char>)
    ensures Split([], separators) == []
  {}

  lemma {:induction false} LengthOfWord(w: string, rest: string, separators: set<char>)
    requires Word(w, separators) && (rest == [] || rest[0] in separators)
    ensures WordLength(w + rest, separators) == |w|
  {
    var t, n := w + rest, WordLength(w + rest, separators);
    assert rest != [] ==> t[|w|] == rest[0];
    assert n < |t| ==> t[n] in separators;
    assert forall k :: 0 <= k < |w| ==> t[k] == w[k];
  }

  // A text that starts with a word has that token first.
  lemma {:induction false} SplitFirst(w: string, rest: string, separators: set<char>)
    requires Word(w, separators) && (rest == [] || rest[0] in separators)
    ensures Split(w + rest, separators) == [w] + Split(rest, separators)
  {
    var t := w + rest;
    LengthOfWord(w, rest, separators);
    assert t[0] == w[0] && t[..|w|] == w && t[|w|..] == rest;
  }

  /** A word is its own token. */
  lemma {:induction false} SplitWord(w: string, separators: set<char>)
    requires Word(w, separators)
    ensures Split(w, separators) == [w]
  {
    SplitFirst(w, [], separators);
    assert w + [] == w;
  }

  lemma {:induction false} SplitSkips(c: char, b: string, separators: set<char>)
    requires c in separators
    ensures Split([c] + b, separators) == Split(b, separators)
  {
    assert ([c] + b)[1..] == b;
  }

  // The law below for a text behind one more separator, and behind one more word.
  lemma {:induction false} SplitAtBehind(x: char, a: string, c: char, b: string, separators: set<char>,
                                         tokens: seq<string>)
    requires x in separators && Split(a + [c] + b, separators) == tokens
    ensures Split(([x] + a) + [c] + b, separators) == tokens
  {
    SplitSkips(x, a + [c] + b, separators);
    assert ([x] + a) + [c] + b == [x] + (a + [c] + b);
  }

  lemma {:induction false} SplitAtWord(w: string, a: string, c: char, b: string, separators: set<char>,
                                       tokens: seq<string>)
    requires Word(w, separators) && (a == [] || a[0] in separators) && c in separators
    requires Split(a + [c] + b, separators) == tokens
    ensures Split((w + a) + [c] + b, separators) == [w] + tokens
  {
    SplitFirst(w, a + [c] + b, separators);
    assert (w + a) + [c] + b == w + (a + [c] + b);
  }

  /** A separator separates: the tokens before it, and then those behind it. */
  lemma {:induction false} SplitAt(a: string, c: char, b: string, separators: set<char>)
    requires c in separators
    ensures Split(a + [c] + b, separators) == Split(a, separators) + Split(b, separators)
    decreases |a|
  {
    var behind := Split(b, separators);
    if a == [] {
      SplitSkips(c, b, separators);
      assert a + [c] + b == [c] + b;
    } else if a[0] in separators {
      var rest := a[1..];
      SplitAt(rest, c, b, separators);
      SplitAtBehind(a[0], rest, c, b, separators, Split(rest, separators) + behind);
      SplitSkips(a[0], rest, separators);
      assert a == [a[0]] + rest;
    } else {
      var n := WordLength(a, separators);
      var w, rest := a[..n], a[n..];
      SplitAt(rest, c, b, separators);
      SplitAtWord(w, rest, c, b, separators, Split(rest, separators) + behind);
      SplitFirst(w, rest, separators);
      assert a == w + rest;
    }
  }

  lemma {:induction false} GapBehind(a: string, gap: string, b: string, c: char)
    ensures a + (gap + [c]) + b == a + gap + ([c] + b)
  {}

  lemma {:induction false} SplitGap(a: string, gap: string, b: string, separators: set<char>)
    requires gap != [] && AllIn(gap, separators)
    ensures Split(a + gap + b, separators) == Split(a, separators) + Split(b, separators)
    decreases |gap|
  {
    var before, last := gap[..|gap| - 1], gap[|gap| - 1];
    if before == [] {
      SplitAt(a, last, b, separators);
      assert gap == [last];
    } else {
      SplitGap(a, before, [last] + b, separators);
      SplitSkips(last, b, separators);
      GapBehind(a, before, b, last);
      assert gap == before + [last];
    }
  }

  // The words in order, each behind its gap.
  function Spaced(gaps: seq<string>, words: seq<string>): string
    requires |gaps| == |words|
  {
    if words == [] then []
    else
      var n := |words| - 1;
      Spaced(gaps[..n], words[..n]) + gaps[n] + words[n]
  }

  // Words of no white space, between gaps of nothing else; only the first gap may be empty.
  ghost predicate WellSpaced(gaps: seq<string>, words: seq<string>) {
    && |gaps| == |words|
    && (forall k :: 0 <= k < |words| ==> words[k] != [] && forall j :: 0 <= j < |words[k]| ==> !White([words[k][j]]))
    && (forall k :: 0 <= k < |gaps| ==> White(gaps[k]) && (k > 0 ==> gaps[k] != []))
  }

  lemma {:induction false} WhiteIsAllIn(s: string)
    ensures White(s) <==> AllIn(s, WHITESPACE)
  {
    forall k | 0 <= k < |s|
      ensures s[k] as int in {32, 9, 10, 11, 12, 13} <==> s[k] in WHITESPACE
    {
      WhiteByCode(s[k]);
    }
  }

  lemma {:induction false} WhiteByCode(c: char)
    ensures c as int in {32, 9, 10, 11, 12, 13} <==> c in WHITESPACE
  {}

  lemma {:induction false} WordOfNoWhite(w: string)
    requires w != [] && forall j :: 0 <= j < |w| ==> !White([w[j]])
    ensures Word(w, WHITESPACE)
  {
    forall j | 0 <= j < |w|
      ensures w[j] !in WHITESPACE
    {
      WhiteIsAllIn([w[j]]);
      assert [w[j]][0] == w[j];
    }
  }

  /** The tokens of words written with any white space between and around them are these words, in order. */
  lemma {:induction false} TokensOfSpaced(gaps: seq<string>, words: seq<string>, trail: string)
    requires WellSpaced(gaps, words) && White(trail)
    ensures TokensOf(Spaced(gaps, words) + trail) == words
    decreases |trail|
  {
    if trail != [] {
      TokensOfSpaced(gaps, words, []);
      WhiteIsAllIn(trail);
      SplitGap(Spaced(gaps, words), trail, [], WHITESPACE);
      assert Spaced(gaps, words) + trail + [] == Spaced(gaps, words) + trail;
      assert Spaced(gaps, words) + [] == Spaced(gaps, words);
    } else {
      assert Spaced(gaps, words) + trail == Spaced(gaps, words);
      TokensOfUntrailed(gaps, words);
    }
  }

  lemma {:induction false} TokensOfUntrailed(gaps: seq<string>, words: seq<string>)
    requires WellSpaced(gaps, words)
    ensures TokensOf(Spaced(gaps, words)) == words
  {
    if words != [] {
      var n := |words| - 1;
      var before := Spaced(gaps[..n], words[..n]);
      TokensOfUntrailed(gaps[..n], words[..n]);
      WordOfNoWhite(words[n]);
      SplitWord(words[n], WHITESPACE);
      WhiteIsAllIn(gaps[n]);
      if gaps[n] == [] {
        assert before + gaps[n] + words[n] == words[n];
      } else {
        SplitGap(before, gaps[n], words[n], WHITESPACE);
      }
      assert words == words[..n] + [words[n]];
    }
  }
}

/** Linear search. */
module Scans {

  // The first position of x, or the length when there is none.
  function IndexOf<T(==)>(s: seq<T>, x: T): (i: nat)
    ensures i <= |s|
    ensures forall j :: 0 <= j < i ==> s[j] != x
    ensures i < |s| ==> s[i] == x
  {
    if s == [] then 0
    else
      var n := |s| - 1;
      var i := IndexOf(s[..n], x);
      if i < n || s[n] == x then i else n + 1
  }
}

/** Key names, actions, and the registry of bindings. */
module Actions {
  import opened Keys
  import opened SequenceMatching
  import opened Text
  import opened Tokens
  import opened IniParsing
  import opened Scans
  import TokenLaws

  // Key codes by normalised name.
  type NameTable = map<string, RawKeyCode>

  function FindCode(names: NameTable, name: string): Option<RawKeyCode> {
    if Normalized(name) in names then Some(names[Normalized(name)]) else None
  }

  class KeyTable {
    var nameToCode: NameTable
    var codeToName: map<RawKeyCode, string>

    constructor ()
      ensures nameToCode == map[] && codeToName == map[]
    {
      nameToCode, codeToName := map[], map[];
    }

    // Case does not matter in a name, and its last registration wins.
    method RegisterKey(code: RawKeyCode, name: string)
      modifies this
      ensures nameToCode == old(nameToCode)[Normalized(name) := code]
      ensures codeToName == old(codeToName)[code := name]
    {
      nameToCode := nameToCode[Normalized(name) := code];
      codeToName := codeToName[code := name];
    }

    method PopulateAliases()
      modifies this
      ensures nameToCode == WithAliases(old(nameToCode))
    {
      AliasNames();
      RegisterKey(K3KEY_AA, "k3_aA");
      RegisterKey(K3KEY_SYM, "k3_Sym");
      RegisterKey(K3KEY_HOME, "k3_Home");
      RegisterKey(K3KEY_BACK, "k3_Back");
      RegisterKey(K3KEY_PGFWD, "k3_>");
      RegisterKey(K3KEY_LPGBCK, "lk3_<");
      RegisterKey(K3KEY_LPGFWD, "lk3_>");
      RegisterKey(K3KEY_FW_UP, "k3_FW_Up");
      RegisterKey(K3KEY_FW_DOWN, "k3_FW_Down");
      RegisterKey(K3KEY_FW_PRESS, "k3_FW_Press");
    }
  }

  // The name table after the names of the Kindle Keyboard 3 keys were registered.
  function WithAliases(names: NameTable): NameTable {
    names["k3_aa" := K3KEY_AA]["k3_sym" := K3KEY_SYM]["k3_home" := K3KEY_HOME]["k3_back" := K3KEY_BACK]
         ["k3_>" := K3KEY_PGFWD]["lk3_<" := K3KEY_LPGBCK]["lk3_>" := K3KEY_LPGFWD]
         ["k3_fw_up" := K3KEY_FW_UP]["k3_fw_down" := K3KEY_FW_DOWN]["k3_fw_press" := K3KEY_FW_PRESS]
  }

  /** The alias names and their codes, in numbers. */
  lemma {:induction false} AliasesByNumber(names: NameTable)
    ensures var t := WithAliases(names);
            && FindCode(t, "k3_aA") == Some(190) && FindCode(t, "k3_Sym") == Some(126)
            && FindCode(t, "k3_Home") == Some(102) && FindCode(t, "k3_Back") == Some(158)
            && FindCode(t, "k3_>") == Some(191)
            && FindCode(t, "lk3_<") == Some(193) && FindCode(t, "lk3_>") == Some(104)
            && FindCode(t, "k3_FW_Up") == Some(103) && FindCode(t, "k3_FW_Down") == Some(108)
            && FindCode(t, "k3_FW_Press") == Some(194)
  {
    AliasNames();
    AliasesDiffer();
  }

  // The normalised alias names are ten different names.
  lemma {:induction false} AliasesDiffer()
    ensures "k3_aa" != "k3_>" && "k3_sym" != "k3_>" && "k3_>" != "lk3_<" && "lk3_<" != "lk3_>" && "lk3_>" != "k3_>"
    ensures |"k3_aa"| == 5 && |"k3_sym"| == 6 && |"k3_home"| == 7 && |"k3_back"| == 7 && |"k3_>"| == 4
    ensures |"lk3_<"| == 5 && |"lk3_>"| == 5 && |"k3_fw_up"| == 8 && |"k3_fw_down"| == 10 && |"k3_fw_press"| == 11
    ensures "k3_home"[3] != "k3_back"[3] && "k3_aa"[0] != "lk3_<"[0] && "lk3_<"[4] != "lk3_>"[4]
  {}

  const K3_NAMES := {
    "k3_aa", "k3_sym", "k3_home", "k3_back", "k3_>", "lk3_<", "lk3_>", "k3_fw_up", "k3_fw_down", "k3_fw_press" }

  /** Every alias name stands for a code that substitution replaces. */
  lemma {:induction false} AliasesNameReplacedCodes(names: NameTable, name: string)
    requires Normalized(name) in K3_NAMES
    ensures FindCode(WithAliases(names), name).Some? && FindCode(WithAliases(names), name).value in K3_ONLY
  {}

  lemma {:induction false} AliasNames()
    ensures Normalized("k3_aA") == "k3_aa" && Normalized("k3_Sym") == "k3_sym" && Normalized("k3_Home") == "k3_home"
    ensures Normalized("k3_Back") == "k3_back" && Normalized("k3_>") == "k3_>"
    ensures Normalized("lk3_<") == "lk3_<" && Normalized("lk3_>") == "lk3_>"
    ensures Normalized("k3_FW_Up") == "k3_fw_up" && Normalized("k3_FW_Down") == "k3_fw_down"
    ensures Normalized("k3_FW_Press") == "k3_fw_press"
  {}

  datatype Payload =
    | Shell(command: string)
    | Script(path: string)
    | KindleKeys(query: string)
    | SendKeys(keys: string)
    | Screenshot

  datatype Action = Action(displayName: string, payload: Payload)

  const SCREENSHOT_SEQUENCE: KeySequence := [KPKEY_SHIFT, KPKEY_SHIFT]
  const SCREENSHOT_ACTION := Action("[Screenshot]", Screenshot)

  function BuildScriptPath(script: string, scriptDir: string): string {
    if script == [] then ""
    else if script[0] == '/' || scriptDir == [] then script
    else if scriptDir[|scriptDir| - 1] == '/' then scriptDir + script
    else scriptDir + "/" + script
  }

  function ParseCommand(command: string, displayName: string, scriptDir: string): Action {
    if command == [] then Action(displayName, SendKeys(""))
    else if command[0] == '!' then Action(displayName, Shell(command[1..]))
    else if command[0] == '@' then Action(displayName, Script(BuildScriptPath(command[1..], scriptDir)))
    else if command[0] == '#' then Action(displayName, KindleKeys(command[1..]))
    else if command[0] == '\\' then Action(displayName, SendKeys(command[1..]))
    else Action(displayName, SendKeys(command))
  }

  // One slash between a script directory and a relative path; an absolute path, or no directory, as it is.
  predicate Joined(path: string, script: string, scriptDir: string) {
    if script == "" || script[0] as int == 47 || scriptDir == "" then path == script
    else if scriptDir[|scriptDir| - 1] as int == 47 then path == scriptDir + script
    else path == scriptDir + "/" + script
  }

  /** The first character of a command decides what it is: 33 is '!', 64 '@', 35 '#' and 92 the backslash. */
  lemma {:induction false} CommandByCode(first: char, rest: string, name: string, scriptDir: string)
    ensures var a := ParseCommand([first] + rest, name, scriptDir);
            && a.displayName == name
            && (first as int == 33 ==> a.payload == Shell(rest))
            && (first as int == 64 ==> a.payload.Script? && Joined(a.payload.path, rest, scriptDir))
            && (first as int == 35 ==> a.payload == KindleKeys(rest))
            && (first as int == 92 ==> a.payload == SendKeys(rest))
            && (first as int !in {33, 64, 35, 92} ==> a.payload == SendKeys([first] + rest))
    ensures ParseCommand("", name, scriptDir) == Action(name, SendKeys(""))
  {
    assert ([first] + rest)[1..] == rest;
  }

  // The tokens name the codes of the sequence, one by one.
  predicate Names(names: NameTable, tokens: seq<string>, q: KeySequence) {
    |tokens| == |q| && forall i :: 0 <= i < |q| ==> FindCode(names, tokens[i]) == Some(q[i])
  }

  function ResolveAll(names: NameTable, tokens: seq<string>): (q: Option<KeySequence>)
    ensures q.Some? ==> Names(names, tokens, q.value)
    ensures q.None? ==> exists i :: 0 <= i < |tokens| && FindCode(names, tokens[i]).None?
  {
    if tokens == [] then Some([])
    else
      var n := |tokens| - 1;
      var before := ResolveAll(names, tokens[..n]);
      var last := FindCode(names, tokens[n]);
      if before.Some? && last.Some? then Some(before.value + [last.value]) else None
  }

  function ParseSequence(names: NameTable, text: string): Option<KeySequence> {
    var q := ResolveAll(names, TokensOf(text));
    if q == Some([]) then None else q
  }

  lemma {:induction false} NamesIsFunctional(names: NameTable, tokens: seq<string>, p: KeySequence, q: KeySequence)
    requires Names(names, tokens, p) && Names(names, tokens, q)
    ensures p == q
  {
    forall i | 0 <= i < |p|
      ensures p[i] == q[i]
    {
      assert FindCode(names, tokens[i]) == Some(p[i]) == Some(q[i]);
    }
  }

  /** A text binds the non-empty sequence that its tokens name. */
  lemma {:induction false} ParseSequenceExactly(names: NameTable, text: string, q: KeySequence)
    ensures ParseSequence(names, text) == Some(q) <==> q != [] && Names(names, TokensOf(text), q)
  {
    var tokens := TokensOf(text);
    if q != [] && Names(names, tokens, q) {
      assert forall i :: 0 <= i < |tokens| ==> FindCode(names, tokens[i]) == Some(q[i]);
      NamesIsFunctional(names, tokens, ResolveAll(names, tokens).value, q);
    }
  }

  /** Names written with any white space between and around them bind exactly the sequence of their codes. */
  lemma {:induction false} SpacedNamesParse(names: NameTable, gaps: seq<string>, words: seq<string>, trail: string,
                                            q: KeySequence)
    requires TokenLaws.WellSpaced(gaps, words) && White(trail) && q != [] && Names(names, words, q)
    ensures ParseSequence(names, TokenLaws.Spaced(gaps, words) + trail) == Some(q)
  {
    TokenLaws.TokensOfSpaced(gaps, words, trail);
    ParseSequenceExactly(names, TokenLaws.Spaced(gaps, words) + trail, q);
  }

  method ParseSequenceText(names: NameTable, text: string) returns (r: Option<KeySequence>)
    ensures r == ParseSequence(names, text)
  {
    var tokens := TokensOf(text);
    var sequence: KeySequence := [];
    var i := 0;
    while i < |tokens|
      invariant 0 <= i <= |tokens|
      invariant ResolveAll(names, tokens[..i]) == Some(sequence)
    {
      assert tokens[..i + 1][..i] == tokens[..i];
      var code := FindCode(names, tokens[i]);
      if code.None? {
        assert ResolveAll(names, tokens).None?;
        return None;
      }
      sequence := sequence + [code.value];
      i := i + 1;
    }
    assert tokens[..i] == tokens;
    if sequence == [] {
      return None;
    }
    return Some(sequence);
  }

  type Bindings = map<KeySequence, Action>

  function FindAction(bindings: Bindings, q: KeySequence): Option<Action> {
    if q == SCREENSHOT_SEQUENCE then Some(SCREENSHOT_ACTION)
    else if q in bindings then Some(bindings[q]) else None
  }

  /** Two shifts, twice the code 42, mean the screenshot, whatever is bound. */
  lemma {:induction false} TwoShiftsByNumber(bindings: Bindings)
    ensures FindAction(bindings, [42, 42]) == Some(Action("[Screenshot]", Screenshot))
  {}

  class ActionRegistry {
    var actions: Bindings

    constructor ()
      ensures actions == map[]
    {
      actions := map[];
    }

    // The first binding of a sequence is kept.
    method RegisterAction(sequence: KeySequence, action: Action)
      modifies this
      ensures actions == map[sequence := action] + old(actions)
    {
      if sequence in actions {
        return;
      }
      actions := actions[sequence := action];
    }

    method Find(sequence: KeySequence) returns (action: Option<Action>)
      ensures action == FindAction(actions, sequence)
    {
      if sequence == [KPKEY_SHIFT, KPKEY_SHIFT] {
        return Some(Action("[Screenshot]", Screenshot));
      }
      if sequence !in actions {
        return None;
      }
      return Some(actions[sequence]);
    }

    method Clear()
      modifies this
      ensures actions == map[]
    {
      actions := map[];
    }
  }

  // The bindings after registering a list of configuration entries into an empty registry.
  function Loaded(names: NameTable, scriptDir: string, entries: seq<IniEntry>): Bindings {
    if entries == [] then map[]
    else
      var n := |entries| - 1;
      var before := Loaded(names, scriptDir, entries[..n]);
      match ParseSequence(names, entries[n].key)
      case None => before
      case Some(q) => map[q := ParseCommand(entries[n].value, entries[n].key, scriptDir)] + before
  }

  // What each entry binds.
  function Sequences(names: NameTable, entries: seq<IniEntry>): (r: seq<Option<KeySequence>>)
    ensures |r| == |entries| && forall j :: 0 <= j < |r| ==> r[j] == ParseSequence(names, entries[j].key)
  {
    if entries == [] then []
    else Sequences(names, entries[..|entries| - 1]) + [ParseSequence(names, entries[|entries| - 1].key)]
  }

  // The first entry that binds the sequence, or the length when there is none.
  function FirstEntry(names: NameTable, entries: seq<IniEntry>, q: KeySequence): (i: nat)
    ensures i <= |entries|
    ensures forall j :: 0 <= j < i ==> ParseSequence(names, entries[j].key) != Some(q)
    ensures i < |entries| ==> ParseSequence(names, entries[i].key) == Some(q)
  {
    IndexOf(Sequences(names, entries), Some(q))
  }

  // What a scan of the entries finds.
  function Scanned(names: NameTable, scriptDir: string, entries: seq<IniEntry>, q: KeySequence): Option<Action> {
    var i := FirstEntry(names, entries, q);
    if i < |entries| then Some(ParseCommand(entries[i].value, entries[i].key, scriptDir)) else None
  }

  lemma {:induction false} BindingsAreScanned(names: NameTable, scriptDir: string, entries: seq<IniEntry>,
                                              q: KeySequence)
    ensures var b := Loaded(names, scriptDir, entries);
            (if q in b then Some(b[q]) else None) == Scanned(names, scriptDir, entries, q)
  {
    if entries != [] {
      BindingsAreScanned(names, scriptDir, entries[..|entries| - 1], q);
    }
  }

  /** Lookup scans for the first entry that binds the sequence, except that two shifts always mean a
      screenshot; the empty sequence is never bound. */
  lemma {:induction false} LookupIsFirstEntry(names: NameTable, scriptDir: string, entries: seq<IniEntry>,
                                              q: KeySequence)
    ensures FindAction(Loaded(names, scriptDir, entries), q) ==
            if q == SCREENSHOT_SEQUENCE then Some(SCREENSHOT_ACTION) else Scanned(names, scriptDir, entries, q)
    ensures FindAction(Loaded(names, scriptDir, entries), []) == None
  {
    BindingsAreScanned(names, scriptDir, entries, q);
    BindingsAreScanned(names, scriptDir, entries, []);
  }
}
