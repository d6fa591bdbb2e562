/** Merging the INI files of a directory. */
module ConfigScanning {
  import opened Integers
  import opened Keys
  import opened Text
  import opened IniParsing

  type Int32 = n: int | -0x8000_0000 <= n < 0x8000_0000

  datatype Settings = Settings(
    introducerKey: string, trailerKey: string, hotInterval: uint32, interKeyDelay: uint32,
    scriptDirectory: string, keyboardDevice: string, fivewayDevice: string)

  const DEFAULTS := Settings("Shift", "Enter", 700, 300, "./scripts", "/dev/input/event0", "/dev/input/event1")

  datatype ScannedConfig = ScannedConfig(settings: Settings, actions: seq<IniEntry>)

  // std::stoi; None stands for either exception.
  type ToInt = string -> Option<Int32>

  function StringSetting(d: Document, key: string, current: string): string {
    var v := GetString(d, "Settings", key);
    if v.Some? then v.value else current
  }

  // An interval counts as given when it is a positive number.
  function PositiveSetting(toInt: ToInt, d: Document, key: string): Option<uint32> {
    var v := GetString(d, "Settings", key);
    if v.None? then None
    else
      var n := toInt(v.value);
      if n.Some? && n.value > 0 then Some(n.value) else None
  }

  function MillisecondsSetting(toInt: ToInt, d: Document, key: string, current: uint32): uint32 {
    var n := PositiveSetting(toInt, d, key);
    if n.Some? then n.value else current
  }

  function Applied(toInt: ToInt, s: Settings, d: Document): Settings {
    Settings(StringSetting(d, "Introducer", s.introducerKey),
             StringSetting(d, "Trailer", s.trailerKey),
             MillisecondsSetting(toInt, d, "HotInterval", s.hotInterval),
             MillisecondsSetting(toInt, d, "InterKeyDelay", s.interKeyDelay),
             StringSetting(d, "ScriptDirectory", s.scriptDirectory),
             StringSetting(d, "KeyboardInput", s.keyboardDevice),
             StringSetting(d, "FivewayInput", s.fivewayDevice))
  }

  // get_int with default 0, and the guard that only a positive number is stored.
  method GetPositive(toInt: ToInt, doc: IniDocument, key: string, current: uint32) returns (r: uint32)
    ensures r == MillisecondsSetting(toInt, doc.State(), key, current)
  {
    var v := doc.GetStringValue("Settings", key);
    var n: Int32 := 0;
    if v.Some? {
      var parsed := toInt(v.value);
      if parsed.Some? {
        n := parsed.value;
      }
    }
    r := current;
    if n > 0 {
      r := n;
    }
  }

  method ApplySettings(toInt: ToInt, settings: Settings, doc: IniDocument) returns (r: Settings)
    ensures r == Applied(toInt, settings, doc.State())
  {
    r := settings;
    var present := doc.HasSection("Settings");
    if !present {
      return;
    }
    var val := doc.GetStringValue("Settings", "Introducer");
    if val.Some? { r := r.(introducerKey := val.value); }
    val := doc.GetStringValue("Settings", "Trailer");
    if val.Some? { r := r.(trailerKey := val.value); }
    val := doc.GetStringValue("Settings", "ScriptDirectory");
    if val.Some? { r := r.(scriptDirectory := val.value); }
    val := doc.GetStringValue("Settings", "KeyboardInput");
    if val.Some? { r := r.(keyboardDevice := val.value); }
    val := doc.GetStringValue("Settings", "FivewayInput");
    if val.Some? { r := r.(fivewayDevice := val.value); }
    var hot := GetPositive(toInt, doc, "HotInterval", r.hotInterval);
    var delay := GetPositive(toInt, doc, "InterKeyDelay", r.interKeyDelay);
    r := r.(hotInterval := hot, interKeyDelay := delay);
  }

  // ---- Finding the files ----

  const SUFFIX := ".ini"

  predicate IsIniName(name: string) { |name| > 4 && name[|name| - 4..] == SUFFIX }

  function PathOf(directory: string, name: string): string {
    if directory != [] && directory[|directory| - 1] != '/' then directory + "/" + name else directory + name
  }

  function Paths(directory: string, names: seq<string>): seq<string> {
    if names == [] then []
    else
      var before := Paths(directory, names[..|names| - 1]);
      var name := names[|names| - 1];
      if IsIniName(name) then before + [PathOf(directory, name)] else before
  }

  // The name is longer than four characters and ends in ".ini", and the path is the directory and the name
  // with one slash (47) between them, unless the directory is empty or ends in one.
  ghost predicate IsPathOf(path: string, directory: string, name: string) {
    && (exists stem :: stem != [] && name == stem + ".ini")
    && (if directory == [] || directory[|directory| - 1] as int == 47 then path == directory + name
        else path == directory + "/" + name)
  }

  lemma {:induction false} IniNameExactly(name: string)
    ensures IsIniName(name) <==> exists stem :: stem != [] && name == stem + ".ini"
  {
    if IsIniName(name) {
      var stem := name[..|name| - 4];
      assert stem != [] && name == stem + ".ini";
    }
  }

  /** The paths are exactly those of the listed names. */
  lemma {:induction false} PathsExactly(directory: string, names: seq<string>, path: string)
    ensures path in Paths(directory, names) <==> exists k :: 0 <= k < |names| && IsPathOf(path, directory, names[k])
  {
    if names != [] {
      var before, name := names[..|names| - 1], names[|names| - 1];
      PathsExactly(directory, before, path);
      IniNameExactly(name);
      assert forall k :: 0 <= k < |before| ==> before[k] == names[k];
      assert IsPathOf(path, directory, name) <==> IsIniName(name) && path == PathOf(directory, name);
    }
  }

  // The order of std::string: character by character, then by length.
  predicate Leq(a: string, b: string) {
    a == [] || (b != [] && (a[0] < b[0] || (a[0] == b[0] && Leq(a[1..], b[1..]))))
  }

  // Up to k the two are equal, and there a ends or has the smaller character.
  ghost predicate DiffersAt(a: string, b: string, k: int) {
    0 <= k <= |a| && k <= |b| && a[..k] == b[..k] && (k == |a| || (k < |b| && a[k] as int < b[k] as int))
  }

  /** The order looks at the first character in which the two differ; a text that is a beginning comes first. */
  lemma {:induction false} LeqExactly(a: string, b: string)
    ensures Leq(a, b) <==> exists k :: DiffersAt(a, b, k)
  {
    if a == [] {
      assert DiffersAt(a, b, 0);
    } else if b != [] {
      if a[0] == b[0] {
        LeqExactly(a[1..], b[1..]);
        LeqShift(a, b);
      } else {
        assert a[..0] == b[..0];
        assert DiffersAt(a, b, 0) <==> a[0] < b[0];
        assert forall k :: 1 <= k <= |a| && k <= |b| ==> a[..k][0] == a[0] && b[..k][0] == b[0];
      }
    }
  }

  lemma {:induction false} LeqShift(a: string, b: string)
    requires a != [] && b != [] && a[0] == b[0]
    ensures (exists k :: DiffersAt(a, b, k)) <==> exists k :: DiffersAt(a[1..], b[1..], k)
  {
    forall k | DiffersAt(a, b, k)
      ensures DiffersAt(a[1..], b[1..], k - 1)
    {
      assert a[1..][..k - 1] == a[..k][1..] && b[1..][..k - 1] == b[..k][1..];
    }
    forall k | DiffersAt(a[1..], b[1..], k)
      ensures DiffersAt(a, b, k + 1)
    {
      assert a[..k + 1] == [a[0]] + a[1..][..k] && b[..k + 1] == [b[0]] + b[1..][..k];
    }
  }

  lemma {:induction false} LeqTotal(a: string, b: string)
    ensures Leq(a, b) || Leq(b, a)
    ensures Leq(a, b) && Leq(b, a) ==> a == b
  {
    if a != [] && b != [] {
      LeqTotal(a[1..], b[1..]);
      assert a == [a[0]] + a[1..] && b == [b[0]] + b[1..];
    }
  }

  lemma {:induction false} LeqTransitive(a: string, b: string, c: string)
    requires Leq(a, b) && Leq(b, c)
    ensures Leq(a, c)
  {
    if a != [] && a[0] == b[0] == c[0] {
      LeqTransitive(a[1..], b[1..], c[1..]);
    }
  }

  ghost predicate Sorted(s: seq<string>) {
    forall i, j :: 0 <= i < j < |s| ==> Leq(s[i], s[j])
  }

  function Inserted(s: seq<string>, x: string): seq<string> {
    if s == [] || Leq(s[|s| - 1], x) then s + [x]
    else Inserted(s[..|s| - 1], x) + [s[|s| - 1]]
  }

  // What std::sort leaves: the sorted arrangement, which is unique.
  function SortedPaths(s: seq<string>): seq<string> {
    if s == [] then [] else Inserted(SortedPaths(s[..|s| - 1]), s[|s| - 1])
  }

  lemma {:induction false} InsertedAdds(s: seq<string>, x: string)
    ensures multiset(Inserted(s, x)) == multiset(s) + multiset{x}
  {
    if s != [] {
      assert s == s[..|s| - 1] + [s[|s| - 1]];
      if !Leq(s[|s| - 1], x) {
        InsertedAdds(s[..|s| - 1], x);
      }
    }
  }

  lemma {:induction false} AppendedSorted(s: seq<string>, x: string)
    requires Sorted(s) && forall y :: y in multiset(s) ==> Leq(y, x)
    ensures Sorted(s + [x])
  {
    forall i | 0 <= i < |s|
      ensures Leq(s[i], x)
    {
      assert s[i] in multiset(s);
    }
  }

  lemma {:induction false} InsertedSorts(s: seq<string>, x: string)
    requires Sorted(s)
    ensures Sorted(Inserted(s, x)) && multiset(Inserted(s, x)) == multiset(s) + multiset{x}
  {
    InsertedAdds(s, x);
    if s != [] {
      var before, last := s[..|s| - 1], s[|s| - 1];
      if Leq(last, x) {
        forall y | y in multiset(s)
          ensures Leq(y, x)
        {
          LastBounds(s, y);
          LeqTransitive(y, last, x);
        }
        AppendedSorted(s, x);
      } else {
        LeqTotal(last, x);
        InsertedSorts(before, x);
        forall y | y in multiset(Inserted(before, x))
          ensures Leq(y, last)
        {
          assert y == x || y in multiset(before);
          if y in multiset(before) {
            assert y in multiset(s);
            LastBounds(s, y);
          }
        }
        AppendedSorted(Inserted(before, x), last);
      }
    }
  }

  lemma {:induction false} SortedPathsSorts(s: seq<string>)
    ensures Sorted(SortedPaths(s)) && multiset(SortedPaths(s)) == multiset(s)
  {
    if s != [] {
      SortedPathsSorts(s[..|s| - 1]);
      InsertedSorts(SortedPaths(s[..|s| - 1]), s[|s| - 1]);
      assert s == s[..|s| - 1] + [s[|s| - 1]];
    }
  }

  lemma {:induction false} LastBounds(a: seq<string>, x: string)
    requires Sorted(a) && x in multiset(a)
    ensures Leq(x, a[|a| - 1])
  {
    var i :| 0 <= i < |a| && a[i] == x;
    LeqTotal(x, x);
  }

  lemma {:induction false} DropLast(a: seq<string>)
    requires Sorted(a) && a != []
    ensures a == a[..|a| - 1] + [a[|a| - 1]] && a[|a| - 1] in multiset(a)
    ensures multiset(a[..|a| - 1]) == multiset(a) - multiset{a[|a| - 1]}
    ensures Sorted(a[..|a| - 1])
  {
    assert a == a[..|a| - 1] + [a[|a| - 1]];
  }

  lemma {:induction false} SameLast(a: seq<string>, b: seq<string>)
    requires Sorted(a) && Sorted(b) && multiset(a) == multiset(b) && a != []
    ensures b != [] && a[|a| - 1] == b[|b| - 1]
  {
    assert a[|a| - 1] in multiset(b);
    assert b[|b| - 1] in multiset(a);
    LastBounds(b, a[|a| - 1]);
    LastBounds(a, b[|b| - 1]);
    LeqTotal(a[|a| - 1], b[|b| - 1]);
  }

  lemma {:induction false} SortedUnique(a: seq<string>, b: seq<string>)
    requires Sorted(a) && Sorted(b) && multiset(a) == multiset(b)
    ensures a == b
    decreases |a|
  {
    if a == [] {
      assert |multiset(b)| == 0;
    } else {
      SameLast(a, b);
      DropLast(a);
      DropLast(b);
      SortedUnique(a[..|a| - 1], b[..|b| - 1]);
    }
  }

  lemma {:induction false} PathsConcat(directory: string, a: seq<string>, b: seq<string>)
    ensures Paths(directory, a + b) == Paths(directory, a) + Paths(directory, b)
    decreases |b|
  {
    if b == [] {
      assert a + b == a;
    } else {
      assert (a + b)[..|a + b| - 1] == a + b[..|b| - 1];
      PathsConcat(directory, a, b[..|b| - 1]);
    }
  }

  lemma {:induction false} PathsOfPermutation(directory: string, a: seq<string>, b: seq<string>)
    requires multiset(a) == multiset(b)
    ensures multiset(Paths(directory, a)) == multiset(Paths(directory, b))
    decreases |a|
  {
    if a == [] {
      assert |multiset(b)| == 0;
      assert b == [];
    } else {
      var x, rest := a[|a| - 1], a[..|a| - 1];
      assert a == rest + [x];
      assert x in multiset(b);
      var i :| 0 <= i < |b| && b[i] == x;
      var c := b[..i] + b[i + 1..];
      assert b == b[..i] + [x] + b[i + 1..];
      assert multiset(c) == multiset(b) - multiset{x};
      PathsOfPermutation(directory, rest, c);
      PathsConcat(directory, rest, [x]);
      PathsConcat(directory, b[..i], b[i + 1..]);
      PathsConcat(directory, b[..i] + [x], b[i + 1..]);
      PathsConcat(directory, b[..i], [x]);
    }
  }

  method FindIniFiles(directory: string, names: seq<string>) returns (files: seq<string>)
    ensures files == SortedPaths(Paths(directory, names))
  {
    files := [];
    var i := 0;
    while i < |names|
      invariant 0 <= i <= |names| && files == Paths(directory, names[..i])
    {
      assert names[..i + 1][..i] == names[..i];
      var name := names[i];
      if |name| > 4 && name[|name| - 4..] == SUFFIX {
        var fullPath := directory;
        if fullPath != [] && fullPath[|fullPath| - 1] != '/' {
          fullPath := fullPath + "/";
        }
        files := files + [fullPath + name];
      }
      i := i + 1;
    }
    assert names[..i] == names;
    files := SortedPaths(files);
  }

  // ---- The merge ----

  // The documents of the files that can be opened, in order.
  function Documents(files: map<string, string>, paths: seq<string>): seq<Document> {
    if paths == [] then []
    else
      var before := Documents(files, paths[..|paths| - 1]);
      var path := paths[|paths| - 1];
      if path in files then before + [Parse(files[path]).document] else before
  }

  function Merged(toInt: ToInt, docs: seq<Document>): ScannedConfig {
    if docs == [] then ScannedConfig(DEFAULTS, [])
    else
      var before := Merged(toInt, docs[..|docs| - 1]);
      var d := docs[|docs| - 1];
      ScannedConfig(Applied(toInt, before.settings, d), before.actions + EntriesOf(d, "Actions"))
  }

  function Scan(toInt: ToInt, directory: string, names: seq<string>, files: map<string, string>): ScannedConfig {
    Merged(toInt, Documents(files, SortedPaths(Paths(directory, names))))
  }

  lemma {:induction false} MergeOneMore(toInt: ToInt, files: map<string, string>, paths: seq<string>, i: nat)
    requires i < |paths|
    ensures Merged(toInt, Documents(files, paths[..i + 1])) ==
            var before := Merged(toInt, Documents(files, paths[..i]));
            if paths[i] !in files then before
            else
              var d := Parse(files[paths[i]]).document;
              ScannedConfig(Applied(toInt, before.settings, d), before.actions + EntriesOf(d, "Actions"))
  {
    assert paths[..i + 1][..i] == paths[..i];
    if paths[i] in files {
      var docs := Documents(files, paths[..i]);
      var d := Parse(files[paths[i]]).document;
      assert (docs + [d])[..|docs|] == docs;
    }
  }

  method ScanDirectory(toInt: ToInt, directory: string, names: seq<string>, files: map<string, string>)
    returns (result: ScannedConfig)
    ensures result == Scan(toInt, directory, names, files)
  {
    result := ScannedConfig(DEFAULTS, []);
    var paths := FindIniFiles(directory, names);
    var i := 0;
    while i < |paths|
      invariant 0 <= i <= |paths|
      invariant result == Merged(toInt, Documents(files, paths[..i]))
    {
      MergeOneMore(toInt, files, paths, i);
      if paths[i] in files {
        var doc := ParseString(files[paths[i]]);
        var settings := ApplySettings(toInt, result.settings, doc);
        var actions := doc.GetSectionEntries("Actions");
        result := ScannedConfig(settings, result.actions + actions);
      }
      i := i + 1;
    }
    assert paths[..i] == paths;
  }

  /** The order in which the directory lists its files does not matter. */
  lemma {:induction false} OrderDoesNotMatter(toInt: ToInt, directory: string, a: seq<string>, b: seq<string>,
                                              files: map<string, string>)
    requires multiset(a) == multiset(b)
    ensures Scan(toInt, directory, a, files) == Scan(toInt, directory, b, files)
  {
    PathsOfPermutation(directory, a, b);
    SortedPathsSorts(Paths(directory, a));
    SortedPathsSorts(Paths(directory, b));
    SortedUnique(SortedPaths(Paths(directory, a)), SortedPaths(Paths(directory, b)));
  }

  // A document with one setting.
  function OneSetting(key: string, value: string): Document {
    WithEntry(EMPTY_DOCUMENT, "Settings", IniEntry(key, value))
  }

  lemma {:induction false} ReadsOneSetting(key: string, value: string, other: string)
    ensures GetString(OneSetting(key, value), "Settings", other) ==
            if Normalized(other) == Normalized(key) then Some(value) else None
  {
    assert EntriesOf(EMPTY_DOCUMENT, "Settings") + [IniEntry(key, value)] == [IniEntry(key, value)];
  }

  lemma {:induction false} IntroducerTrailerByName(toInt: ToInt, s: Settings, value: string)
    ensures Applied(toInt, s, OneSetting("Introducer", value)).introducerKey == value
    ensures Applied(toInt, s, OneSetting("Trailer", value)).trailerKey == value
  {
    ReadsOneSetting("Introducer", value, "Introducer");
    ReadsOneSetting("Trailer", value, "Trailer");
  }

  /** Each setting is changed by the entry of its name in section Settings. */
  lemma {:induction false} SettingsByName(toInt: ToInt, s: Settings, value: string)
    ensures Applied(toInt, s, OneSetting("Introducer", value)).introducerKey == value
    ensures Applied(toInt, s, OneSetting("Trailer", value)).trailerKey == value
    ensures Applied(toInt, s, OneSetting("ScriptDirectory", value)).scriptDirectory == value
    ensures Applied(toInt, s, OneSetting("KeyboardInput", value)).keyboardDevice == value
    ensures Applied(toInt, s, OneSetting("FivewayInput", value)).fivewayDevice == value
    ensures var n := toInt(value);
            n.Some? && n.value > 0 ==>
              && Applied(toInt, s, OneSetting("HotInterval", value)).hotInterval == n.value
              && Applied(toInt, s, OneSetting("InterKeyDelay", value)).interKeyDelay == n.value
  {
    IntroducerTrailerByName(toInt, s, value);
    ReadsOneSetting("ScriptDirectory", value, "ScriptDirectory");
    ReadsOneSetting("KeyboardInput", value, "KeyboardInput");
    ReadsOneSetting("FivewayInput", value, "FivewayInput");
    ReadsOneSetting("HotInterval", value, "HotInterval");
    ReadsOneSetting("InterKeyDelay", value, "InterKeyDelay");
  }

  /** The actions are those of the first document, then those of the next, and so on. */
  lemma {:induction false} ActionsInOrder(toInt: ToInt, a: seq<Document>, b: seq<Document>)
    ensures Merged(toInt, a + b).actions == Merged(toInt, a).actions + Merged(toInt, b).actions
    ensures |b| == 1 ==> Merged(toInt, b).actions == EntriesOf(b[0], "Actions")
    decreases |b|
  {
    if b == [] {
      assert a + b == a;
    } else {
      assert (a + b)[..|a + b| - 1] == a + b[..|b| - 1];
      ActionsInOrder(toInt, a, b[..|b| - 1]);
    }
  }

  /** Without a readable file the settings are these, and there are no actions. */
  lemma {:induction false} SettingsByDefault(toInt: ToInt, directory: string, names: seq<string>)
    ensures Scan(toInt, directory, names, map[]) ==
            ScannedConfig(Settings("Shift", "Enter", 700, 300, "./scripts",
                                   "/dev/input/event0", "/dev/input/event1"), [])
  {
    NothingReadable(SortedPaths(Paths(directory, names)));
  }

  lemma {:induction false} NothingReadable(paths: seq<string>)
    ensures Documents(map[], paths) == []
  {
    if paths != [] {
      NothingReadable(paths[..|paths| - 1]);
    }
  }

  // How a document gives a setting.
  function StringIn(key: string): Document -> Option<string> { d => GetString(d, "Settings", key) }

  function IntervalIn(toInt: ToInt, key: string): Document -> Option<uint32> { d => PositiveSetting(toInt, d, key) }

  function Values<T>(docs: seq<Document>, read: Document -> Option<T>): seq<Option<T>> {
    if docs == [] then [] else Values(docs[..|docs| - 1], read) + [read(docs[|docs| - 1])]
  }

  // The value is the last one there is, or the default when there is none.
  ghost predicate FromLast<T(!new)>(values: seq<Option<T>>, value: T, default: T) {
    && (forall k :: 0 <= k < |values| && values[k].Some? && (forall j :: k < j < |values| ==> values[j].None?)
          ==> values[k].value == value)
    && ((forall k :: 0 <= k < |values| ==> values[k].None?) ==> value == default)
  }

  lemma {:induction false} FromLastStep<T(!new)>(docs: seq<Document>, read: Document -> Option<T>, value: T, default: T)
    requires docs != [] && FromLast(Values(docs[..|docs| - 1], read), value, default)
    ensures var v := read(docs[|docs| - 1]);
            FromLast(Values(docs, read), if v.Some? then v.value else value, default)
  {
    var values, longer := Values(docs[..|docs| - 1], read), Values(docs, read);
    assert longer[|values|] == read(docs[|docs| - 1]);
    assert forall k :: 0 <= k < |values| ==> longer[k] == values[k];
    if longer[|values|].None? {
      forall k | 0 <= k < |longer| && longer[k].Some? && (forall j :: k < j < |longer| ==> longer[j].None?)
        ensures longer[k].value == value
      {
        assert forall j :: k < j < |values| ==> values[j] == longer[j];
      }
    }
  }

  /** Each string setting, and each positive interval, comes from the last file that defines it. */
  lemma {:induction false} SettingsComeFromLast(toInt: ToInt, docs: seq<Document>)
    ensures var s := Merged(toInt, docs).settings;
            && FromLast(Values(docs, StringIn("Introducer")), s.introducerKey, DEFAULTS.introducerKey)
            && FromLast(Values(docs, StringIn("Trailer")), s.trailerKey, DEFAULTS.trailerKey)
            && FromLast(Values(docs, IntervalIn(toInt, "HotInterval")), s.hotInterval, DEFAULTS.hotInterval)
            && FromLast(Values(docs, IntervalIn(toInt, "InterKeyDelay")), s.interKeyDelay, DEFAULTS.interKeyDelay)
            && FromLast(Values(docs, StringIn("ScriptDirectory")), s.scriptDirectory, DEFAULTS.scriptDirectory)
            && FromLast(Values(docs, StringIn("KeyboardInput")), s.keyboardDevice, DEFAULTS.keyboardDevice)
            && FromLast(Values(docs, StringIn("FivewayInput")), s.fivewayDevice, DEFAULTS.fivewayDevice)
  {
    if docs != [] {
      SettingsComeFromLast(toInt, docs[..|docs| - 1]);
      var s := Merged(toInt, docs[..|docs| - 1]).settings;
      FromLastStep(docs, StringIn("Introducer"), s.introducerKey, DEFAULTS.introducerKey);
      FromLastStep(docs, StringIn("Trailer"), s.trailerKey, DEFAULTS.trailerKey);
      FromLastStep(docs, IntervalIn(toInt, "HotInterval"), s.hotInterval, DEFAULTS.hotInterval);
      FromLastStep(docs, IntervalIn(toInt, "InterKeyDelay"), s.interKeyDelay, DEFAULTS.interKeyDelay);
      FromLastStep(docs, StringIn("ScriptDirectory"), s.scriptDirectory, DEFAULTS.scriptDirectory);
      FromLastStep(docs, StringIn("KeyboardInput"), s.keyboardDevice, DEFAULTS.keyboardDevice);
      FromLastStep(docs, StringIn("FivewayInput"), s.fivewayDevice, DEFAULTS.fivewayDevice);
    }
  }

  // ---- The same for a directory: the readable file with the greatest path decides ----

  function Members(paths: seq<string>): set<string> { set p | p in paths }

  // What a file gives for a setting, if it is one of these paths and can be read.
  function Given<T>(files: map<string, string>, paths: set<string>, path: string,
                    read: Document -> Option<T>): Option<T> {
    if path in paths && path in files then read(Parse(files[path]).document) else None
  }

  // The value is given by the greatest path that gives one, or is the default when none does.
  ghost predicate FromGreatest<T(!new)>(files: map<string, string>, paths: set<string>, read: Document -> Option<T>,
                                        value: T, default: T) {
    && (forall p :: Given(files, paths, p, read).Some?
          && (forall other :: Given(files, paths, other, read).Some? ==> Leq(other, p))
          ==> Given(files, paths, p, read).value == value)
    && ((forall p :: Given(files, paths, p, read).None?) ==> value == default)
  }

  // One more path, not smaller than the others.
  lemma {:induction false} FromGreatestStep<T(!new)>(files: map<string, string>, paths: set<string>, path: string,
                                                     read: Document -> Option<T>, value: T, default: T)
    requires FromGreatest(files, paths, read, value, default) && forall p :: p in paths ==> Leq(p, path)
    ensures var v := Given(files, {path}, path, read);
            FromGreatest(files, paths + {path}, read, if v.Some? then v.value else value, default)
  {
    var all := paths + {path};
    var v := Given(files, {path}, path, read);
    assert forall p :: p != path ==> Given(files, all, p, read) == Given(files, paths, p, read);
    assert Given(files, all, path, read) == v;
    if v.Some? {
      forall p | Given(files, all, p, read).Some?
                 && forall other :: Given(files, all, other, read).Some? ==> Leq(other, p)
        ensures p == path
      {
        assert Leq(path, p);
        LeqTotal(path, path);
        LeqTotal(p, path);
      }
    } else {
      assert forall p :: Given(files, paths, p, read) == Given(files, all, p, read);
    }
  }

  ghost predicate AllFromGreatest(toInt: ToInt, files: map<string, string>, paths: set<string>, s: Settings) {
    && FromGreatest(files, paths, StringIn("Introducer"), s.introducerKey, DEFAULTS.introducerKey)
    && FromGreatest(files, paths, StringIn("Trailer"), s.trailerKey, DEFAULTS.trailerKey)
    && FromGreatest(files, paths, IntervalIn(toInt, "HotInterval"), s.hotInterval, DEFAULTS.hotInterval)
    && FromGreatest(files, paths, IntervalIn(toInt, "InterKeyDelay"), s.interKeyDelay, DEFAULTS.interKeyDelay)
    && FromGreatest(files, paths, StringIn("ScriptDirectory"), s.scriptDirectory, DEFAULTS.scriptDirectory)
    && FromGreatest(files, paths, StringIn("KeyboardInput"), s.keyboardDevice, DEFAULTS.keyboardDevice)
    && FromGreatest(files, paths, StringIn("FivewayInput"), s.fivewayDevice, DEFAULTS.fivewayDevice)
  }

  lemma {:induction false} AllFromGreatestStep(toInt: ToInt, files: map<string, string>, paths: set<string>,
                                               path: string, s: Settings)
    requires AllFromGreatest(toInt, files, paths, s) && forall p :: p in paths ==> Leq(p, path)
    ensures AllFromGreatest(toInt, files, paths + {path},
                            if path in files then Applied(toInt, s, Parse(files[path]).document) else s)
  {
    FromGreatestStep(files, paths, path, StringIn("Introducer"), s.introducerKey, DEFAULTS.introducerKey);
    FromGreatestStep(files, paths, path, StringIn("Trailer"), s.trailerKey, DEFAULTS.trailerKey);
    FromGreatestStep(files, paths, path, IntervalIn(toInt, "HotInterval"), s.hotInterval, DEFAULTS.hotInterval);
    FromGreatestStep(files, paths, path, IntervalIn(toInt, "InterKeyDelay"), s.interKeyDelay, DEFAULTS.interKeyDelay);
    FromGreatestStep(files, paths, path, StringIn("ScriptDirectory"), s.scriptDirectory, DEFAULTS.scriptDirectory);
    FromGreatestStep(files, paths, path, StringIn("KeyboardInput"), s.keyboardDevice, DEFAULTS.keyboardDevice);
    FromGreatestStep(files, paths, path, StringIn("FivewayInput"), s.fivewayDevice, DEFAULTS.fivewayDevice);
  }

  lemma {:induction false} MembersOfPrefix(paths: seq<string>, n: nat)
    requires |paths| == n + 1 && Sorted(paths)
    ensures Members(paths) == Members(paths[..n]) + {paths[n]} && Sorted(paths[..n])
    ensures forall p :: p in Members(paths[..n]) ==> Leq(p, paths[n])
  {
    assert paths == paths[..n] + [paths[n]];
  }

  lemma {:induction false} MergedFromGreatest(toInt: ToInt, files: map<string, string>, paths: seq<string>)
    requires Sorted(paths)
    ensures AllFromGreatest(toInt, files, Members(paths), Merged(toInt, Documents(files, paths)).settings)
  {
    if paths == [] {
      assert Members(paths) == {};
    } else {
      var n := |paths| - 1;
      MembersOfPrefix(paths, n);
      MergedFromGreatest(toInt, files, paths[..n]);
      var s := Merged(toInt, Documents(files, paths[..n])).settings;
      AllFromGreatestStep(toInt, files, Members(paths[..n]), paths[n], s);
      MergeOneMore(toInt, files, paths, n);
      assert paths[..n + 1] == paths;
    }
  }

  /** After scanning a directory each setting has the value of the readable .ini file with the greatest path
      that gives it one, or its default, whatever the order of the listing. */
  lemma {:induction false} ScannedFromGreatest(toInt: ToInt, directory: string, names: seq<string>,
                                               files: map<string, string>)
    ensures AllFromGreatest(toInt, files, Members(Paths(directory, names)),
                            Scan(toInt, directory, names, files).settings)
  {
    var paths := Paths(directory, names);
    SortedPathsSorts(paths);
    MergedFromGreatest(toInt, files, SortedPaths(paths));
    forall p
      ensures p in SortedPaths(paths) <==> p in paths
    {
      assert p in SortedPaths(paths) <==> p in multiset(SortedPaths(paths));
    }
    assert Members(SortedPaths(paths)) == Members(paths);
  }

  /** The hot interval is always positive and below 2^31. */
  lemma {:induction false} HotIntervalIsPositive(toInt: ToInt, docs: seq<Document>)
    ensures 0 < Merged(toInt, docs).settings.hotInterval < 0x8000_0000
  {
    if docs != [] {
      HotIntervalIsPositive(toInt, docs[..|docs| - 1]);
    }
  }
}
