/** The daemon: keys in, grabs, overlay and actions out. */
module Applications {
  import opened Keys
  import opened SequenceMatching
  import opened Integers
  import opened Framebuffer
  import opened Fonts
  import opened StatusBars
  import opened IniParsing
  import opened Actions
  import opened ConfigScanning
  import opened Execution

  datatype GrabCall = Grab | Release

  datatype AppState = AppState(
    config: MatcherConfig, matcher: MatcherContext, bindings: Bindings,
    capturing: bool, grabbed: bool, calls: seq<GrabCall>,
    lastKeyTime: nat, hotInterval: uint32, world: World)

  // One thing that happens to the daemon. Times are in nanoseconds; rc is the answer of a command
  // that the event may cause to be run.
  datatype AppInput =
    | KeyInput(event: KeyEvent, now: nat, rc: int)
    | TimerCheck(now: nat, rc: int)
    | Reload(scanned: ScannedConfig)

  // Whole milliseconds since the last accepted key, as a 32-bit number.
  function Elapsed(now: int, last: int): uint32 {
    if now >= last then Wrap((now - last) / 1_000_000) else Wrap(-((last - now) / 1_000_000))
  }

  function Grabbing(s: AppState): AppState {
    s.(capturing := true, grabbed := true, calls := s.calls + [Grab])
  }

  function Releasing(s: AppState): AppState {
    s.(capturing := false, grabbed := false, calls := s.calls + [Release])
  }

  ghost predicate Sane(env: Environment, s: AppState) { Sound(env, s.world) }

  ghost function Showing(env: Environment, s: AppState, text: string): (r: AppState)
    requires Sane(env, s)
    ensures Sane(env, r)
  {
    s.(world := s.world.(bar := Shown(env.screen, env.font, s.world.bar, text)))
  }

  ghost function Hiding(env: Environment, s: AppState): (r: AppState)
    requires Sane(env, s)
    ensures Sane(env, r)
  {
    s.(world := s.world.(bar := Hidden(env.screen, s.world.bar)))
  }

  // A delivered sequence: release, hide, and only then execute what it is bound to.
  ghost function Completed(env: Environment, s: AppState, q: KeySequence, rc: int): (r: AppState)
    requires Sane(env, s)
    ensures Sane(env, r)
  {
    var t := Hiding(env, if s.capturing then Releasing(s) else s);
    match FindAction(s.bindings, q)
    case None => t
    case Some(a) => t.(world := Executed(env, t.world, a, rc))
  }

  // What any report of the matcher makes the daemon do.
  ghost function Handled(env: Environment, s: AppState, result: MatcherResult, now: nat, rc: int): (r: AppState)
    requires Sane(env, s)
    ensures Sane(env, r)
  {
    match result.action
    case StartCapture => Showing(env, if s.capturing then s else Grabbing(s), "^[...]").(lastKeyTime := now)
    case KeyAppended => Showing(env, s, "^[...]").(lastKeyTime := now)
    case SequenceComplete => Completed(env, s, result.sequence, rc)
    case Cancelled => Hiding(env, if s.capturing then Releasing(s) else s)
    case NoAction => s
  }

  ghost function OnKeyInput(env: Environment, s: AppState, e: KeyEvent, now: nat, rc: int): (r: AppState)
    requires Sane(env, s)
    ensures Sane(env, r)
  {
    var (m, result) := OnKey(s.config, s.matcher, e);
    Handled(env, s.(matcher := m), result, now, rc)
  }

  predicate Expired(s: AppState, now: nat) {
    s.capturing && Elapsed(now, s.lastKeyTime) >= s.hotInterval
  }

  ghost function OnTimerCheck(env: Environment, s: AppState, now: nat, rc: int): (r: AppState)
    requires Sane(env, s)
    ensures Sane(env, r)
  {
    if !Expired(s, now) then s
    else
      var (m, result) := OnTimeout(s.matcher);
      var t := s.(matcher := m);
      if result.action == SequenceComplete then Completed(env, t, result.sequence, rc)
      else Hiding(env, Releasing(t))
  }

  // Reading the configuration replaces the bindings and the matcher, and nothing else.
  function Configured(names: NameTable, s: AppState, scanned: ScannedConfig): AppState {
    var introducer := FindCode(names, scanned.settings.introducerKey);
    var trailer := FindCode(names, scanned.settings.trailerKey);
    s.(config := MatcherConfig(if introducer.Some? then introducer.value else KPKEY_SHIFT,
                               if trailer.Some? then trailer.value else KPKEY_ENTER, true),
       matcher := INITIAL_CONTEXT,
       bindings := Loaded(names, scanned.settings.scriptDirectory, scanned.actions),
       hotInterval := scanned.settings.hotInterval)
  }

  ghost function Stepped(env: Environment, s: AppState, i: AppInput): (r: AppState)
    requires Sane(env, s)
    ensures Sane(env, r)
  {
    match i
    case KeyInput(e, now, rc) => OnKeyInput(env, s, e, now, rc)
    case TimerCheck(now, rc) => OnTimerCheck(env, s, now, rc)
    case Reload(scanned) => Showing(env, Configured(env.names, s, scanned), "Reloaded")
  }

  // A run: any mix of inputs, in order.
  ghost function RunApp(env: Environment, s: AppState, inputs: seq<AppInput>): (r: AppState)
    requires Sane(env, s)
    ensures Sane(env, r)
  {
    if inputs == [] then s
    else Stepped(env, RunApp(env, s, inputs[..|inputs| - 1]), inputs[|inputs| - 1])
  }

  // The configuration directory: its path, its listing in some order, and its readable files.
  datatype Directory = Directory(path: string, listing: seq<string>, files: map<string, string>)

  function ScanOf(toInt: ToInt, d: Directory): ScannedConfig {
    Scan(toInt, d.path, d.listing, d.files)
  }

  // The daemon before its configuration is read for the first time.
  function Unconfigured(mem: seq<bv8>): AppState {
    AppState(MatcherConfig(KPKEY_SHIFT, KPKEY_ENTER, true), INITIAL_CONTEXT, map[], false, false, [], 0, 700,
             World(Overlay(false, [], mem, []), [], [], []))
  }

  class Application {
    const matcher: SequenceMatcher
    const registry: ActionRegistry
    const statusBar: StatusBar
    const executor: ActionExecutor
    var isCapturing: bool
    var lastKeyTime: nat
    var hotInterval: uint32
    // The input source: its grab flag, and every call made to it.
    var grabbed: bool
    ghost var calls: seq<GrabCall>

    ghost predicate Valid()
      reads this, statusBar, statusBar.display.memory
    {
      executor.bar == statusBar && statusBar.Valid()
    }

    ghost function Env(): Environment { executor.Env() }

    ghost function State(): AppState
      reads this, matcher, registry, executor, executor.bar, executor.bar.display.memory
    {
      AppState(matcher.config, matcher.Context(), registry.actions, isCapturing, grabbed, calls,
               lastKeyTime, hotInterval, executor.State())
    }

    constructor (display: KindleDisplay, font: FontRenderer, names: NameTable, toInt: ToInt, d: Directory)
      requires display.Valid() && font.Valid()
      ensures Valid() && fresh(matcher) && fresh(registry) && fresh(statusBar) && fresh(executor)
      ensures Env() == Environment(display.bounds, font.font, names) && statusBar.display == display
      ensures State() == Configured(names, Unconfigured(display.Bytes()), ScanOf(toInt, d))
    {
      var bar := new StatusBar(display, font);
      executor := new ActionExecutor(bar, names);
      statusBar := bar;
      matcher := new SequenceMatcher(MatcherConfig(KPKEY_SHIFT, KPKEY_ENTER, false), true);
      registry := new ActionRegistry();
      isCapturing, lastKeyTime, hotInterval := false, 0, 700;
      grabbed, calls := false, [];
      new;
      LoadConfiguration(toInt, d);
    }

    method GrabInput()
      modifies this`grabbed, this`calls
      ensures grabbed && calls == old(calls) + [Grab]
    {
      grabbed := true;
      calls := calls + [Grab];
    }

    method ReleaseInput()
      modifies this`grabbed, this`calls
      ensures !grabbed && calls == old(calls) + [Release]
    {
      grabbed := false;
      calls := calls + [Release];
    }

    // The first part of loading: the bindings.
    method RegisterEntries(scriptDir: string, entries: seq<IniEntry>)
      modifies registry
      ensures registry.actions == Loaded(executor.names, scriptDir, entries)
    {
      registry.Clear();
      var i := 0;
      while i < |entries|
        invariant 0 <= i <= |entries|
        invariant registry.actions == Loaded(executor.names, scriptDir, entries[..i])
      {
        assert entries[..i + 1][..i] == entries[..i];
        var sequence := ParseSequenceText(executor.names, entries[i].key);
        if sequence.Some? {
          var action := ParseCommand(entries[i].value, entries[i].key, scriptDir);
          registry.RegisterAction(sequence.value, action);
        }
        i := i + 1;
      }
      assert entries[..i] == entries;
    }

    method LoadConfiguration(toInt: ToInt, d: Directory)
      requires Valid()
      modifies this`hotInterval, matcher, registry
      ensures Valid() && State() == Configured(executor.names, old(State()), ScanOf(toInt, d))
    {
      var names := executor.names;
      var scanned := ScanDirectory(toInt, d.path, d.listing, d.files);
      RegisterEntries(scanned.settings.scriptDirectory, scanned.actions);
      hotInterval := scanned.settings.hotInterval;
      var intro := FindCode(names, scanned.settings.introducerKey);
      var trail := FindCode(names, scanned.settings.trailerKey);
      matcher.Assign(MatcherConfig(if intro.Some? then intro.value else KPKEY_SHIFT,
                                   if trail.Some? then trail.value else KPKEY_ENTER, true), true);
    }

    method ReloadConfiguration(toInt: ToInt, d: Directory)
      requires Valid()
      modifies this, matcher, registry, statusBar, statusBar.display.memory
      ensures Valid() && State() == Stepped(Env(), old(State()), Reload(ScanOf(toInt, d)))
    {
      LoadConfiguration(toInt, d);
      statusBar.ShowStatus("Reloaded");
    }

    method HandleCompletedMatch(result: MatcherResult, rc: int)
      requires Valid()
      modifies this, executor, statusBar, statusBar.display.memory
      ensures Valid() && State() == Completed(Env(), old(State()), result.sequence, rc)
    {
      if isCapturing {
        ReleaseInput();
        isCapturing := false;
      }
      statusBar.HideStatus();
      var action := registry.Find(result.sequence);
      if action.Some? {
        executor.Execute(action.value, rc);
      }
    }

    method ProcessKeyEvent(event: KeyEvent, now: nat, rc: int)
      requires Valid()
      modifies this, matcher, executor, statusBar, statusBar.display.memory
      ensures Valid() && State() == Stepped(Env(), old(State()), KeyInput(event, now, rc))
    {
      var result := matcher.ProcessKeyEvent(event.code, event.kind);
      HandleResult(result, now, rc);
    }

    // The rest of the handler: what each report of the matcher asks for.
    method HandleResult(result: MatcherResult, now: nat, rc: int)
      requires Valid()
      modifies this, executor, statusBar, statusBar.display.memory
      ensures Valid() && State() == Handled(Env(), old(State()), result, now, rc)
    {
      if result.action == StartCapture {
        if !isCapturing {
          GrabInput();
          isCapturing := true;
        }
        statusBar.ShowStatus("^[...]");
        lastKeyTime := now;
        return;
      }
      if result.action == KeyAppended {
        statusBar.ShowStatus("^[...]");
        lastKeyTime := now;
        return;
      }
      if result.action == SequenceComplete {
        HandleCompletedMatch(result, rc);
        return;
      }
      if result.action == Cancelled {
        if isCapturing {
          ReleaseInput();
          isCapturing := false;
        }
        statusBar.HideStatus();
      }
    }

    method CheckTimer(now: nat, rc: int)
      requires Valid()
      modifies this, matcher, executor, statusBar, statusBar.display.memory
      ensures Valid() && State() == Stepped(Env(), old(State()), TimerCheck(now, rc))
    {
      if !isCapturing {
        return;
      }
      var elapsed := Elapsed(now, lastKeyTime);
      if elapsed < hotInterval {
        return;
      }
      var result := matcher.Timeout();
      if result.action == SequenceComplete {
        HandleCompletedMatch(result, rc);
        return;
      }
      ReleaseInput();
      isCapturing := false;
      statusBar.HideStatus();
    }

    // One turn of the event loop: the polled events in order, and then the timer.
    method Step(events: seq<AppInput>, now: nat, rc: int)
      requires Valid() && forall i :: 0 <= i < |events| ==> events[i].KeyInput?
      modifies this, matcher, executor, statusBar, statusBar.display.memory
      ensures Valid() && State() == RunApp(Env(), old(State()), events + [TimerCheck(now, rc)])
    {
      var i := 0;
      while i < |events|
        invariant 0 <= i <= |events| && Valid()
        invariant State() == RunApp(Env(), old(State()), events[..i])
      {
        assert events[..i + 1][..i] == events[..i];
        ProcessKeyEvent(events[i].event, events[i].now, events[i].rc);
        i := i + 1;
      }
      var inputs := events + [TimerCheck(now, rc)];
      assert inputs[..|inputs| - 1] == events == events[..i];
      CheckTimer(now, rc);
    }
  }
}
