/** What the daemon shows: every update of the display over a whole run, and an uncovered screen whenever the
    input is free. */
module DaemonScreen {
  import opened Keys
  import opened SequenceMatching
  import opened Framebuffer
  import opened Fonts
  import opened StatusBars
  import opened BarFrames
  import opened Actions
  import opened Execution
  import opened Applications
  import opened ApplicationRuns
  import ConfigScanning

  // The base with a bar.
  ghost function Bar(env: Environment, base: seq<bv8>, text: string): seq<bv8>
    requires Fits(env.screen, base) && |env.font| == FONT_BYTES
  {
    TextPainted(env.screen, env.font, base, text)
  }

  // ---- One action ----

  /** A shell action shows its name, then runs its command, then shows the result, then uncovers the screen. */
  lemma {:induction false} ShellUpdates(env: Environment, base: seq<bv8>, w: World, name: string, command: string,
                                        rc: int)
    requires Sound(env, w) && Covers(env.screen, base, w.bar) && env.screen.width > 0
    ensures var r := Executed(env, w, Action(name, Shell(command)), rc);
            && r.bar.frames == w.bar.frames + [Bar(env, base, "^[" + name + "]"),
                                               Bar(env, base, if rc == 0 then "Success!" else "Failure."), base]
            && r.ran == w.ran + [command] && r.ranAt == w.ranAt + [|w.bar.frames| + 1]
            && r.injected == w.injected && r.bar.mem == base && !r.bar.active
  {
    var text := "^[" + name + "]";
    var shown := Shown(env.screen, env.font, w.bar, text);
    ShowUpdates(env.screen, env.font, base, w.bar, text);
    ResultUpdates(env.screen, env.font, base, shown, rc == 0);
    HideUpdates(env.screen, env.font, base, ResultShown(env.screen, env.font, shown, rc == 0));
  }

  /** A screenshot action shows its name, reports success and uncovers the screen; it runs nothing. */
  lemma {:induction false} ScreenshotUpdates(env: Environment, base: seq<bv8>, w: World, name: string, rc: int)
    requires Sound(env, w) && Covers(env.screen, base, w.bar) && env.screen.width > 0
    ensures var r := Executed(env, w, Action(name, Screenshot), rc);
            && r.bar.frames == w.bar.frames + [Bar(env, base, name), Bar(env, base, "Success!"), base]
            && r.ran == w.ran && r.ranAt == w.ranAt && r.injected == w.injected && r.bar.mem == base && !r.bar.active
  {
    var shown := Shown(env.screen, env.font, w.bar, name);
    ShowUpdates(env.screen, env.font, base, w.bar, name);
    ResultUpdates(env.screen, env.font, base, shown, true);
    HideUpdates(env.screen, env.font, base, ResultShown(env.screen, env.font, shown, true));
  }

  // No action leaves a bar on an uncovered screen.
  lemma {:induction false} ActionUncovers(env: Environment, base: seq<bv8>, w: World, a: Action, rc: int)
    requires Sound(env, w) && Covers(env.screen, base, w.bar) && w.bar.mem == base
    ensures Executed(env, w, a, rc).bar.mem == base
  {
    var g := env.screen;
    if a.payload.Shell? || a.payload.Screenshot? {
      var name := if a.payload.Shell? then "^[" + a.displayName + "]" else a.displayName;
      var success := a.payload.Screenshot? || rc == 0;
      var shown := Shown(g, env.font, w.bar, name);
      ShowUpdates(g, env.font, base, w.bar, name);
      ResultUpdates(g, env.font, base, shown, success);
      OverlayKeepsBase(g, env.font, base, ResultShown(g, env.font, shown, success), "", true);
    } else if a.payload.SendKeys? {
      OverlayKeepsBase(g, env.font, base, w.bar, "", true);
    }
  }

  lemma {:induction false} ActionKeepsFrames(env: Environment, base: seq<bv8>, w: World, a: Action, rc: int)
    requires Sound(env, w) && Covers(env.screen, base, w.bar) && FramesOver(env.screen, env.font, base, w.bar)
    ensures FramesOver(env.screen, env.font, base, Executed(env, w, a, rc).bar)
  {
    var g := env.screen;
    if a.payload.Shell? || a.payload.Screenshot? {
      var name := if a.payload.Shell? then "^[" + a.displayName + "]" else a.displayName;
      var success := a.payload.Screenshot? || rc == 0;
      var shown := Shown(g, env.font, w.bar, name);
      ShowUpdates(g, env.font, base, w.bar, name);
      ResultUpdates(g, env.font, base, shown, success);
      ShowKeepsFrames(g, env.font, base, w.bar, name);
      ResultKeepsFrames(g, env.font, base, shown, success);
      HideKeepsFrames(g, env.font, base, ResultShown(g, env.font, shown, success));
    } else if a.payload.SendKeys? {
      HideKeepsFrames(g, env.font, base, w.bar);
    }
  }

  // ---- One delivery ----

  lemma {:induction false} CompletionUncovers(env: Environment, base: seq<bv8>, s: AppState, q: KeySequence, rc: int)
    requires Sane(env, s) && Covers(env.screen, base, s.world.bar)
    ensures Completed(env, s, q, rc).world.bar.mem == base
  {
    var r := if s.capturing then Releasing(s) else s;
    OverlayKeepsBase(env.screen, env.font, base, r.world.bar, "", true);
    var a := FindAction(s.bindings, q);
    if a.Some? {
      ActionUncovers(env, base, Hiding(env, r).world, a.value, rc);
    }
  }

  lemma {:induction false} CompletionKeepsFrames(env: Environment, base: seq<bv8>, s: AppState, q: KeySequence, rc: int)
    requires Sane(env, s) && Covers(env.screen, base, s.world.bar)
    requires FramesOver(env.screen, env.font, base, s.world.bar)
    ensures FramesOver(env.screen, env.font, base, Completed(env, s, q, rc).world.bar)
  {
    var r := if s.capturing then Releasing(s) else s;
    HideKeepsFrames(env.screen, env.font, base, r.world.bar);
    OverlayKeepsBase(env.screen, env.font, base, r.world.bar, "", true);
    var a := FindAction(s.bindings, q);
    if a.Some? {
      ActionKeepsFrames(env, base, Hiding(env, r).world, a.value, rc);
    }
  }

  // ---- One input ----

  /** Whatever input releases the grab, a reload before it included, also uncovers the screen. */
  lemma {:induction false} ReleaseUncovers(env: Environment, base: seq<bv8>, s: AppState, i: AppInput)
    requires Invariant(env, base, s) && s.grabbed && !Stepped(env, s, i).grabbed
    ensures Stepped(env, s, i).world.bar.mem == base
  {
    if i.KeyInput? {
      var (m, r) := OnKey(s.config, s.matcher, i.event);
      if r.action == SequenceComplete {
        CompletionUncovers(env, base, s.(matcher := m), r.sequence, i.rc);
      }
    } else if i.TimerCheck? {
      var (m, r) := OnTimeout(s.matcher);
      CompletionUncovers(env, base, s.(matcher := m), r.sequence, i.rc);
      OverlayKeepsBase(env.screen, env.font, base, s.world.bar, "", true);
    }
  }

  // With the input free only a reload, or a capture that starts, shows anything.
  lemma {:induction false} FreeStaysUncovered(env: Environment, base: seq<bv8>, s: AppState, i: AppInput)
    requires Invariant(env, base, s) && !s.grabbed && !i.Reload? && !Stepped(env, s, i).grabbed
    ensures Stepped(env, s, i).world == s.world
  {}

  lemma {:induction false} InputKeepsFrames(env: Environment, base: seq<bv8>, s: AppState, i: AppInput)
    requires Invariant(env, base, s) && FramesOver(env.screen, env.font, base, s.world.bar)
    ensures FramesOver(env.screen, env.font, base, Stepped(env, s, i).world.bar)
  {
    var (m, r) := if i.KeyInput? then OnKey(s.config, s.matcher, i.event) else OnTimeout(s.matcher);
    if i.Reload? {
      ShowKeepsFrames(env.screen, env.font, base, s.world.bar, "Reloaded");
    } else if r.action == SequenceComplete {
      CompletionKeepsFrames(env, base, s.(matcher := m), r.sequence, i.rc);
    } else if i.KeyInput? {
      ShowKeepsFrames(env.screen, env.font, base, s.world.bar, "^[...]");
    } else {
      HideKeepsFrames(env.screen, env.font, base, s.world.bar);
    }
  }

  // ---- Whole runs ----

  /** Without a reload, a free input means that the framebuffer is the starting one. */
  lemma {:induction false} FreeScreenIsBase(env: Environment, base: seq<bv8>, s: AppState, inputs: seq<AppInput>)
    requires Invariant(env, base, s) && NoReload(inputs) && (!s.grabbed ==> s.world.bar.mem == base)
    ensures var t := RunApp(env, s, inputs); !t.grabbed ==> t.world.bar.mem == base
  {
    if inputs != [] {
      var before, i := inputs[..|inputs| - 1], inputs[|inputs| - 1];
      FreeScreenIsBase(env, base, s, before);
      RunKeepsInvariant(env, base, s, before);
      var mid := RunApp(env, s, before);
      if !Stepped(env, mid, i).grabbed {
        if mid.grabbed {
          ReleaseUncovers(env, base, mid, i);
        } else {
          FreeStaysUncovered(env, base, mid, i);
        }
      }
    }
  }

  /** Over any run, reloads included, every update of the display shows the starting framebuffer or that with a
      bar of text over it, and the last one shows what the framebuffer holds. */
  lemma {:induction false} UpdatesShowBase(env: Environment, base: seq<bv8>, scanned: ConfigScanning.ScannedConfig,
                                           inputs: seq<AppInput>)
    requires Fits(env.screen, base) && |env.font| == FONT_BYTES
    ensures FramesOver(env.screen, env.font, base,
                       RunApp(env, Configured(env.names, Unconfigured(base), scanned), inputs).world.bar)
  {
    var start := Configured(env.names, Unconfigured(base), scanned);
    StartsInvariant(env, base, scanned);
    if inputs != [] {
      var before := inputs[..|inputs| - 1];
      UpdatesShowBase(env, base, scanned, before);
      RunKeepsInvariant(env, base, start, before);
      InputKeepsFrames(env, base, RunApp(env, start, before), inputs[|inputs| - 1]);
    }
  }

  /** A reload says so on the screen. */
  lemma {:induction false} ReloadShows(env: Environment, base: seq<bv8>, s: AppState,
                                       scanned: ConfigScanning.ScannedConfig)
    requires Invariant(env, base, s)
    ensures Stepped(env, s, Reload(scanned)).world.bar.mem == Bar(env, base, "Reloaded")
    ensures Stepped(env, s, Reload(scanned)).world.bar.frames ==
            s.world.bar.frames + [Bar(env, base, "Reloaded")]
  {
    ShowUpdates(env.screen, env.font, base, s.world.bar, "Reloaded");
  }

  // While a capture is on, the screen says so.
  ghost predicate CaptureShown(env: Environment, base: seq<bv8>, s: AppState)
    requires Fits(env.screen, base) && |env.font| == FONT_BYTES
  {
    s.matcher.state == Capturing ==> s.world.bar.mem == Bar(env, base, "^[...]")
  }

  lemma {:induction false} InputKeepsShown(env: Environment, base: seq<bv8>, s: AppState, i: AppInput)
    requires Invariant(env, base, s) && CaptureShown(env, base, s)
    ensures CaptureShown(env, base, Stepped(env, s, i))
  {
    MatcherAfter(env, s, i);
    ShowUpdates(env.screen, env.font, base, s.world.bar, "^[...]");
    if i.KeyInput? {
      ReportOf(s.config, s.matcher, i.event);
    }
  }

  /** Over any run, reloads included, a capture that is on shows as "^[...]" over the starting framebuffer. */
  lemma {:induction false} CapturesAreShown(env: Environment, base: seq<bv8>, scanned: ConfigScanning.ScannedConfig,
                                            inputs: seq<AppInput>)
    requires Fits(env.screen, base) && |env.font| == FONT_BYTES
    ensures CaptureShown(env, base, RunApp(env, Configured(env.names, Unconfigured(base), scanned), inputs))
  {
    var start := Configured(env.names, Unconfigured(base), scanned);
    StartsInvariant(env, base, scanned);
    if inputs != [] {
      var before := inputs[..|inputs| - 1];
      CapturesAreShown(env, base, scanned, before);
      RunKeepsInvariant(env, base, start, before);
      InputKeepsShown(env, base, RunApp(env, start, before), inputs[|inputs| - 1]);
    }
  }

  /** Delivering a sequence that a shell action is bound to: the bar goes, the name comes, the command runs, the
      result comes, and the screen is uncovered. */
  lemma {:induction false} DeliveryUpdates(env: Environment, base: seq<bv8>, s: AppState, q: KeySequence, rc: int,
                                           name: string, command: string)
    requires Invariant(env, base, s) && s.capturing && env.screen.width > 0
    requires FindAction(s.bindings, q) == Some(Action(name, Shell(command)))
    ensures var w, r := s.world, Completed(env, s, q, rc).world;
            && r.bar.frames == w.bar.frames + [base, Bar(env, base, "^[" + name + "]"),
                                               Bar(env, base, if rc == 0 then "Success!" else "Failure."), base]
            && r.ran == w.ran + [command] && r.ranAt == w.ranAt + [|w.bar.frames| + 2]
            && r.bar.mem == base
  {
    HideUpdates(env.screen, env.font, base, s.world.bar);
    var hidden := Hiding(env, Releasing(s)).world;
    ShellUpdates(env, base, hidden, name, command, rc);
    assert s.world.bar.frames + [base] + [Bar(env, base, "^[" + name + "]"),
                                          Bar(env, base, if rc == 0 then "Success!" else "Failure."), base]
           == s.world.bar.frames + [base, Bar(env, base, "^[" + name + "]"),
                                    Bar(env, base, if rc == 0 then "Success!" else "Failure."), base];
  }
}

/** What the introducer, trailer and interval settings do. */
module SettingsAtWork {
  import opened Keys
  import opened SequenceMatching
  import opened Framebuffer
  import opened Fonts
  import opened Actions
  import opened ConfigScanning
  import opened Execution
  import opened Applications
  import opened ApplicationRuns
  import opened DaemonScreen
  import BarFrames

  // The code a setting names, or another one when it names none.
  function CodeOr(names: NameTable, name: string, other: RawKeyCode): RawKeyCode {
    if FindCode(names, name).Some? then FindCode(names, name).value else other
  }

  // By default 42, the code of Shift, and 28, the code of Enter.
  function IntroducerOf(env: Environment, scanned: ScannedConfig): RawKeyCode {
    CodeOr(env.names, scanned.settings.introducerKey, 42)
  }

  function TrailerOf(env: Environment, scanned: ScannedConfig): RawKeyCode {
    CodeOr(env.names, scanned.settings.trailerKey, 28)
  }

  function KeyDown(code: RawKeyCode, now: nat): AppInput { KeyInput(KeyEvent(code, Pressed), now, 0) }
  function KeyUp(code: RawKeyCode, now: nat): AppInput { KeyInput(KeyEvent(code, Released), now, 0) }

  lemma {:induction false} RunAppSnoc(env: Environment, s: AppState, inputs: seq<AppInput>, i: AppInput)
    requires Sane(env, s)
    ensures RunApp(env, s, inputs + [i]) == Stepped(env, RunApp(env, s, inputs), i)
  {
    var longer := inputs + [i];
    assert longer[..|longer| - 1] == inputs && longer[|longer| - 1] == i;
  }

  // The state after one tap of a key, from a configured state with no capture on.
  lemma {:induction false} Tapped(env: Environment, base: seq<bv8>, s0: AppState, scanned: ScannedConfig,
                                  code: RawKeyCode, at: nat, now: nat)
    requires Invariant(env, base, s0)
    ensures Invariant(env, base, Configured(env.names, s0, scanned))
    ensures var s := Configured(env.names, s0, scanned);
            var t := RunApp(env, s, [KeyDown(code, at), KeyUp(code, now)]);
            && t.config == s.config && t.hotInterval == scanned.settings.hotInterval
            && (t.matcher.state == Capturing <==> code == IntroducerOf(env, scanned))
            && (code == IntroducerOf(env, scanned) ==>
                  && t.grabbed && t.lastKeyTime == now
                  && t.matcher == MatcherContext(Capturing, 0, false, [])
                  && t.world.bar.mem == Bar(env, base, "^[...]"))
            && (code != IntroducerOf(env, scanned) ==> t.grabbed == s0.grabbed && t.world == s0.world)
  {
    var s := Configured(env.names, s0, scanned);
    RunAppSnoc(env, s, [], KeyDown(code, at));
    RunAppSnoc(env, s, [KeyDown(code, at)], KeyUp(code, now));
    assert [] + [KeyDown(code, at)] == [KeyDown(code, at)];
    assert [KeyDown(code, at)] + [KeyUp(code, now)] == [KeyDown(code, at), KeyUp(code, now)];
    BarFrames.ShowUpdates(env.screen, env.font, base, s0.world.bar, "^[...]");
  }

  // The inputs of one tap.
  function TapOf(code: RawKeyCode, at: nat, now: nat): seq<AppInput> { [KeyDown(code, at), KeyUp(code, now)] }

  /** After the configuration was read, at the start or by a reload, tapping a key grabs the input, starts a
      capture and shows it if and only if the key is the one the introducer setting names, Shift when it names
      none; then pressing a key goes on with the capture if and only if it is not the one the trailer setting
      names, Enter when it names none. */
  lemma {:induction false} SettingsGovernCaptures(env: Environment, base: seq<bv8>, s0: AppState,
                                                  scanned: ScannedConfig, code: RawKeyCode, key: RawKeyCode,
                                                  at: nat, now: nat, later: nat)
    requires Invariant(env, base, s0) && !s0.grabbed
    ensures Invariant(env, base, Configured(env.names, s0, scanned))
    ensures var tapped := RunApp(env, Configured(env.names, s0, scanned), TapOf(code, at, now));
            && (tapped.grabbed <==> code == IntroducerOf(env, scanned))
            && (tapped.matcher.state == Capturing <==> code == IntroducerOf(env, scanned))
            && (tapped.grabbed ==> tapped.world.bar.mem == Bar(env, base, "^[...]"))
    ensures code == IntroducerOf(env, scanned) ==>
              var pressed := RunApp(env, Configured(env.names, s0, scanned),
                                    TapOf(code, at, now) + [KeyDown(key, later)]);
              && (pressed.grabbed <==> key != TrailerOf(env, scanned))
              && (pressed.matcher.state == Capturing <==> key != TrailerOf(env, scanned))
              && (!pressed.grabbed ==> pressed.world.bar.mem == base)
  {
    var s := Configured(env.names, s0, scanned);
    Tapped(env, base, s0, scanned, code, at, now);
    if code == IntroducerOf(env, scanned) {
      RunKeepsInvariant(env, base, s, TapOf(code, at, now));
      RunAppSnoc(env, s, TapOf(code, at, now), KeyDown(key, later));
      PressedInCapture(env, base, s0, scanned, RunApp(env, s, TapOf(code, at, now)), key, later);
    }
  }

  lemma {:induction false} PressedInCapture(env: Environment, base: seq<bv8>, s0: AppState, scanned: ScannedConfig,
                                            t: AppState, key: RawKeyCode, later: nat)
    requires Invariant(env, base, t) && t.grabbed && t.matcher == MatcherContext(Capturing, 0, false, [])
    requires t.config == Configured(env.names, s0, scanned).config
    ensures var pressed := Stepped(env, t, KeyDown(key, later));
            && (pressed.grabbed <==> key != TrailerOf(env, scanned))
            && (pressed.matcher.state == Capturing <==> key != TrailerOf(env, scanned))
            && (!pressed.grabbed ==> pressed.world.bar.mem == base)
  {
    var (m, r) := OnKey(t.config, t.matcher, KeyEvent(key, Pressed));
    if key == TrailerOf(env, scanned) {
      CompletionReleases(env, t.(matcher := m), r.sequence, 0);
      ReleaseUncovers(env, base, t, KeyDown(key, later));
    }
  }

  /** And a timer check holds on to the input if and only if it comes less than the interval setting, counted in
      nanoseconds, after the tap. */
  lemma {:induction false} SettingsGovernHold(env: Environment, base: seq<bv8>, s0: AppState, scanned: ScannedConfig,
                                              at: nat, now: nat, later: nat, rc: int)
    requires Invariant(env, base, s0) && now <= later < now + 0x1_0000_0000 * 1_000_000
    ensures Invariant(env, base, Configured(env.names, s0, scanned))
    ensures var s := Configured(env.names, s0, scanned);
            RunApp(env, s, TapOf(IntroducerOf(env, scanned), at, now) + [TimerCheck(later, rc)]).grabbed <==>
            later - now < scanned.settings.hotInterval * 1_000_000
  {
    var s := Configured(env.names, s0, scanned);
    var tap := TapOf(IntroducerOf(env, scanned), at, now);
    Tapped(env, base, s0, scanned, IntroducerOf(env, scanned), at, now);
    RunKeepsInvariant(env, base, s, tap);
    RunAppSnoc(env, s, tap, TimerCheck(later, rc));
    HoldIsBounded(env, base, RunApp(env, s, tap), later, rc);
    ElapsedBelow(later, now, scanned.settings.hotInterval);
  }

  /** Elapsed time, in numbers. */
  lemma {:induction false} ElapsedBelow(later: nat, now: nat, hot: nat)
    requires now <= later < now + 0x1_0000_0000 * 1_000_000
    ensures Elapsed(later, now) < hot <==> later - now < hot * 1_000_000
  {}

  /** The daemon starts in a state of which all this is true. */
  lemma {:induction false} StartsFree(env: Environment, base: seq<bv8>)
    requires Fits(env.screen, base) && |env.font| == FONT_BYTES
    ensures Invariant(env, base, Unconfigured(base)) && !Unconfigured(base).grabbed
  {}
}
