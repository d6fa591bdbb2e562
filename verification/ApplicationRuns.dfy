/** What every run of the daemon keeps. */
module ApplicationRuns {
  import opened Keys
  import opened SequenceMatching
  import opened MatcherTraces
  import opened Integers
  import opened Framebuffer
  import opened Fonts
  import opened StatusBars
  import opened Actions
  import opened ConfigScanning
  import opened Execution
  import opened Applications
  import opened HeldKeys

  // Calls go grab, release, grab, release, and the last one left the input as it is.
  ghost predicate Alternate(calls: seq<GrabCall>, grabbed: bool) {
    (forall i :: 0 <= i < |calls| ==> calls[i] == if i % 2 == 0 then Grab else Release)
    && (grabbed <==> |calls| % 2 == 1)
  }

  ghost predicate Invariant(env: Environment, base: seq<bv8>, s: AppState) {
    && Sane(env, s) && Covers(env.screen, base, s.world.bar)
    && s.grabbed == s.capturing && Alternate(s.calls, s.grabbed)
    && (s.matcher.state == Capturing ==> s.capturing)
    && (s.matcher.state == Idle ==> s.matcher.sequence == [])
    && (s.capturing ==> s.world.bar.active)
    && s.config.hasTable
  }

  lemma {:induction false} StartsInvariant(env: Environment, base: seq<bv8>, scanned: ScannedConfig)
    requires Fits(env.screen, base) && |env.font| == FONT_BYTES
    ensures Invariant(env, base, Configured(env.names, Unconfigured(base), scanned))
  {}

  lemma {:induction false} ShowingKeeps(env: Environment, base: seq<bv8>, s: AppState, text: string)
    requires Sane(env, s) && Covers(env.screen, base, s.world.bar)
    ensures Covers(env.screen, base, Showing(env, s, text).world.bar) && Showing(env, s, text).world.bar.active
  {
    OverlayKeepsBase(env.screen, env.font, base, s.world.bar, text, true);
  }

  lemma {:induction false} HidingKeeps(env: Environment, base: seq<bv8>, s: AppState)
    requires Sane(env, s) && Covers(env.screen, base, s.world.bar)
    ensures Covers(env.screen, base, Hiding(env, s).world.bar)
  {
    OverlayKeepsBase(env.screen, env.font, base, s.world.bar, "", true);
  }

  lemma {:induction false} ReleaseAlternates(calls: seq<GrabCall>)
    requires Alternate(calls, true)
    ensures Alternate(calls + [Release], false)
  {}

  // It releases the input; it touches neither matcher nor bindings.
  lemma {:induction false} CompletionReleases(env: Environment, s: AppState, q: KeySequence, rc: int)
    requires Sane(env, s) && s.grabbed == s.capturing && Alternate(s.calls, s.grabbed)
    ensures var t := Completed(env, s, q, rc);
            && !t.capturing && !t.grabbed && Alternate(t.calls, false)
            && t.matcher == s.matcher && t.config == s.config && t.bindings == s.bindings
  {
    if s.capturing {
      ReleaseAlternates(s.calls);
    }
  }

  lemma {:induction false} CompletionExecutes(env: Environment, base: seq<bv8>, s: AppState, q: KeySequence, rc: int)
    requires Sane(env, s) && Covers(env.screen, base, s.world.bar)
    ensures var t := Completed(env, s, q, rc);
            Covers(env.screen, base, t.world.bar) && t.world.ran == s.world.ran + CommandsFor(s.bindings, q)
  {
    var r := if s.capturing then Releasing(s) else s;
    HidingKeeps(env, base, r);
    var a := FindAction(s.bindings, q);
    if a.Some? {
      ExecutionKeepsBase(env, base, Hiding(env, r).world, a.value, rc);
    }
  }

  // The commands that delivering a sequence runs.
  function CommandsFor(bindings: Bindings, q: KeySequence): seq<string> {
    match FindAction(bindings, q)
    case None => []
    case Some(a) => CommandsOf(a)
  }

  // The invariant, but for what it says of the matcher.
  ghost predicate RestInvariant(env: Environment, base: seq<bv8>, s: AppState) {
    Invariant(env, base, s.(matcher := INITIAL_CONTEXT))
  }

  lemma {:induction false} ShowingKeepsRest(env: Environment, base: seq<bv8>, s: AppState, start: bool, now: nat)
    requires RestInvariant(env, base, s)
    ensures Sane(env, s)
    ensures var t := Showing(env, if s.capturing || !start then s else Grabbing(s), "^[...]").(lastKeyTime := now);
            RestInvariant(env, base, t) && t.matcher == s.matcher && t.capturing == (s.capturing || start)
  {
    ShowingKeeps(env, base, if s.capturing || !start then s else Grabbing(s), "^[...]");
  }

  lemma {:induction false} HidingKeepsRest(env: Environment, base: seq<bv8>, s: AppState)
    requires RestInvariant(env, base, s)
    ensures Sane(env, s)
    ensures var t := Hiding(env, if s.capturing then Releasing(s) else s);
            RestInvariant(env, base, t) && t.matcher == s.matcher
  {
    HidingKeeps(env, base, if s.capturing then Releasing(s) else s);
  }

  lemma {:induction false} CompletionKeepsRest(env: Environment, base: seq<bv8>, s: AppState, q: KeySequence, rc: int)
    requires RestInvariant(env, base, s)
    ensures Sane(env, s)
    ensures var t := Completed(env, s, q, rc);
            RestInvariant(env, base, t) && t.matcher == s.matcher
  {
    CompletionReleases(env, s, q, rc);
    CompletionExecutes(env, base, s, q, rc);
  }

  // Acting on a report keeps it; what a report that is no start says of the matcher must already hold.
  lemma {:induction false} HandlingKeeps(env: Environment, base: seq<bv8>, s: AppState, r: MatcherResult,
                                         now: nat, rc: int)
    requires RestInvariant(env, base, s)
    ensures Sane(env, s) && RestInvariant(env, base, Handled(env, s, r, now, rc))
    ensures Handled(env, s, r, now, rc).matcher == s.matcher
    ensures r.action == StartCapture ==> Handled(env, s, r, now, rc).capturing
    ensures r.action == NoAction || r.action == KeyAppended ==> Handled(env, s, r, now, rc).capturing == s.capturing
  {
    match r.action
    case StartCapture => ShowingKeepsRest(env, base, s, true, now);
    case KeyAppended => ShowingKeepsRest(env, base, s, false, now);
    case SequenceComplete => CompletionKeepsRest(env, base, s, r.sequence, rc);
    case Cancelled => HidingKeepsRest(env, base, s);
    case NoAction =>
  }

  lemma {:induction false} ReportOf(c: MatcherConfig, m: MatcherContext, e: KeyEvent)
    requires m.state == Idle ==> m.sequence == []
    ensures var (n, r) := OnKey(c, m, e);
            && (n.state == Idle ==> n.sequence == [])
            && (n.state == Capturing ==>
                  r.action == StartCapture
                  || ((r.action == NoAction || r.action == KeyAppended) && m.state == Capturing))
  {}

  lemma {:induction false} KeyKeepsInvariant(env: Environment, base: seq<bv8>, s: AppState, e: KeyEvent, now: nat,
                                             rc: int)
    requires Invariant(env, base, s)
    ensures Invariant(env, base, OnKeyInput(env, s, e, now, rc))
  {
    var (m, result) := OnKey(s.config, s.matcher, e);
    ReportOf(s.config, s.matcher, e);
    HandlingKeeps(env, base, s.(matcher := m), result, now, rc);
  }

  lemma {:induction false} TimerKeepsInvariant(env: Environment, base: seq<bv8>, s: AppState, now: nat, rc: int)
    requires Invariant(env, base, s)
    ensures Invariant(env, base, OnTimerCheck(env, s, now, rc))
  {
    var (m, result) := OnTimeout(s.matcher);
    var t := s.(matcher := m);
    if Expired(s, now) {
      if result.action == SequenceComplete {
        CompletionReleases(env, t, result.sequence, rc);
        CompletionExecutes(env, base, t, result.sequence, rc);
      } else {
        HidingKeeps(env, base, Releasing(t));
      }
    }
  }

  lemma {:induction false} StepKeepsInvariant(env: Environment, base: seq<bv8>, s: AppState, i: AppInput)
    requires Invariant(env, base, s)
    ensures Invariant(env, base, Stepped(env, s, i))
  {
    match i
    case KeyInput(e, now, rc) => KeyKeepsInvariant(env, base, s, e, now, rc);
    case TimerCheck(now, rc) => TimerKeepsInvariant(env, base, s, now, rc);
    case Reload(scanned) => ShowingKeeps(env, base, Configured(env.names, s, scanned), "Reloaded");
  }

  lemma {:induction false} RunKeepsInvariant(env: Environment, base: seq<bv8>, s: AppState, inputs: seq<AppInput>)
    requires Invariant(env, base, s)
    ensures Invariant(env, base, RunApp(env, s, inputs))
  {
    if inputs != [] {
      RunKeepsInvariant(env, base, s, inputs[..|inputs| - 1]);
      StepKeepsInvariant(env, base, RunApp(env, s, inputs[..|inputs| - 1]), inputs[|inputs| - 1]);
    }
  }

  /** After any run, writing the saved bar pixels back yields the starting screen byte for byte, and an
      inactive bar means that the screen already is the starting one. */
  lemma {:induction false} ScreenIsNeverLost(env: Environment, base: seq<bv8>, scanned: ScannedConfig,
                                             inputs: seq<AppInput>)
    requires Fits(env.screen, base) && |env.font| == FONT_BYTES
    ensures var o := RunApp(env, Configured(env.names, Unconfigured(base), scanned), inputs).world.bar;
            (if o.active then Restored(env.screen, o.mem, o.saved) else o.mem) == base
  {
    StartsInvariant(env, base, scanned);
    var start := Configured(env.names, Unconfigured(base), scanned);
    RunKeepsInvariant(env, base, start, inputs);
    var o := RunApp(env, start, inputs).world.bar;
    if o.active {
      WriteBackRestoresBase(env.screen, base, o);
    }
  }

  /** After any run, a reload in mid-capture included, the grab flag is the capture flag, a capturing
      matcher has the input grabbed and the bar shown, and grab and release calls alternate. */
  lemma {:induction false} GrabsAreBalanced(env: Environment, base: seq<bv8>, scanned: ScannedConfig,
                                            inputs: seq<AppInput>)
    requires Fits(env.screen, base) && |env.font| == FONT_BYTES
    ensures var s := RunApp(env, Configured(env.names, Unconfigured(base), scanned), inputs);
            s.grabbed == s.capturing && Alternate(s.calls, s.grabbed)
            && (s.matcher.state == Capturing ==> s.grabbed) && (s.grabbed ==> s.world.bar.active)
  {
    StartsInvariant(env, base, scanned);
    RunKeepsInvariant(env, base, Configured(env.names, Unconfigured(base), scanned), inputs);
  }

  /** A timer check keeps the input grabbed exactly when it was grabbed and the interval is not over. */
  lemma {:induction false} HoldIsBounded(env: Environment, base: seq<bv8>, s: AppState, now: nat, rc: int)
    requires Invariant(env, base, s)
    ensures OnTimerCheck(env, s, now, rc).grabbed <==> s.grabbed && Elapsed(now, s.lastKeyTime) < s.hotInterval
  {
    var t := s.(matcher := OnTimeout(s.matcher).0);
    CompletionReleases(env, t, OnTimeout(s.matcher).1.sequence, rc);
  }

  /** So after every turn of the event loop a grabbed input was touched less than one interval ago. */
  lemma {:induction false} TurnBoundsHold(env: Environment, base: seq<bv8>, s: AppState, events: seq<AppInput>,
                                          now: nat, rc: int)
    requires Invariant(env, base, s)
    ensures var r := RunApp(env, s, events + [TimerCheck(now, rc)]);
            r.grabbed ==> Elapsed(now, r.lastKeyTime) < r.hotInterval
  {
    var inputs := events + [TimerCheck(now, rc)];
    assert inputs[..|inputs| - 1] == events;
    RunKeepsInvariant(env, base, s, events);
    HoldIsBounded(env, base, RunApp(env, s, events), now, rc);
  }

  // ---- Keys held, over reloads ----

  ghost function HeldBy(inputs: seq<AppInput>): set<RawKeyCode> {
    if inputs == [] then {}
    else
      var h := HeldBy(inputs[..|inputs| - 1]);
      var i := inputs[|inputs| - 1];
      if i.KeyInput? then HeldAfter(h, Key(i.event)) else h
  }

  ghost predicate RealKeys(inputs: seq<AppInput>) {
    inputs == [] ||
    (RealKeys(inputs[..|inputs| - 1])
     && (inputs[|inputs| - 1].KeyInput? ==> Possible(HeldBy(inputs[..|inputs| - 1]), Key(inputs[|inputs| - 1].event))))
  }

  // An input reaches the matcher's state only through its own event.
  lemma {:induction false} MatcherAfter(env: Environment, s: AppState, i: AppInput)
    requires Sane(env, s)
    ensures Stepped(env, s, i).matcher ==
            match i
            case KeyInput(e, _, _) => OnKey(s.config, s.matcher, e).0
            case TimerCheck(now, _) => if Expired(s, now) then OnTimeout(s.matcher).0 else s.matcher
            case Reload(_) => INITIAL_CONTEXT
  {}

  lemma {:induction false} CounterStep(c: MatcherConfig, m: MatcherContext, e: KeyEvent, h: set<RawKeyCode>)
    requires m.keysDown <= |h| && Possible(h, Key(e))
    ensures OnKey(c, m, e).0.keysDown <= |HeldAfter(h, Key(e))|
  {
    SizeAfter(h, Key(e));
    CountAfter(c, Machine(m, []), Key(e));
  }

  /** On a real keyboard the counter never exceeds the number of keys held, however often a reload resets it. */
  lemma {:induction false} CounterIsBounded(env: Environment, s: AppState, inputs: seq<AppInput>)
    requires Sane(env, s) && s.matcher.keysDown == 0 && RealKeys(inputs)
    ensures RunApp(env, s, inputs).matcher.keysDown <= |HeldBy(inputs)|
  {
    if inputs != [] {
      var before, i := inputs[..|inputs| - 1], inputs[|inputs| - 1];
      CounterIsBounded(env, s, before);
      var mid := RunApp(env, s, before);
      MatcherAfter(env, mid, i);
      if i.KeyInput? {
        CounterStep(mid.config, mid.matcher, i.event, HeldBy(before));
      }
    }
  }

  // ---- From keys to commands ----

  predicate NoReload(inputs: seq<AppInput>) { forall k :: 0 <= k < |inputs| ==> !inputs[k].Reload? }

  // What the matcher sees of an input.
  function Seen(s: AppState, i: AppInput): seq<Stimulus> {
    match i
    case KeyInput(e, _, _) => [Key(e)]
    case TimerCheck(now, _) => if Expired(s, now) then [TimerExpired] else []
    case Reload(_) => []
  }

  ghost function SeenBy(env: Environment, s: AppState, inputs: seq<AppInput>): seq<Stimulus>
    requires Sane(env, s)
  {
    if inputs == [] then []
    else
      var before := inputs[..|inputs| - 1];
      SeenBy(env, s, before) + Seen(RunApp(env, s, before), inputs[|inputs| - 1])
  }

  function CommandsForAll(bindings: Bindings, qs: seq<KeySequence>): seq<string> {
    if qs == [] then []
    else CommandsForAll(bindings, qs[..|qs| - 1]) + CommandsFor(bindings, qs[|qs| - 1])
  }

  // One more input delivered nothing and ran nothing, or delivered a sequence and ran its commands.
  ghost predicate Dispatched(bindings: Bindings, qs: seq<KeySequence>, ran: seq<string>,
                             qs': seq<KeySequence>, ran': seq<string>) {
    (qs' == qs && ran' == ran)
    || (qs' != [] && qs'[..|qs'| - 1] == qs && ran' == ran + CommandsFor(bindings, qs'[|qs'| - 1]))
  }

  lemma {:induction false} RunOne(c: MatcherConfig, m: Machine, i: Stimulus)
    ensures Run(c, m, [i]) == Step(c, m, i)
  {
    RunSnoc(c, m, [], i);
    assert [] + [i] == [i];
  }

  lemma {:induction false} DeliveryDispatches(env: Environment, base: seq<bv8>, s: AppState, i: AppInput, m: Machine,
                                              q: KeySequence)
    requires Invariant(env, base, s) && Seen(s, i) != [] && m.context == s.matcher
    requires OnStimulus(s.config, s.matcher, Seen(s, i)[0]).1 == MatcherResult(SequenceComplete, q)
    ensures var t := Stepped(env, s, i);
            t.config == s.config && t.bindings == s.bindings && t.world.ran == s.world.ran + CommandsFor(s.bindings, q)
  {
    var (c, result) := OnStimulus(s.config, s.matcher, Seen(s, i)[0]);
    CompletionExecutes(env, base, s.(matcher := c), q, i.rc);
  }

  lemma {:induction false} StepDispatches(env: Environment, base: seq<bv8>, s: AppState, i: AppInput, m: Machine)
    requires Invariant(env, base, s) && !i.Reload? && m.context == s.matcher
    ensures var t := Stepped(env, s, i);
            var n := Run(s.config, m, Seen(s, i));
            t.config == s.config && t.bindings == s.bindings && t.matcher == n.context
            && Dispatched(s.bindings, m.delivered, s.world.ran, n.delivered, t.world.ran)
  {
    if Seen(s, i) != [] {
      var stimulus := Seen(s, i)[0];
      assert Seen(s, i) == [stimulus];
      RunOne(s.config, m, stimulus);
      MatcherAfter(env, s, i);
      var result := OnStimulus(s.config, s.matcher, stimulus).1;
      if result.action == SequenceComplete {
        DeliveryDispatches(env, base, s, i, m, result.sequence);
      }
    }
  }

  // The commands run so far are those of the sequences delivered so far.
  ghost predicate RanDelivered(s: AppState, ran0: seq<string>, m: Machine) {
    s.matcher == m.context && s.world.ran == ran0 + CommandsForAll(s.bindings, m.delivered)
  }

  // One more delivery adds its commands.
  lemma {:induction false} DispatchedRan(bindings: Bindings, ran0: seq<string>, qs: seq<KeySequence>, ran: seq<string>,
                                         qs': seq<KeySequence>, ran': seq<string>)
    requires Dispatched(bindings, qs, ran, qs', ran') && ran == ran0 + CommandsForAll(bindings, qs)
    ensures ran' == ran0 + CommandsForAll(bindings, qs')
  {
    if qs' != qs {
      var more := CommandsFor(bindings, qs'[|qs'| - 1]);
      assert CommandsForAll(bindings, qs') == CommandsForAll(bindings, qs) + more;
      assert (ran0 + CommandsForAll(bindings, qs)) + more == ran0 + (CommandsForAll(bindings, qs) + more);
    }
  }

  lemma {:induction false} RunDispatches(env: Environment, base: seq<bv8>, s: AppState, inputs: seq<AppInput>)
    requires Invariant(env, base, s) && NoReload(inputs)
    ensures var t := RunApp(env, s, inputs);
            t.config == s.config && t.bindings == s.bindings
            && RanDelivered(t, s.world.ran, Run(s.config, Machine(s.matcher, []), SeenBy(env, s, inputs)))
  {
    if inputs != [] {
      var before, i := inputs[..|inputs| - 1], inputs[|inputs| - 1];
      RunDispatches(env, base, s, before);
      RunKeepsInvariant(env, base, s, before);
      var mid := RunApp(env, s, before);
      var m := Machine(s.matcher, []);
      var n := Run(s.config, m, SeenBy(env, s, before));
      StepDispatches(env, base, mid, i, n);
      DispatchedRan(s.bindings, s.world.ran, n.delivered, mid.world.ran,
                    Run(s.config, n, Seen(mid, i)).delivered, Stepped(env, mid, i).world.ran);
      RunConcat(s.config, m, SeenBy(env, s, before), Seen(mid, i));
    }
  }

  /** From keys to commands: from a state at rest, as at the start and after every reload, the daemon runs,
      in order, the commands bound to the sequences of the batch reading of what the matcher sees, and no
      other command, until the next reload. */
  lemma {:induction false} CommandsRunExactly(env: Environment, base: seq<bv8>, s: AppState, inputs: seq<AppInput>)
    requires Invariant(env, base, s) && AtRest(s.matcher)
    requires NoReload(inputs)
    ensures RunApp(env, s, inputs).world.ran ==
            s.world.ran + CommandsForAll(s.bindings, Batch(s.config, s.matcher.keysDown, SeenBy(env, s, inputs)))
  {
    var m, seen := Machine(s.matcher, []), SeenBy(env, s, inputs);
    var batch := Batch(s.config, s.matcher.keysDown, seen);
    assert Run(s.config, m, seen).delivered == batch by {
      DeliveredIsBatch(s.config, m, seen);
      assert [] + batch == batch;
    }
    RunDispatches(env, base, s, inputs);
  }

  lemma {:induction false} RunAppConcat(env: Environment, s: AppState, a: seq<AppInput>, b: seq<AppInput>)
    requires Sane(env, s)
    ensures RunApp(env, s, a + b) == RunApp(env, RunApp(env, s, a), b)
    decreases |b|
  {
    if b == [] {
      assert a + b == a;
    } else {
      assert (a + b)[..|a + b| - 1] == a + b[..|b| - 1];
      RunAppConcat(env, s, a, b[..|b| - 1]);
    }
  }

  /** A reload runs nothing and drops a capture in progress; from then on commands are those of the new
      configuration, for what the new matcher sees. */
  lemma {:induction false} CommandsAfterReload(env: Environment, base: seq<bv8>, s: AppState, before: seq<AppInput>,
                                               scanned: ScannedConfig, after: seq<AppInput>)
    requires Invariant(env, base, s)
    requires NoReload(after)
    ensures var r := RunApp(env, s, before + [Reload(scanned)]);
            RunApp(env, s, before + [Reload(scanned)] + after).world.ran ==
            RunApp(env, s, before).world.ran
            + CommandsForAll(Loaded(env.names, scanned.settings.scriptDirectory, scanned.actions),
                             Batch(r.config, 0, SeenBy(env, r, after)))
  {
    var inputs := before + [Reload(scanned)];
    var r := RunApp(env, s, inputs);
    assert inputs[..|inputs| - 1] == before;
    RunKeepsInvariant(env, base, s, inputs);
    RunAppConcat(env, s, inputs, after);
    CommandsRunExactly(env, base, r, after);
  }
}
