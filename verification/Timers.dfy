/** The two programs' timers. The C program's runs once, from the start of a capture; the port's starts again
    with every key it accepts. */
module Timers {
  import opened Integers
  import opened Keys
  import opened SequenceMatching
  import opened MatcherTraces
  import opened HeldKeys
  import opened LegacyHotkey
  import opened PortBisimulation

  // A key event and its time in milliseconds.
  datatype TimedKey = TimedKey(event: KeyEvent, at: nat)

  predicate Ordered(keys: seq<TimedKey>) { forall i, j :: 0 <= i < j < |keys| ==> keys[i].at <= keys[j].at }

  function KeyTrace(keys: seq<TimedKey>): seq<Stimulus> {
    if keys == [] then [] else KeyTrace(keys[..|keys| - 1]) + [Key(keys[|keys| - 1].event)]
  }

  // ---- The port: whatever is due is found before the key is handled ----

  // started is when the last capture started, last when the last key was accepted.
  datatype PortClock = PortClock(context: MatcherContext, started: nat, last: nat)

  predicate PortExpired(hot: uint32, s: PortClock, at: nat) {
    s.context.state == Capturing && Wrap(at - s.last) >= hot
  }

  function PortOnKey(c: MatcherConfig, hot: uint32, s: PortClock, k: TimedKey): PortClock {
    var m := if PortExpired(hot, s, k.at) then OnTimeout(s.context).0 else s.context;
    var (n, r) := OnKey(c, m, k.event);
    PortClock(n, if r.action == StartCapture then k.at else s.started,
              if r.action in {StartCapture, KeyAppended} then k.at else s.last)
  }

  function PortAt(c: MatcherConfig, hot: uint32, keys: seq<TimedKey>): PortClock {
    if keys == [] then PortClock(INITIAL_CONTEXT, 0, 0)
    else PortOnKey(c, hot, PortAt(c, hot, keys[..|keys| - 1]), keys[|keys| - 1])
  }

  // The key, behind a timeout if there is one.
  function Behind(expired: bool, e: KeyEvent): seq<Stimulus> {
    if expired then [TimerExpired, Key(e)] else [Key(e)]
  }

  function PortSees(c: MatcherConfig, hot: uint32, keys: seq<TimedKey>): seq<Stimulus> {
    if keys == [] then []
    else
      var before, k := keys[..|keys| - 1], keys[|keys| - 1];
      PortSees(c, hot, before) + Behind(PortExpired(hot, PortAt(c, hot, before), k.at), k.event)
  }

  // ---- The C program: the alarm comes when it is due; an interval of zero sets none ----

  datatype LegacyClock = LegacyClock(context: LegacyContext, started: nat)

  predicate LegacyExpired(hot: uint32, s: LegacyClock, at: nat) {
    s.context.hotkeyMode && hot > 0 && at - s.started >= hot
  }

  function LegacyOnTimedKey(c: MatcherConfig, hot: uint32, s: LegacyClock, k: TimedKey): LegacyClock {
    var m := if LegacyExpired(hot, s, k.at) then LegacyOnAlarm(s.context).0 else s.context;
    var (n, o) := LegacyOnKey(c, m, k.event);
    LegacyClock(n, if o.started then k.at else s.started)
  }

  function LegacyAt(c: MatcherConfig, hot: uint32, keys: seq<TimedKey>): LegacyClock {
    if keys == [] then LegacyClock(LEGACY_INITIAL, 0)
    else LegacyOnTimedKey(c, hot, LegacyAt(c, hot, keys[..|keys| - 1]), keys[|keys| - 1])
  }

  function LegacySees(c: MatcherConfig, hot: uint32, keys: seq<TimedKey>): seq<Stimulus> {
    if keys == [] then []
    else
      var before, k := keys[..|keys| - 1], keys[|keys| - 1];
      LegacySees(c, hot, before) + Behind(LegacyExpired(hot, LegacyAt(c, hot, before), k.at), k.event)
  }

  // ---- When the two see the same ----

  // A key that comes while a capture is on comes before the interval from the capture's start is over, or
  // after the one from the last accepted key is over too.
  predicate Prompt(hot: uint32, s: PortClock, at: nat) {
    s.context.state == Capturing ==> at - s.started < hot || Wrap(at - s.last) >= hot
  }

  predicate InTime(c: MatcherConfig, hot: uint32, keys: seq<TimedKey>) {
    keys == [] || (InTime(c, hot, keys[..|keys| - 1])
                   && Prompt(hot, PortAt(c, hot, keys[..|keys| - 1]), keys[|keys| - 1].at))
  }

  // A clock of each kind, in step.
  predicate InStep(p: PortClock, l: LegacyClock) {
    && l.context == LegacyContext(p.context.keysDown, p.context.introducerArmed, p.context.state == Capturing,
                                  p.context.sequence, p.context.state == Capturing, false)
    && (p.context.introducerArmed ==> p.context.state == Idle)
    && (p.context.state == Idle ==> p.context.sequence == [])
    && (p.context.state == Capturing ==> p.started == l.started && p.started <= p.last)
  }

  lemma {:induction false} PromptExactly(hot: uint32, p: PortClock, l: LegacyClock, at: nat)
    requires InStep(p, l) && p.last <= at && hot > 0
    ensures PortExpired(hot, p, at) == LegacyExpired(hot, l, at) <==> Prompt(hot, p, at)
  {
    assert Wrap(at - p.last) <= at - p.last;
  }

  // The context that handles a key, its timeout included, has room for what the key adds.
  predicate KeyFits(c: MatcherConfig, hot: uint32, p: PortClock, k: TimedKey) {
    HasRoom(c, if PortExpired(hot, p, k.at) then OnTimeout(p.context).0 else p.context, Key(k.event))
  }

  lemma {:induction false} StaysInStep(c: MatcherConfig, hot: uint32, p: PortClock, l: LegacyClock, k: TimedKey)
    requires c.hasTable && InStep(p, l) && p.last <= k.at
    requires PortExpired(hot, p, k.at) == LegacyExpired(hot, l, k.at)
    requires k.event.kind == Released ==> p.context.keysDown > 0
    requires KeyFits(c, hot, p, k)
    ensures InStep(PortOnKey(c, hot, p, k), LegacyOnTimedKey(c, hot, l, k))
    ensures PortOnKey(c, hot, p, k).last <= k.at
  {}

  // No capture of the port has more keys than the C program's array holds.
  predicate KeysFit(c: MatcherConfig, hot: uint32, keys: seq<TimedKey>) {
    keys == [] || (KeysFit(c, hot, keys[..|keys| - 1])
                   && KeyFits(c, hot, PortAt(c, hot, keys[..|keys| - 1]), keys[|keys| - 1]))
  }

  lemma {:induction false} PortCounts(c: MatcherConfig, hot: uint32, keys: seq<TimedKey>)
    requires WellFormed({}, KeyTrace(keys))
    ensures PortAt(c, hot, keys).context.keysDown == |Held({}, KeyTrace(keys))|
  {
    if keys != [] {
      var n := |keys| - 1;
      KeyTraceSnoc(keys, n);
      PortCounts(c, hot, keys[..n]);
      SizeAfter(Held({}, KeyTrace(keys[..n])), Key(keys[n].event));
      CountOfKey(c, hot, PortAt(c, hot, keys[..n]), keys[n]);
    }
  }

  lemma {:induction false} CountOfKey(c: MatcherConfig, hot: uint32, p: PortClock, k: TimedKey)
    ensures PortOnKey(c, hot, p, k).context.keysDown ==
            if k.event.kind == Pressed then p.context.keysDown + 1 else CountDown(p.context.keysDown)
  {}

  lemma {:induction false} KeyTraceSnoc(keys: seq<TimedKey>, n: nat)
    requires |keys| == n + 1
    ensures var before := KeyTrace(keys[..n]);
            && (WellFormed({}, KeyTrace(keys)) <==>
                  WellFormed({}, before) && Possible(Held({}, before), Key(keys[n].event)))
            && Held({}, KeyTrace(keys)) == HeldAfter(Held({}, before), Key(keys[n].event))
  {
    var t := KeyTrace(keys);
    assert t[..|t| - 1] == KeyTrace(keys[..n]) && t[|t| - 1] == Key(keys[n].event);
  }

  // A release on a keyboard finds a key down.
  lemma {:induction false} ReleaseFindsKey(c: MatcherConfig, hot: uint32, keys: seq<TimedKey>, n: nat)
    requires |keys| == n + 1 && WellFormed({}, KeyTrace(keys)) && keys[n].event.kind == Released
    ensures PortAt(c, hot, keys[..n]).context.keysDown > 0
  {
    KeyTraceSnoc(keys, n);
    PortCounts(c, hot, keys[..n]);
    var h := Held({}, KeyTrace(keys[..n]));
    assert keys[n].event.code in h;
  }

  // Both saw the same up to here, and now.
  lemma {:induction false} SeesSnoc(c: MatcherConfig, hot: uint32, keys: seq<TimedKey>, n: nat)
    requires |keys| == n + 1
    ensures PortSees(c, hot, keys) == LegacySees(c, hot, keys) <==>
            && PortSees(c, hot, keys[..n]) == LegacySees(c, hot, keys[..n])
            && PortExpired(hot, PortAt(c, hot, keys[..n]), keys[n].at) ==
               LegacyExpired(hot, LegacyAt(c, hot, keys[..n]), keys[n].at)
  {
    var before, e := keys[..n], keys[n].event;
    EndsInKey(c, hot, before);
    BehindExactly(PortSees(c, hot, before), PortExpired(hot, PortAt(c, hot, before), keys[n].at),
                  LegacySees(c, hot, before), LegacyExpired(hot, LegacyAt(c, hot, before), keys[n].at), e);
  }

  predicate NoTimeoutLast(tr: seq<Stimulus>) { tr == [] || tr[|tr| - 1].Key? }

  lemma {:induction false} EndsInKey(c: MatcherConfig, hot: uint32, keys: seq<TimedKey>)
    ensures NoTimeoutLast(PortSees(c, hot, keys)) && NoTimeoutLast(LegacySees(c, hot, keys))
  {}

  lemma {:induction false} BehindExactly(a: seq<Stimulus>, x: bool, b: seq<Stimulus>, y: bool, e: KeyEvent)
    requires NoTimeoutLast(a) && NoTimeoutLast(b)
    ensures a + Behind(x, e) == b + Behind(y, e) <==> a == b && x == y
  {
    var s, t := a + Behind(x, e), b + Behind(y, e);
    LastButOne(a, x, e);
    LastButOne(b, y, e);
    if s == t && x == y {
      assert a == s[..|a|] && b == t[..|a|];
    }
  }

  lemma {:induction false} LastButOne(a: seq<Stimulus>, x: bool, e: KeyEvent)
    requires NoTimeoutLast(a)
    ensures var s := a + Behind(x, e);
            x <==> |s| >= 2 && s[|s| - 2] == TimerExpired
  {}

  lemma {:induction false} OrderedPrefix(keys: seq<TimedKey>, n: nat)
    requires Ordered(keys) && |keys| == n + 1
    ensures Ordered(keys[..n]) && (n > 0 ==> keys[n - 1].at <= keys[n].at)
  {}

  lemma {:induction false} StepInTime(c: MatcherConfig, hot: uint32, keys: seq<TimedKey>, n: nat)
    requires |keys| == n + 1 && c.hasTable && hot > 0 && WellFormed({}, KeyTrace(keys))
    requires InStep(PortAt(c, hot, keys[..n]), LegacyAt(c, hot, keys[..n]))
    requires PortAt(c, hot, keys[..n]).last <= keys[n].at
    requires KeyFits(c, hot, PortAt(c, hot, keys[..n]), keys[n])
    requires Prompt(hot, PortAt(c, hot, keys[..n]), keys[n].at)
    ensures InStep(PortAt(c, hot, keys), LegacyAt(c, hot, keys)) && PortAt(c, hot, keys).last <= keys[n].at
  {
    var p, l := PortAt(c, hot, keys[..n]), LegacyAt(c, hot, keys[..n]);
    PromptExactly(hot, p, l, keys[n].at);
    if keys[n].event.kind == Released {
      ReleaseFindsKey(c, hot, keys, n);
    }
    StaysInStep(c, hot, p, l, keys[n]);
  }

  lemma {:induction false} InTimeStaysInStep(c: MatcherConfig, hot: uint32, keys: seq<TimedKey>)
    requires c.hasTable && hot > 0 && Ordered(keys) && WellFormed({}, KeyTrace(keys)) && KeysFit(c, hot, keys)
    requires InTime(c, hot, keys)
    ensures InStep(PortAt(c, hot, keys), LegacyAt(c, hot, keys))
    ensures PortAt(c, hot, keys).last <= if keys == [] then 0 else keys[|keys| - 1].at
  {
    if keys != [] {
      var n := |keys| - 1;
      OrderedPrefix(keys, n);
      KeyTraceSnoc(keys, n);
      InTimeStaysInStep(c, hot, keys[..n]);
      StepInTime(c, hot, keys, n);
    }
  }

  /** Exactly when the two time out at the same key events, each by its own timer: when every key that comes
      while a capture is on is prompt. */
  lemma {:induction false} SameTimeoutsExactly(c: MatcherConfig, hot: uint32, keys: seq<TimedKey>)
    requires c.hasTable && hot > 0 && Ordered(keys) && WellFormed({}, KeyTrace(keys)) && KeysFit(c, hot, keys)
    ensures PortSees(c, hot, keys) == LegacySees(c, hot, keys) <==> InTime(c, hot, keys)
  {
    if keys != [] {
      var n := |keys| - 1;
      OrderedPrefix(keys, n);
      KeyTraceSnoc(keys, n);
      SameTimeoutsExactly(c, hot, keys[..n]);
      SeesSnoc(c, hot, keys, n);
      if InTime(c, hot, keys[..n]) {
        InTimeStaysInStep(c, hot, keys[..n]);
        PromptExactly(hot, PortAt(c, hot, keys[..n]), LegacyAt(c, hot, keys[..n]), keys[n].at);
      }
    }
  }

  // ---- These clocks are the two machines on what they see ----

  lemma {:induction false} PortIsRun(c: MatcherConfig, hot: uint32, keys: seq<TimedKey>, tr: seq<Stimulus>)
    requires tr == PortSees(c, hot, keys)
    ensures PortAt(c, hot, keys).context == Run(c, START, tr).context
    ensures KeysFit(c, hot, keys) <==> FitsArray(c, INITIAL_CONTEXT, tr)
  {
    if keys != [] {
      var before, k := keys[..|keys| - 1], keys[|keys| - 1];
      PortIsRun(c, hot, before, PortSees(c, hot, before));
      BehindRuns(c, PortSees(c, hot, before), PortExpired(hot, PortAt(c, hot, before), k.at), k.event);
    }
  }

  lemma {:induction false} BehindRuns(c: MatcherConfig, tr: seq<Stimulus>, expired: bool, e: KeyEvent)
    ensures var m := Run(c, START, tr).context;
            var n := if expired then OnTimeout(m).0 else m;
            && Run(c, START, tr + Behind(expired, e)).context == OnKey(c, n, e).0
            && (FitsArray(c, INITIAL_CONTEXT, tr + Behind(expired, e)) <==>
                  FitsArray(c, INITIAL_CONTEXT, tr) && HasRoom(c, n, Key(e)))
  {
    if expired {
      FitsSnoc(c, INITIAL_CONTEXT, tr, TimerExpired);
      RunSnoc(c, START, tr, TimerExpired);
      FitsSnoc(c, INITIAL_CONTEXT, tr + [TimerExpired], Key(e));
      RunSnoc(c, START, tr + [TimerExpired], Key(e));
      assert tr + Behind(true, e) == tr + [TimerExpired] + [Key(e)];
    } else {
      FitsSnoc(c, INITIAL_CONTEXT, tr, Key(e));
      RunSnoc(c, START, tr, Key(e));
    }
  }

  lemma {:induction false} LegacyIsRun(c: MatcherConfig, hot: uint32, keys: seq<TimedKey>)
    ensures LegacyAt(c, hot, keys).context == RunBoth(c, PAIR_START, LegacySees(c, hot, keys)).legacy
  {
    if keys != [] {
      var before, k := keys[..|keys| - 1], keys[|keys| - 1];
      LegacyIsRun(c, hot, before);
      BehindRunsBoth(c, LegacySees(c, hot, before), LegacyExpired(hot, LegacyAt(c, hot, before), k.at), k.event);
    }
  }

  lemma {:induction false} BehindRunsBoth(c: MatcherConfig, tr: seq<Stimulus>, expired: bool, e: KeyEvent)
    ensures var m := RunBoth(c, PAIR_START, tr).legacy;
            RunBoth(c, PAIR_START, tr + Behind(expired, e)).legacy ==
            LegacyOnKey(c, if expired then LegacyOnAlarm(m).0 else m, e).0
  {
    if expired {
      BothSnoc(c, PAIR_START, tr, TimerExpired);
      BothSnoc(c, PAIR_START, tr + [TimerExpired], Key(e));
      assert tr + Behind(true, e) == tr + [TimerExpired] + [Key(e)];
    } else {
      BothSnoc(c, PAIR_START, tr, Key(e));
    }
  }

  lemma {:induction false} SeenOnKeyboard(c: MatcherConfig, hot: uint32, keys: seq<TimedKey>)
    requires WellFormed({}, KeyTrace(keys))
    ensures WellFormed({}, PortSees(c, hot, keys)) && Held({}, PortSees(c, hot, keys)) == Held({}, KeyTrace(keys))
  {
    if keys != [] {
      var n := |keys| - 1;
      KeyTraceSnoc(keys, n);
      SeenOnKeyboard(c, hot, keys[..n]);
      BehindOnKeyboard(PortSees(c, hot, keys[..n]),
                       PortExpired(hot, PortAt(c, hot, keys[..n]), keys[n].at), keys[n].event);
    }
  }

  lemma {:induction false} BehindOnKeyboard(tr: seq<Stimulus>, expired: bool, e: KeyEvent)
    requires WellFormed({}, tr) && Possible(Held({}, tr), Key(e))
    ensures WellFormed({}, tr + Behind(expired, e))
    ensures Held({}, tr + Behind(expired, e)) == HeldAfter(Held({}, tr), Key(e))
  {
    HeldSnoc(tr, TimerExpired);
    HeldSnoc(tr, Key(e));
    HeldSnoc(tr + [TimerExpired], Key(e));
    assert tr + [TimerExpired, Key(e)] == tr + [TimerExpired] + [Key(e)];
  }

  lemma {:induction false} HeldSnoc(tr: seq<Stimulus>, i: Stimulus)
    ensures Held({}, tr + [i]) == HeldAfter(Held({}, tr), i)
    ensures WellFormed({}, tr + [i]) <==> WellFormed({}, tr) && Possible(Held({}, tr), i)
  {
    var t := tr + [i];
    assert t[..|t| - 1] == tr;
  }

  /** So with prompt keys the two programs, each with its own timer, start captures at the same keys and look
      up the same sequences. */
  lemma {:induction false} PromptKeysAgree(c: MatcherConfig, hot: uint32, keys: seq<TimedKey>)
    requires c.hasTable && hot > 0 && Ordered(keys) && WellFormed({}, KeyTrace(keys)) && KeysFit(c, hot, keys)
    requires InTime(c, hot, keys)
    ensures PortSees(c, hot, keys) == LegacySees(c, hot, keys) && Agree(c, PortSees(c, hot, keys))
  {
    SameTimeoutsExactly(c, hot, keys);
    SeenOnKeyboard(c, hot, keys);
    PortIsRun(c, hot, keys, PortSees(c, hot, keys));
    PortAgreesWithLegacy(c, PortSees(c, hot, keys));
  }

  lemma {:induction false} AtSnoc(c: MatcherConfig, hot: uint32, keys: seq<TimedKey>, k: TimedKey)
    ensures PortAt(c, hot, keys + [k]) == PortOnKey(c, hot, PortAt(c, hot, keys), k)
    ensures LegacyAt(c, hot, keys + [k]) == LegacyOnTimedKey(c, hot, LegacyAt(c, hot, keys), k)
  {
    assert (keys + [k])[..|keys|] == keys;
  }

  // Both clocks, seen from outside a timeout.
  lemma {:induction false} QuietSnoc(c: MatcherConfig, hot: uint32, keys: seq<TimedKey>, k: TimedKey)
    requires !PortExpired(hot, PortAt(c, hot, keys), k.at) && !LegacyExpired(hot, LegacyAt(c, hot, keys), k.at)
    ensures PortAt(c, hot, keys + [k]).context == OnKey(c, PortAt(c, hot, keys).context, k.event).0
    ensures LegacyAt(c, hot, keys + [k]).context == LegacyOnKey(c, LegacyAt(c, hot, keys).context, k.event).0
    ensures PortAt(c, hot, keys + [k]).last ==
            if OnKey(c, PortAt(c, hot, keys).context, k.event).1.action in {StartCapture, KeyAppended} then k.at
            else PortAt(c, hot, keys).last
    ensures LegacyAt(c, hot, keys + [k]).started ==
            if LegacyOnKey(c, LegacyAt(c, hot, keys).context, k.event).1.started then k.at
            else LegacyAt(c, hot, keys).started
  {
    AtSnoc(c, hot, keys, k);
  }

  function TapKeys(code: RawKeyCode, at: nat): seq<TimedKey> {
    [TimedKey(KeyEvent(code, Pressed), at)] + [TimedKey(KeyEvent(code, Released), at)]
  }

  lemma {:induction false} StartedAtZero(c: MatcherConfig, hot: uint32)
    requires hot > 0
    ensures var keys := TapKeys(c.introducer, 0);
            && PortAt(c, hot, keys) == PortClock(MatcherContext(Capturing, 0, false, []), 0, 0)
            && LegacyAt(c, hot, keys) == LegacyClock(LegacyContext(0, false, true, [], true, false), 0)
  {
    var press, release := TimedKey(KeyEvent(c.introducer, Pressed), 0), TimedKey(KeyEvent(c.introducer, Released), 0);
    AtSnoc(c, hot, [], press);
    AtSnoc(c, hot, [press], release);
    assert [] + [press] == [press];
  }

  // A key tapped just before the interval is over is collected by both.
  lemma {:induction false} TappedInTime(c: MatcherConfig, hot: uint32, keys: seq<TimedKey>, key: RawKeyCode)
    requires hot > 1 && key != c.trailer && key != c.introducer
    requires PortAt(c, hot, keys) == PortClock(MatcherContext(Capturing, 0, false, []), 0, 0)
    requires LegacyAt(c, hot, keys) == LegacyClock(LegacyContext(0, false, true, [], true, false), 0)
    ensures var after := keys + TapKeys(key, hot - 1);
            && PortAt(c, hot, after).context == MatcherContext(Capturing, 0, false, [Substitute(c, key)])
            && PortAt(c, hot, after).last == hot - 1
            && LegacyAt(c, hot, after).context.hotkeyMode && LegacyAt(c, hot, after).started == 0
  {
    var press, release := TimedKey(KeyEvent(key, Pressed), hot - 1), TimedKey(KeyEvent(key, Released), hot - 1);
    NoWrap(hot - 1);
    QuietSnoc(c, hot, keys, press);
    QuietSnoc(c, hot, keys + [press], release);
    assert keys + TapKeys(key, hot - 1) == keys + [press] + [release];
  }

  /** A slow typist tells them apart: tap the introducer, tap a key just before the interval is over, and press
      it again when it is. The port goes on collecting, the C program has given up. */
  lemma {:induction false} SlowTypingDiffers(c: MatcherConfig, hot: uint32) returns (keys: seq<TimedKey>)
    requires hot > 1
    ensures PortAt(c, hot, keys).context.state == Capturing && !LegacyAt(c, hot, keys).context.hotkeyMode
    ensures |PortAt(c, hot, keys).context.sequence| == 2
  {
    var key: RawKeyCode := if c.trailer != 1 && c.introducer != 1 then 1
                           else if c.trailer != 2 && c.introducer != 2 then 2 else 3;
    var before := TapKeys(c.introducer, 0) + TapKeys(key, hot - 1);
    StartedAtZero(c, hot);
    TappedInTime(c, hot, TapKeys(c.introducer, 0), key);
    NoWrap(1);
    AtSnoc(c, hot, before, TimedKey(KeyEvent(key, Pressed), hot));
    keys := before + [TimedKey(KeyEvent(key, Pressed), hot)];
  }
}

/** The daemon keeps this clock, when a timer check comes with every key. */
module DaemonTimers {
  import opened Integers
  import opened SequenceMatching
  import opened MatcherTraces
  import opened Applications
  import opened ApplicationRuns
  import opened TimedRuns
  import opened Timers
  import Execution

  const NANOS := 1_000_000

  // A timer check and then the key, both at its time.
  function Polled(keys: seq<TimedKey>): (inputs: seq<AppInput>)
    ensures |inputs| == 2 * |keys| && NoReload(inputs)
  {
    if keys == [] then []
    else
      var k := keys[|keys| - 1];
      Polled(keys[..|keys| - 1]) + [TimerCheck(k.at * NANOS, 0), KeyInput(k.event, k.at * NANOS, 0)]
  }

  lemma {:induction false} ElapsedIs(at: nat, last: nat)
    requires last <= at
    ensures Elapsed(at * NANOS, last * NANOS) == Wrap(at - last)
  {
    assert at * NANOS - last * NANOS == (at - last) * NANOS;
  }

  // The daemon's clock in nanoseconds, the port's in milliseconds.
  predicate Keeps(r: Clocked, p: PortClock, tr: seq<Stimulus>, c: MatcherConfig) {
    r.machine == Run(c, START, tr) && r.machine.context == p.context && r.last == p.last * NANOS
  }

  // The port's matcher behind a timeout, if there is one.
  function Checked(hot: uint32, p: PortClock, at: nat): PortClock {
    if PortExpired(hot, p, at) then p.(context := OnTimeout(p.context).0) else p
  }

  lemma {:induction false} KeepsChecked(c: MatcherConfig, hot: uint32, r: Clocked, p: PortClock, tr: seq<Stimulus>,
                                        at: nat)
    requires Keeps(r, p, tr, c) && p.last <= at
    ensures Keeps(ClockedStep(c, hot, r, TimerCheck(at * NANOS, 0)), Checked(hot, p, at),
                  if PortExpired(hot, p, at) then tr + [TimerExpired] else tr, c)
  {
    ElapsedIs(at, p.last);
    RunSnoc(c, START, tr, TimerExpired);
  }

  lemma {:induction false} KeepsKey(c: MatcherConfig, hot: uint32, r: Clocked, p: PortClock, tr: seq<Stimulus>,
                                    k: TimedKey)
    requires Keeps(r, p, tr, c) && !PortExpired(hot, p, k.at)
    ensures Keeps(ClockedStep(c, hot, r, KeyInput(k.event, k.at * NANOS, 0)), PortOnKey(c, hot, p, k),
                  tr + [Key(k.event)], c)
  {
    RunSnoc(c, START, tr, Key(k.event));
  }

  lemma {:induction false} KeepsStep(c: MatcherConfig, hot: uint32, r: Clocked, p: PortClock, tr: seq<Stimulus>,
                                     k: TimedKey)
    requires Keeps(r, p, tr, c) && p.last <= k.at
    ensures var checked := ClockedStep(c, hot, r, TimerCheck(k.at * NANOS, 0));
            Keeps(ClockedStep(c, hot, checked, KeyInput(k.event, k.at * NANOS, 0)), PortOnKey(c, hot, p, k),
                  tr + Behind(PortExpired(hot, p, k.at), k.event), c)
  {
    var mid := if PortExpired(hot, p, k.at) then tr + [TimerExpired] else tr;
    KeepsChecked(c, hot, r, p, tr, k.at);
    KeepsKey(c, hot, ClockedStep(c, hot, r, TimerCheck(k.at * NANOS, 0)), Checked(hot, p, k.at), mid, k);
    OnKeyAfterCheck(c, hot, p, k);
    assert mid + [Key(k.event)] == tr + Behind(PortExpired(hot, p, k.at), k.event);
  }

  lemma {:induction false} OnKeyAfterCheck(c: MatcherConfig, hot: uint32, p: PortClock, k: TimedKey)
    ensures PortOnKey(c, hot, Checked(hot, p, k.at), k) == PortOnKey(c, hot, p, k)
  {}

  lemma {:induction false} LastIsPast(c: MatcherConfig, hot: uint32, keys: seq<TimedKey>, at: nat)
    requires forall k :: 0 <= k < |keys| ==> keys[k].at <= at
    ensures PortAt(c, hot, keys).last <= at
  {
    if keys != [] {
      LastIsPast(c, hot, keys[..|keys| - 1], at);
    }
  }

  lemma {:induction false} ClockedKeeps(c: MatcherConfig, hot: uint32, keys: seq<TimedKey>) returns (r: Clocked)
    requires Ordered(keys)
    ensures r == ClockedRun(c, hot, Clocked(START, 0), Polled(keys), 2 * |keys|)
    ensures Keeps(r, PortAt(c, hot, keys), PortSees(c, hot, keys), c)
  {
    r := Clocked(START, 0);
    if keys != [] {
      var n := |keys| - 1;
      OrderedPrefix(keys, n);
      LastIsPast(c, hot, keys[..n], keys[n].at);
      var before := ClockedKeeps(c, hot, keys[..n]);
      KeepsStep(c, hot, before, PortAt(c, hot, keys[..n]), PortSees(c, hot, keys[..n]), keys[n]);
      r := PolledStep(c, hot, Clocked(START, 0), keys, n, before);
    }
  }

  // The last two inputs.
  lemma {:induction false} PolledStep(c: MatcherConfig, hot: uint32, s: Clocked, keys: seq<TimedKey>, n: nat,
                                      before: Clocked) returns (r: Clocked)
    requires |keys| == n + 1 && before == ClockedRun(c, hot, s, Polled(keys[..n]), 2 * n)
    ensures var at := keys[n].at * NANOS;
            r == ClockedStep(c, hot, ClockedStep(c, hot, before, TimerCheck(at, 0)), KeyInput(keys[n].event, at, 0))
    ensures r == ClockedRun(c, hot, s, Polled(keys), 2 * |keys|)
  {
    var inputs, at := Polled(keys), keys[n].at * NANOS;
    assert inputs == Polled(keys[..n]) + [TimerCheck(at, 0), KeyInput(keys[n].event, at, 0)];
    ClockedPrefix(c, hot, s, Polled(keys[..n]), inputs, 2 * n);
    assert ClockedRun(c, hot, s, inputs, 2 * n + 1) == ClockedStep(c, hot, before, inputs[2 * n]);
    r := ClockedRun(c, hot, s, inputs, 2 * n + 2);
  }

  lemma {:induction false} ClockedPrefix(c: MatcherConfig, hot: uint32, s: Clocked, a: seq<AppInput>,
                                         b: seq<AppInput>, k: nat)
    requires NoReload(a) && NoReload(b) && a <= b && k <= |a|
    ensures ClockedRun(c, hot, s, a, k) == ClockedRun(c, hot, s, b, k)
  {
    if k > 0 {
      ClockedPrefix(c, hot, s, a, b, k - 1);
      SameStep(c, hot, ClockedRun(c, hot, s, a, k - 1), a[k - 1], b[k - 1]);
    }
  }

  lemma {:induction false} SameStep(c: MatcherConfig, hot: uint32, s: Clocked, i: AppInput, j: AppInput)
    requires !i.Reload? && i == j
    ensures ClockedStep(c, hot, s, i) == ClockedStep(c, hot, s, j)
  {}

  /** The daemon, polled at every key, has the port's clock, and runs the commands of what the port then delivers. */
  lemma {:induction false} DaemonKeepsClock(env: Execution.Environment, base: seq<bv8>, s: AppState,
                                            keys: seq<TimedKey>)
    requires Invariant(env, base, s) && s.matcher == INITIAL_CONTEXT && s.lastKeyTime == 0 && Ordered(keys)
    ensures var t := RunApp(env, s, Polled(keys));
            && t.matcher == PortAt(s.config, s.hotInterval, keys).context
            && t.world.ran ==
               s.world.ran +
               CommandsForAll(s.bindings, Run(s.config, START, PortSees(s.config, s.hotInterval, keys)).delivered)
  {
    var inputs := Polled(keys);
    RunFollows(env, base, s, inputs, |inputs|);
    RunDispatches(env, base, s, inputs);
    var r := ClockedKeeps(s.config, s.hotInterval, keys);
    assert inputs[..|inputs|] == inputs;
  }
}
