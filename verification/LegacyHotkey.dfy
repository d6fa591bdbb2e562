/** The C program's hotkey machine, with its key counter, its flags and its fixed array. */
module LegacyHotkey {
  import opened Keys
  import opened SequenceMatching
  import opened MatcherTraces
  import opened LegacyKeys

  // overflowed says that a code was stored behind the array; what happens from then on is unspecified.
  datatype LegacyContext = LegacyContext(npressed: int, introducerJustPressed: bool, hotkeyMode: bool,
                                         hotSequence: KeySequence, inputCaptured: bool, overflowed: bool)

  const LEGACY_INITIAL := LegacyContext(0, false, false, [], false, false)

  // What is seen from outside: a capture starting, and a non-empty sequence being looked up.
  datatype Observation = Observation(started: bool, lookedUp: Option<KeySequence>)

  const SILENT := Observation(false, None)

  function LookUp(q: KeySequence): Observation {
    Observation(false, if |q| > 0 then Some(q) else None)
  }

  function LegacyOnKey(c: MatcherConfig, s: LegacyContext, e: KeyEvent): (LegacyContext, Observation) {
    if e.kind == Pressed then
      var t := s.(npressed := s.npressed + 1);
      if !s.hotkeyMode then
        (t.(introducerJustPressed := t.npressed == 1 && e.code == c.introducer), SILENT)
      else if e.code == c.trailer then
        (t.(hotkeyMode := false, inputCaptured := false, hotSequence := []), LookUp(s.hotSequence))
      else if |s.hotSequence| < MAXSEQ then
        (t.(hotSequence := s.hotSequence + [SubstituteCode(e.code)]), SILENT)
      else
        (t.(overflowed := true), SILENT)
    else
      var t := s.(npressed := s.npressed - 1);
      if t.npressed == 0 && e.code == c.introducer && s.introducerJustPressed then
        (t.(introducerJustPressed := false, inputCaptured := true, hotkeyMode := true), Observation(true, None))
      else (t, SILENT)
  }

  function LegacyOnAlarm(s: LegacyContext): (LegacyContext, Observation) {
    var t := s.(inputCaptured := false);
    if s.hotkeyMode then (t.(hotkeyMode := false, hotSequence := []), LookUp(s.hotSequence)) else (t, SILENT)
  }

  function LegacyOnStimulus(c: MatcherConfig, s: LegacyContext, i: Stimulus): (LegacyContext, Observation) {
    match i
    case Key(e) => LegacyOnKey(c, s, e)
    case TimerExpired => LegacyOnAlarm(s)
  }

  class LegacyMachine {
    const introducer: RawKeyCode
    const trailer: RawKeyCode
    var npressed: int
    var introducerJustPressed: bool
    var hotkeyMode: bool
    var inputCaptured: bool
    var hotSequenceLength: nat
    const hotSequence: array<RawKeyCode>
    // Set in place of a store behind the array.
    var overflowed: bool

    predicate Valid()
      reads this
    {
      hotSequence.Length == MAXSEQ && hotSequenceLength <= MAXSEQ
    }

    function Context(): LegacyContext
      requires Valid()
      reads this, hotSequence
    {
      LegacyContext(npressed, introducerJustPressed, hotkeyMode, hotSequence[..hotSequenceLength], inputCaptured,
                    overflowed)
    }

    function Config(): MatcherConfig {
      MatcherConfig(introducer, trailer, true)
    }

    constructor (introducer: RawKeyCode, trailer: RawKeyCode)
      ensures Valid() && fresh(hotSequence) && Context() == LEGACY_INITIAL
      ensures this.introducer == introducer && this.trailer == trailer
    {
      this.introducer, this.trailer := introducer, trailer;
      npressed, introducerJustPressed, hotkeyMode, inputCaptured, hotSequenceLength := 0, false, false, false, 0;
      hotSequence := new RawKeyCode[MAXSEQ](i => 0);
      overflowed := false;
    }

    // value is 1 for a press, 0 for a release and 2 for an autorepeat, which is ignored.
    method ProcessInputEvent(code: RawKeyCode, value: int) returns (o: Observation)
      requires Valid()
      modifies this, hotSequence
      ensures Valid()
      ensures value == 1 ==> (Context(), o) == LegacyOnKey(Config(), old(Context()), KeyEvent(code, Pressed))
      ensures value == 0 ==> (Context(), o) == LegacyOnKey(Config(), old(Context()), KeyEvent(code, Released))
      ensures value != 0 && value != 1 ==> (Context(), o) == (old(Context()), SILENT)
    {
      o := SILENT;
      if value == 1 {
        npressed := npressed + 1;
        if !hotkeyMode {
          if npressed == 1 && code == introducer {
            introducerJustPressed := true;
          } else {
            introducerJustPressed := false;
            hotkeyMode := false;
          }
        } else if code == trailer {
          inputCaptured := false;
          hotkeyMode := false;
          if hotSequenceLength > 0 {
            o := LookUp(hotSequence[..hotSequenceLength]);
            hotSequenceLength := 0;
          }
        } else {
          var sub := GetKeySubstituteCode(code);
          if hotSequenceLength < MAXSEQ {
            hotSequence[hotSequenceLength] := sub;
            hotSequenceLength := hotSequenceLength + 1;
            assert hotSequence[..hotSequenceLength] == old(hotSequence[..hotSequenceLength]) + [sub];
          } else {
            overflowed := true;
          }
        }
      } else if value == 0 {
        npressed := npressed - 1;
        if npressed == 0 && code == introducer && introducerJustPressed {
          introducerJustPressed := false;
          inputCaptured := true;
          hotkeyMode := true;
          o := Observation(true, None);
        }
      }
    }

    // pending says that the timer has not expired: a false alarm.
    method AlarmHandler(pending: bool) returns (o: Observation)
      requires Valid()
      modifies this
      ensures Valid()
      ensures (Context(), o) == if pending then (old(Context()), SILENT) else LegacyOnAlarm(old(Context()))
    {
      o := SILENT;
      if pending {
        return;
      }
      inputCaptured := false;
      if hotkeyMode {
        hotkeyMode := false;
        if hotSequenceLength > 0 {
          o := LookUp(hotSequence[..hotSequenceLength]);
          hotSequenceLength := 0;
        }
      }
    }
  }
}

/** The C++ port and the C program, side by side. */
module PortBisimulation {
  import opened Keys
  import opened SequenceMatching
  import opened MatcherTraces
  import opened LegacyKeys
  import opened LegacyHotkey
  import opened HeldKeys
  import opened Deliverable

  function Observe(r: MatcherResult): Observation {
    if r.action == StartCapture then Observation(true, None)
    else if r.action == SequenceComplete then LookUp(r.sequence)
    else SILENT
  }

  // Both machines on one trace, each with what was observed of it.
  datatype Pair = Pair(port: MatcherContext, legacy: LegacyContext,
                       portSeen: seq<Observation>, legacySeen: seq<Observation>)

  const PAIR_START := Pair(INITIAL_CONTEXT, LEGACY_INITIAL, [], [])

  function Both(c: MatcherConfig, b: Pair, i: Stimulus): Pair {
    var (m, r) := OnStimulus(c, b.port, i);
    var (l, o) := LegacyOnStimulus(c, b.legacy, i);
    Pair(m, l, b.portSeen + [Observe(r)], b.legacySeen + [o])
  }

  function RunBoth(c: MatcherConfig, b: Pair, tr: seq<Stimulus>): Pair {
    if tr == [] then b else Both(c, RunBoth(c, b, tr[..|tr| - 1]), tr[|tr| - 1])
  }

  lemma {:induction false} RunBothConcat(c: MatcherConfig, b: Pair, t: seq<Stimulus>, u: seq<Stimulus>)
    ensures RunBoth(c, b, t + u) == RunBoth(c, RunBoth(c, b, t), u)
    decreases |u|
  {
    if u == [] {
      assert t + u == t;
    } else {
      assert (t + u)[..|t + u| - 1] == t + u[..|u| - 1];
      RunBothConcat(c, b, t, u[..|u| - 1]);
    }
  }

  predicate IsRelease(i: Stimulus) { i.Key? && i.event.kind == Released }

  // No release comes while the port's counter is zero.
  predicate NoUnderflow(n: nat, tr: seq<Stimulus>) {
    tr == [] || (NoUnderflow(n, tr[..|tr| - 1]) && (IsRelease(tr[|tr| - 1]) ==> Down(n, tr[..|tr| - 1]) > 0))
  }

  // The port's machine has collected fewer keys than the C program's array holds, if this stimulus adds one.
  predicate HasRoom(c: MatcherConfig, s: MatcherContext, i: Stimulus) {
    s.state == Capturing && IsPress(i) && i.event.code != c.trailer ==> |s.sequence| < MAXSEQ
  }

  // No capture collects more keys than that.
  predicate FitsArray(c: MatcherConfig, m: MatcherContext, tr: seq<Stimulus>) {
    tr == [] || (FitsArray(c, m, tr[..|tr| - 1])
                 && HasRoom(c, Run(c, Machine(m, []), tr[..|tr| - 1]).context, tr[|tr| - 1]))
  }

  predicate Related(b: Pair) {
    && b.legacy == LegacyContext(b.port.keysDown, b.port.introducerArmed, b.port.state == Capturing,
                                 b.port.sequence, b.port.state == Capturing, false)
    && (b.port.introducerArmed ==> b.port.state == Idle)
    && (b.port.state == Idle ==> b.port.sequence == [])
    && b.portSeen == b.legacySeen
  }

  // The port's half of a run of both machines is a run of the port.
  lemma {:induction false} PortRuns(c: MatcherConfig, b: Pair, tr: seq<Stimulus>, delivered: seq<KeySequence>)
    ensures RunBoth(c, b, tr).port == Run(c, Machine(b.port, delivered), tr).context
    ensures RunBoth(c, b, tr).port.keysDown == Down(b.port.keysDown, tr)
  {
    if tr != [] {
      PortRuns(c, b, tr[..|tr| - 1], delivered);
    }
  }

  lemma {:induction false} StepStaysRelated(c: MatcherConfig, b: Pair, i: Stimulus)
    requires c.hasTable && Related(b) && HasRoom(c, b.port, i) && (IsRelease(i) ==> b.port.keysDown > 0)
    ensures Related(Both(c, b, i))
  {}

  lemma {:induction false} StaysRelated(c: MatcherConfig, b: Pair, tr: seq<Stimulus>)
    requires c.hasTable && Related(b) && NoUnderflow(b.port.keysDown, tr) && FitsArray(c, b.port, tr)
    ensures Related(RunBoth(c, b, tr))
  {
    if tr != [] {
      var before := tr[..|tr| - 1];
      StaysRelated(c, b, before);
      PortRuns(c, b, before, []);
      StepStaysRelated(c, RunBoth(c, b, before), tr[|tr| - 1]);
    }
  }

  lemma {:induction false} OverflowIsForever(c: MatcherConfig, b: Pair, tr: seq<Stimulus>)
    requires b.legacy.overflowed
    ensures RunBoth(c, b, tr).legacy.overflowed
  {
    if tr != [] {
      OverflowIsForever(c, b, tr[..|tr| - 1]);
    }
  }

  lemma {:induction false} WellFormedNeverUnderflows(tr: seq<Stimulus>)
    requires WellFormed({}, tr)
    ensures NoUnderflow(0, tr) && Down(0, tr) == |Held({}, tr)|
  {
    if tr != [] {
      var before, i := tr[..|tr| - 1], tr[|tr| - 1];
      WellFormedNeverUnderflows(before);
      SizeAfter(Held({}, before), i);
    }
  }

  // The C program stayed in its array, and both were observed to do the same.
  ghost predicate Agree(c: MatcherConfig, tr: seq<Stimulus>) {
    var b := RunBoth(c, PAIR_START, tr);
    !b.legacy.overflowed && b.portSeen == b.legacySeen
  }

  // While no release finds the counter at zero, the array is what can go wrong.
  lemma {:induction false} OverflowExactly(c: MatcherConfig, tr: seq<Stimulus>)
    requires c.hasTable && NoUnderflow(0, tr)
    ensures RunBoth(c, PAIR_START, tr).legacy.overflowed <==> !FitsArray(c, INITIAL_CONTEXT, tr)
  {
    if tr != [] {
      var before, i := tr[..|tr| - 1], tr[|tr| - 1];
      OverflowExactly(c, before);
      var b := RunBoth(c, PAIR_START, before);
      if FitsArray(c, INITIAL_CONTEXT, before) {
        StaysRelated(c, PAIR_START, before);
        PortRuns(c, PAIR_START, before, []);
        OverflowStep(c, b, i);
      } else {
        assert b.legacy.overflowed;
      }
    }
  }

  lemma {:induction false} OverflowStep(c: MatcherConfig, b: Pair, i: Stimulus)
    requires Related(b)
    ensures Both(c, b, i).legacy.overflowed <==> !HasRoom(c, b.port, i)
  {}

  /** On a real keyboard the C program stays in its array and both start captures at the same events and
      look up the same sequences, if and only if no capture collects more than MAXSEQ keys. */
  lemma {:induction false} PortAgreesWithLegacy(c: MatcherConfig, tr: seq<Stimulus>)
    requires c.hasTable && WellFormed({}, tr)
    ensures Agree(c, tr) <==> FitsArray(c, INITIAL_CONTEXT, tr)
  {
    WellFormedNeverUnderflows(tr);
    OverflowExactly(c, tr);
    if FitsArray(c, INITIAL_CONTEXT, tr) {
      StaysRelated(c, PAIR_START, tr);
    }
  }

  // What one stimulus does to the two counters.
  lemma {:induction false} CounterStep(c: MatcherConfig, b: Pair, i: Stimulus)
    ensures var after := Both(c, b, i);
            var step := if IsPress(i) then 1 else if IsRelease(i) then -1 else 0;
            after.legacy.npressed == b.legacy.npressed + step
            && after.port.keysDown == if b.port.keysDown + step < 0 then 0 else b.port.keysDown + step
  {}

  // The counters drift apart for good at the first release that finds none down.
  lemma {:induction false} CountersDrift(c: MatcherConfig, tr: seq<Stimulus>)
    ensures var b := RunBoth(c, PAIR_START, tr);
            b.port.keysDown == Down(0, tr) && b.legacy.npressed <= b.port.keysDown
            && (b.legacy.npressed == b.port.keysDown <==> NoUnderflow(0, tr))
  {
    if tr != [] {
      CountersDrift(c, tr[..|tr| - 1]);
      CounterStep(c, RunBoth(c, PAIR_START, tr[..|tr| - 1]), tr[|tr| - 1]);
    }
  }

  // n releases of a key, so that the port's counter drops to zero.
  function Releases(code: RawKeyCode, n: nat): seq<Stimulus> {
    if n == 0 then [] else Releases(code, n - 1) + [Key(KeyEvent(code, Released))]
  }

  // Releasing a key other than the introducer outside a capture only counts.
  lemma {:induction false} ReleaseCounts(c: MatcherConfig, b: Pair, code: RawKeyCode)
    requires b.port.state == Idle && b.port.keysDown > 0 && code != c.introducer
    ensures var after := Both(c, b, Key(KeyEvent(code, Released)));
            after.port == b.port.(keysDown := b.port.keysDown - 1)
            && after.legacy == b.legacy.(npressed := b.legacy.npressed - 1)
  {}

  lemma {:induction false} ReleasesCount(c: MatcherConfig, b: Pair, code: RawKeyCode, n: nat)
    requires b.port.state == Idle && n <= b.port.keysDown && code != c.introducer
    ensures var after := RunBoth(c, b, Releases(code, n));
            after.port == b.port.(keysDown := b.port.keysDown - n)
            && after.legacy == b.legacy.(npressed := b.legacy.npressed - n)
    ensures NoUnderflow(b.port.keysDown, Releases(code, n))
  {
    if n > 0 {
      ReleasesCount(c, b, code, n - 1);
      ReleaseCounts(c, RunBoth(c, b, Releases(code, n - 1)), code);
      PortRuns(c, b, Releases(code, n - 1), []);
      BothSnoc(c, b, Releases(code, n - 1), Key(KeyEvent(code, Released)));
    }
  }

  // A continuation that exposes counters that have drifted apart.
  function Probe(c: MatcherConfig, n: nat): seq<Stimulus> {
    Releases(if c.introducer == 1 then 2 else 1, n) + Tap(c.introducer)
  }

  lemma {:induction false} ProbeExposes(c: MatcherConfig, b: Pair)
    requires b.port.state == Idle && !b.legacy.hotkeyMode && b.legacy.npressed < b.port.keysDown
    requires |b.portSeen| == |b.legacySeen|
    ensures RunBoth(c, b, Probe(c, b.port.keysDown)).portSeen != RunBoth(c, b, Probe(c, b.port.keysDown)).legacySeen
    ensures NoUnderflow(b.port.keysDown, Probe(c, b.port.keysDown))
  {
    var n := b.port.keysDown;
    var other: RawKeyCode := if c.introducer == 1 then 2 else 1;
    ReleasesCount(c, b, other, n);
    SeenLengths(c, b, Releases(other, n));
    TapTellsApart(c, RunBoth(c, b, Releases(other, n)));
    var press, release := Key(KeyEvent(c.introducer, Pressed)), Key(KeyEvent(c.introducer, Released));
    BothSnoc(c, b, Releases(other, n), press);
    BothSnoc(c, b, Releases(other, n) + [press], release);
    assert Probe(c, n) == Releases(other, n) + [press] + [release];
  }

  lemma {:induction false} TapTellsApart(c: MatcherConfig, b: Pair)
    requires b.port.state == Idle && b.port.keysDown == 0 && !b.legacy.hotkeyMode && b.legacy.npressed < 0
    requires |b.portSeen| == |b.legacySeen|
    ensures var pressed := Both(c, b, Key(KeyEvent(c.introducer, Pressed)));
            var tapped := Both(c, pressed, Key(KeyEvent(c.introducer, Released)));
            tapped.portSeen != tapped.legacySeen
  {
    var pressed := Both(c, b, Key(KeyEvent(c.introducer, Pressed)));
    var tapped := Both(c, pressed, Key(KeyEvent(c.introducer, Released)));
    var last := |b.portSeen| + 1;
    assert tapped.portSeen[last] == Observation(true, None);
    assert tapped.legacySeen[last] == SILENT;
  }

  lemma {:induction false} BothSnoc(c: MatcherConfig, b: Pair, tr: seq<Stimulus>, i: Stimulus)
    ensures RunBoth(c, b, tr + [i]) == Both(c, RunBoth(c, b, tr), i)
    ensures Down(b.port.keysDown, tr + [i]) == Down(Down(b.port.keysDown, tr), [i])
    ensures NoUnderflow(b.port.keysDown, tr + [i]) ==
            (NoUnderflow(b.port.keysDown, tr) && (IsRelease(i) ==> Down(b.port.keysDown, tr) > 0))
  {
    var t := tr + [i];
    assert t[..|t| - 1] == tr && t[|t| - 1] == i;
    assert [i][..0] == [];
  }

  lemma {:induction false} SeenLengths(c: MatcherConfig, b: Pair, tr: seq<Stimulus>)
    ensures |RunBoth(c, b, tr).portSeen| == |b.portSeen| + |tr|
    ensures |RunBoth(c, b, tr).legacySeen| == |b.legacySeen| + |tr|
  {
    if tr != [] {
      SeenLengths(c, b, tr[..|tr| - 1]);
    }
  }

  lemma {:induction false} NoUnderflowConcat(n: nat, a: seq<Stimulus>, b: seq<Stimulus>)
    ensures NoUnderflow(n, a + b) <==> NoUnderflow(n, a) && NoUnderflow(Down(n, a), b)
    decreases |b|
  {
    if b == [] {
      assert a + b == a;
    } else {
      assert (a + b)[..|a + b| - 1] == a + b[..|b| - 1];
      NoUnderflowConcat(n, a, b[..|b| - 1]);
      DownConcat(n, a, b[..|b| - 1]);
    }
  }

  lemma {:induction false} FitsConcat(c: MatcherConfig, m: MatcherContext, a: seq<Stimulus>, b: seq<Stimulus>)
    ensures FitsArray(c, m, a + b) <==>
            FitsArray(c, m, a) && FitsArray(c, Run(c, Machine(m, []), a).context, b)
    decreases |b|
  {
    if b == [] {
      assert a + b == a;
    } else {
      assert (a + b)[..|a + b| - 1] == a + b[..|b| - 1];
      FitsConcat(c, m, a, b[..|b| - 1]);
      SameContext(c, m, a, b[..|b| - 1]);
    }
  }

  lemma {:induction false} SameContext(c: MatcherConfig, m: MatcherContext, a: seq<Stimulus>, b: seq<Stimulus>)
    ensures Run(c, Machine(m, []), a + b).context ==
            Run(c, Machine(Run(c, Machine(m, []), a).context, []), b).context
  {
    var mid := Run(c, Machine(m, []), a);
    RunConcat(c, Machine(m, []), a, b);
    ContextOnly(c, mid.context, mid.delivered, [], b);
  }

  // What was delivered before does not matter.
  lemma {:induction false} ContextOnly(c: MatcherConfig, m: MatcherContext, p: seq<KeySequence>, q: seq<KeySequence>,
                                       tr: seq<Stimulus>)
    ensures Run(c, Machine(m, p), tr).context == Run(c, Machine(m, q), tr).context
  {
    if tr != [] {
      ContextOnly(c, m, p, q, tr[..|tr| - 1]);
    }
  }

  /** A store behind the array settles it: whatever follows, the two no longer agree. */
  lemma {:induction false} OverflowSettles(c: MatcherConfig, tr: seq<Stimulus>, more: seq<Stimulus>)
    requires RunBoth(c, PAIR_START, tr).legacy.overflowed
    ensures !Agree(c, tr + more)
  {
    RunBothConcat(c, PAIR_START, tr, more);
    OverflowIsForever(c, RunBoth(c, PAIR_START, tr), more);
  }

  // Whatever follows without underflow and without a capture of more than MAXSEQ keys, both agree.
  ghost predicate Interchangeable(c: MatcherConfig, tr: seq<Stimulus>) {
    forall more :: NoUnderflow(Down(0, tr), more) && FitsArray(c, INITIAL_CONTEXT, tr + more) ==> Agree(c, tr + more)
  }

  /** The exact condition for replacing one program by the other behind a trace that fits the array: they
      agree on every continuation that neither underflows nor leaves the array, if and only if no release
      in the trace came with no key down. */
  lemma {:induction false} InterchangeableExactly(c: MatcherConfig, tr: seq<Stimulus>)
    requires c.hasTable && FitsArray(c, INITIAL_CONTEXT, tr)
    ensures Interchangeable(c, tr) <==> NoUnderflow(0, tr)
  {
    if NoUnderflow(0, tr) {
      forall more | NoUnderflow(Down(0, tr), more) && FitsArray(c, INITIAL_CONTEXT, tr + more)
        ensures Agree(c, tr + more)
      {
        NoUnderflowConcat(0, tr, more);
        StaysRelated(c, PAIR_START, tr + more);
      }
    } else {
      var more := Divergence(c, tr);
      assert !Agree(c, tr + more);
    }
  }

  lemma {:induction false} Divergence(c: MatcherConfig, tr: seq<Stimulus>) returns (more: seq<Stimulus>)
    requires !NoUnderflow(0, tr) && FitsArray(c, INITIAL_CONTEXT, tr)
    ensures NoUnderflow(Down(0, tr), more) && FitsArray(c, INITIAL_CONTEXT, tr + more) && !Agree(c, tr + more)
  {
    var timed := tr + [TimerExpired];
    var n := RunBoth(c, PAIR_START, timed).port.keysDown;
    var probe := Probe(c, n);
    more := [TimerExpired] + probe;
    DriftAfterTimer(c, tr);
    ProbeDisagrees(c, timed, n, probe);
    NoUnderflowAfterTimer(n, probe);
    ProbeFitsAfter(c, tr, timed, n, probe);
    assert tr + more == timed + probe;
  }

  lemma {:induction false} ProbeDisagrees(c: MatcherConfig, timed: seq<Stimulus>, n: nat, probe: seq<Stimulus>)
    requires var b := RunBoth(c, PAIR_START, timed);
             b.port.state == Idle && !b.legacy.hotkeyMode && b.port.keysDown == n
             && b.legacy.npressed < n && |b.portSeen| == |b.legacySeen|
    requires probe == Probe(c, n)
    ensures !Agree(c, timed + probe) && NoUnderflow(n, probe)
  {
    ProbeExposes(c, RunBoth(c, PAIR_START, timed));
    RunBothConcat(c, PAIR_START, timed, probe);
  }

  lemma {:induction false} ProbeFitsAfter(c: MatcherConfig, tr: seq<Stimulus>, timed: seq<Stimulus>, n: nat,
                                          probe: seq<Stimulus>)
    requires FitsArray(c, INITIAL_CONTEXT, tr) && timed == tr + [TimerExpired] && probe == Probe(c, n)
    requires RunBoth(c, PAIR_START, timed).port.state == Idle
    ensures FitsArray(c, INITIAL_CONTEXT, timed + probe)
  {
    FitsSnoc(c, INITIAL_CONTEXT, tr, TimerExpired);
    PortRuns(c, PAIR_START, timed, []);
    ProbeFits(c, Run(c, START, timed).context, n, probe);
    FitsConcat(c, INITIAL_CONTEXT, timed, probe);
  }

  lemma {:induction false} DriftAfterTimer(c: MatcherConfig, tr: seq<Stimulus>)
    requires !NoUnderflow(0, tr)
    ensures var b := RunBoth(c, PAIR_START, tr + [TimerExpired]);
            b.port.state == Idle && !b.legacy.hotkeyMode && b.port.keysDown == Down(0, tr)
            && b.legacy.npressed < b.port.keysDown && |b.portSeen| == |b.legacySeen|
  {
    CountersDrift(c, tr);
    SeenLengths(c, PAIR_START, tr);
    BothSnoc(c, PAIR_START, tr, TimerExpired);
  }

  lemma {:induction false} FitsSnoc(c: MatcherConfig, m: MatcherContext, tr: seq<Stimulus>, i: Stimulus)
    ensures FitsArray(c, m, tr + [i]) <==> FitsArray(c, m, tr) && HasRoom(c, Run(c, Machine(m, []), tr).context, i)
  {
    var t := tr + [i];
    assert t[..|t| - 1] == tr && t[|t| - 1] == i;
  }

  // In Idle any key may be pressed, and any key but the introducer released.
  lemma {:induction false} QuietFits(c: MatcherConfig, m: MatcherContext, tr: seq<Stimulus>, i: Stimulus)
    requires FitsArray(c, m, tr) && Run(c, Machine(m, []), tr).context.state == Idle
    ensures FitsArray(c, m, tr + [i])
    ensures i != Key(KeyEvent(c.introducer, Released)) ==> Run(c, Machine(m, []), tr + [i]).context.state == Idle
  {
    FitsSnoc(c, m, tr, i);
    RunSnoc(c, Machine(m, []), tr, i);
    IdleStep(c, Run(c, Machine(m, []), tr), i);
  }

  lemma {:induction false} IdleStep(c: MatcherConfig, m: Machine, i: Stimulus)
    requires m.context.state == Idle
    ensures HasRoom(c, m.context, i)
    ensures i != Key(KeyEvent(c.introducer, Released)) ==> Step(c, m, i).context.state == Idle
  {}

  lemma {:induction false} ReleasesFit(c: MatcherConfig, m: MatcherContext, code: RawKeyCode, n: nat)
    requires m.state == Idle && code != c.introducer
    ensures FitsArray(c, m, Releases(code, n))
    ensures Run(c, Machine(m, []), Releases(code, n)).context.state == Idle
  {
    if n > 0 {
      ReleasesFit(c, m, code, n - 1);
      QuietFits(c, m, Releases(code, n - 1), Key(KeyEvent(code, Released)));
    }
  }

  lemma {:induction false} TapFits(c: MatcherConfig, m: MatcherContext, tr: seq<Stimulus>, tapped: seq<Stimulus>)
    requires FitsArray(c, m, tr) && Run(c, Machine(m, []), tr).context.state == Idle
    requires tapped == tr + Tap(c.introducer)
    ensures FitsArray(c, m, tapped)
  {
    var press, release := Key(KeyEvent(c.introducer, Pressed)), Key(KeyEvent(c.introducer, Released));
    QuietFits(c, m, tr, press);
    QuietFits(c, m, tr + [press], release);
    assert tapped == tr + [press] + [release];
  }

  // Nothing the probe presses is collected by the port.
  lemma {:induction false} ProbeFits(c: MatcherConfig, m: MatcherContext, n: nat, probe: seq<Stimulus>)
    requires m.state == Idle && probe == Probe(c, n)
    ensures FitsArray(c, m, probe)
  {
    var other: RawKeyCode := if c.introducer == 1 then 2 else 1;
    ReleasesFit(c, m, other, n);
    TapFits(c, m, Releases(other, n), probe);
  }

  /** With every configuration a keyboard can make the C program leave its array: tap the introducer, tap a
      key MAXSEQ times, and press it once more. */
  lemma {:induction false} NinthKeyOverflows(c: MatcherConfig) returns (tr: seq<Stimulus>)
    requires c.hasTable
    ensures WellFormed({}, tr) && !FitsArray(c, INITIAL_CONTEXT, tr) && !Agree(c, tr)
  {
    var key: RawKeyCode := if c.trailer == 1 then 2 else 1;
    assert Substitute(c, key) == key;
    var q := seq(MAXSEQ, i => key);
    assert AllTypeable(c, q);
    TypingCollects(c, q);
    var ninth := Key(KeyEvent(key, Pressed));
    Snoc(c, Typing(c, q), ninth);
    FitsSnoc(c, INITIAL_CONTEXT, Typing(c, q), ninth);
    tr := Typing(c, q) + [ninth];
    PortAgreesWithLegacy(c, tr);
  }

  lemma {:induction false} NoUnderflowAfterTimer(n: nat, tr: seq<Stimulus>)
    requires NoUnderflow(n, tr)
    ensures NoUnderflow(n, [TimerExpired] + tr) && Down(n, [TimerExpired] + tr) == Down(n, tr)
  {
    var t := [TimerExpired] + tr;
    if tr == [] {
      assert t == [TimerExpired];
      assert t[..0] == [];
    } else {
      assert t[..|t| - 1] == [TimerExpired] + tr[..|tr| - 1];
      NoUnderflowAfterTimer(n, tr[..|tr| - 1]);
    }
  }
}

/** Which traces fit the C program's array, read off the trace. */
module CaptureLengths {
  import opened LegacyKeys
  import opened SequenceMatching
  import opened MatcherTraces
  import opened HeldKeys
  import opened PortBisimulation

  // The first capture: how many presses it has, and where the trace goes on; the end when it has not ended.
  datatype Length = Length(presses: nat, next: nat)

  ghost function FirstLength(c: MatcherConfig, n: nat, tr: seq<Stimulus>): (r: Length)
    ensures r.next <= |tr|
    ensures tr != [] ==> r.next > 0
  {
    var i := FindStart(c, n, tr, 0);
    if i == |tr| then Length(0, |tr|)
    else
      var j := FindEnd(c, tr, i + 1);
      Length(|Codes(c, tr[i + 1..j])|, if j == |tr| then |tr| else j + 1)
  }

  // No capture of the trace, complete or still going on, has more than MAXSEQ presses.
  ghost predicate ShortCaptures(c: MatcherConfig, n: nat, tr: seq<Stimulus>)
    decreases |tr|
  {
    tr == []
    || (var first := FirstLength(c, n, tr);
        first.presses <= MAXSEQ && ShortCaptures(c, Down(n, tr[..first.next]), tr[first.next..]))
  }

  lemma {:induction false} IdleFits(c: MatcherConfig, m: MatcherContext, tr: seq<Stimulus>, k: nat)
    requires AtRest(m) && k <= |tr| && forall j :: 0 <= j < k ==> !StartsAt(c, m.keysDown, tr, j)
    ensures FitsArray(c, m, tr[..k])
  {
    if k > 0 {
      IdleFits(c, m, tr, k - 1);
      IdlePrefix(c, Machine(m, []), tr, k - 1);
      assert tr[..k][..k - 1] == tr[..k - 1];
    }
  }

  lemma {:induction false} StartFits(c: MatcherConfig, m: MatcherContext, tr: seq<Stimulus>, i: nat)
    requires AtRest(m) && i == FindStart(c, m.keysDown, tr, 0) && i < |tr|
    ensures FitsArray(c, m, tr[..i + 1])
    ensures Run(c, Machine(m, []), tr[..i + 1]).context ==
            MatcherContext(Capturing, Down(m.keysDown, tr[..i + 1]), false, [])
  {
    IdleFits(c, m, tr, i);
    CaptureOpens(c, Machine(m, []), tr, i);
    assert tr[..i + 1][..i] == tr[..i];
  }

  // A stretch of a capture fits exactly when its presses do.
  lemma {:induction false} SegmentFits(c: MatcherConfig, m: MatcherContext, seg: seq<Stimulus>)
    requires m.state == Capturing && !m.introducerArmed && m.sequence == [] && NeverEnds(c, seg)
    ensures FitsArray(c, m, seg) <==> |Codes(c, seg)| <= MAXSEQ
  {
    if seg != [] {
      var before := seg[..|seg| - 1];
      SegmentFits(c, m, before);
      CaptureSegment(c, Machine(m, []), before);
    }
  }

  lemma {:induction false} CaptureFits(c: MatcherConfig, m: MatcherContext, a: seq<Stimulus>, seg: seq<Stimulus>)
    requires FitsArray(c, m, a) && NeverEnds(c, seg)
    requires var s := Run(c, Machine(m, []), a).context;
             s.state == Capturing && !s.introducerArmed && s.sequence == []
    ensures FitsArray(c, m, a + seg) <==> |Codes(c, seg)| <= MAXSEQ
  {
    FitsConcat(c, m, a, seg);
    SegmentFits(c, Run(c, Machine(m, []), a).context, seg);
  }

  // The event that ends a capture adds no key.
  lemma {:induction false} EndFits(c: MatcherConfig, m: MatcherContext, a: seq<Stimulus>, e: Stimulus)
    requires EndsCapture(c, e)
    ensures FitsArray(c, m, a + [e]) <==> FitsArray(c, m, a)
  {
    FitsSnoc(c, m, a, e);
  }

  // The first capture of a trace, up to its end.
  lemma {:induction false} FirstFits(c: MatcherConfig, m: MatcherContext, tr: seq<Stimulus>, i: nat, j: nat)
    requires AtRest(m) && i == FindStart(c, m.keysDown, tr, 0) && i < |tr| && j == FindEnd(c, tr, i + 1)
    ensures FitsArray(c, m, tr[..j]) <==> |Codes(c, tr[i + 1..j])| <= MAXSEQ
    ensures j < |tr| ==> (FitsArray(c, m, tr[..j + 1]) <==> |Codes(c, tr[i + 1..j])| <= MAXSEQ)
  {
    StartFits(c, m, tr, i);
    CaptureFits(c, m, tr[..i + 1], tr[i + 1..j]);
    assert tr[..j] == tr[..i + 1] + tr[i + 1..j];
    if j < |tr| {
      EndFits(c, m, tr[..j], tr[j]);
      assert tr[..j + 1] == tr[..j] + [tr[j]];
    }
  }

  // A trace without a complete capture.
  lemma {:induction false} LastFits(c: MatcherConfig, m: MatcherContext, tr: seq<Stimulus>, i: nat)
    requires AtRest(m) && i == FindStart(c, m.keysDown, tr, 0)
    requires i == |tr| || FindEnd(c, tr, i + 1) == |tr|
    ensures FitsArray(c, m, tr) <==> FirstLength(c, m.keysDown, tr).presses <= MAXSEQ
  {
    assert tr[..|tr|] == tr;
    if i == |tr| {
      IdleFits(c, m, tr, i);
    } else {
      FirstFits(c, m, tr, i, |tr|);
    }
  }

  // A trace with one: the rest goes on from rest.
  lemma {:induction false} RestFits(c: MatcherConfig, m: MatcherContext, tr: seq<Stimulus>, i: nat, j: nat)
    returns (next: MatcherContext)
    requires AtRest(m) && i == FindStart(c, m.keysDown, tr, 0) && i < |tr|
    requires j == FindEnd(c, tr, i + 1) && j < |tr|
    ensures AtRest(next) && next.keysDown == Down(m.keysDown, tr[..j + 1])
    ensures FitsArray(c, m, tr) <==> |Codes(c, tr[i + 1..j])| <= MAXSEQ && FitsArray(c, next, tr[j + 1..])
  {
    FirstFits(c, m, tr, i, j);
    FirstCapture(c, Machine(m, []), tr, i, j);
    next := Run(c, Machine(m, []), tr[..j + 1]).context;
    FitsConcat(c, m, tr[..j + 1], tr[j + 1..]);
    assert tr == tr[..j + 1] + tr[j + 1..];
  }

  // Fitting, like being short, asks something of the first capture and then the same of the rest.
  lemma {:induction false} NextFits(c: MatcherConfig, m: MatcherContext, tr: seq<Stimulus>, first: Length)
    returns (next: MatcherContext)
    requires AtRest(m) && first == FirstLength(c, m.keysDown, tr)
    ensures AtRest(next)
    ensures FitsArray(c, m, tr) <==> first.presses <= MAXSEQ && FitsArray(c, next, tr[first.next..])
    ensures first.next < |tr| ==> next.keysDown == Down(m.keysDown, tr[..first.next])
  {
    var i := FindStart(c, m.keysDown, tr, 0);
    next := m;
    if i < |tr| && FindEnd(c, tr, i + 1) < |tr| {
      next := RestFits(c, m, tr, i, FindEnd(c, tr, i + 1));
    } else {
      LastFits(c, m, tr, i);
    }
  }

  /** A trace fits the array exactly when each of its captures, found by searching the trace, is short. */
  lemma {:induction false} FitsExactly(c: MatcherConfig, m: MatcherContext, tr: seq<Stimulus>)
    requires AtRest(m)
    ensures FitsArray(c, m, tr) <==> ShortCaptures(c, m.keysDown, tr)
    decreases |tr|
  {
    if tr != [] {
      var first := FirstLength(c, m.keysDown, tr);
      var next := NextFits(c, m, tr, first);
      var rest := tr[first.next..];
      if rest != [] {
        FitsExactly(c, next, rest);
      }
    }
  }

  /** On a real keyboard the two programs agree on a trace, with nothing stored behind the array, if and only
      if none of its captures has more than MAXSEQ keys. */
  lemma {:induction false} AgreeExactly(c: MatcherConfig, tr: seq<Stimulus>)
    requires c.hasTable && WellFormed({}, tr)
    ensures Agree(c, tr) <==> ShortCaptures(c, 0, tr)
  {
    PortAgreesWithLegacy(c, tr);
    FitsExactly(c, INITIAL_CONTEXT, tr);
  }
}
