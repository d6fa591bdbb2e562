/** Runs of the daemon between reloads, read off its inputs: keys and timer checks with their times. */
module TimedRuns {
  import opened Integers
  import opened SequenceMatching
  import opened MatcherTraces
  import opened Applications
  import opened ApplicationRuns
  import Execution

  function StimulusOf(i: AppInput): Stimulus
    requires !i.Reload?
  {
    if i.KeyInput? then Key(i.event) else TimerExpired
  }

  // The inputs one by one; a timer check that does not expire does what a timeout does to an idle matcher: nothing.
  function Trace(inputs: seq<AppInput>): (tr: seq<Stimulus>)
    requires NoReload(inputs)
    ensures |tr| == |inputs| && forall k :: 0 <= k < |tr| ==> tr[k] == StimulusOf(inputs[k])
  {
    if inputs == [] then [] else Trace(inputs[..|inputs| - 1]) + [StimulusOf(inputs[|inputs| - 1])]
  }

  // The same, said of any such trace.
  predicate Mirrors(inputs: seq<AppInput>, tr: seq<Stimulus>)
    requires NoReload(inputs)
  {
    |tr| == |inputs| && forall k :: 0 <= k < |tr| ==> tr[k] == StimulusOf(inputs[k])
  }

  // ---- The matcher with its clock ----

  datatype Clocked = Clocked(machine: Machine, last: nat)

  predicate Accepted(c: MatcherConfig, s: MatcherContext, e: KeyEvent) {
    OnKey(c, s, e).1.action in {StartCapture, KeyAppended}
  }

  function ClockedStep(c: MatcherConfig, hot: uint32, s: Clocked, i: AppInput): Clocked
    requires !i.Reload?
  {
    match i
    case KeyInput(e, now, _) =>
      Clocked(Step(c, s.machine, Key(e)), if Accepted(c, s.machine.context, e) then now else s.last)
    case TimerCheck(now, _) =>
      if s.machine.context.state == Capturing && Elapsed(now, s.last) >= hot
      then Clocked(Step(c, s.machine, TimerExpired), s.last) else s
  }

  // The machine after the first k inputs.
  function ClockedRun(c: MatcherConfig, hot: uint32, s: Clocked, inputs: seq<AppInput>, k: nat): Clocked
    requires NoReload(inputs) && k <= |inputs|
  {
    if k == 0 then s else ClockedStep(c, hot, ClockedRun(c, hot, s, inputs, k - 1), inputs[k - 1])
  }

  // Going on from position k.
  lemma {:induction false} ClockedInParts(c: MatcherConfig, hot: uint32, s: Clocked, inputs: seq<AppInput>,
                                          k: nat, mid: Clocked, more: nat)
    requires NoReload(inputs) && k + more <= |inputs| && ClockedRun(c, hot, s, inputs, k) == mid
    ensures ClockedRun(c, hot, s, inputs, k + more) == ClockedRun(c, hot, mid, inputs[k..], more)
  {
    if more > 0 {
      ClockedInParts(c, hot, s, inputs, k, mid, more - 1);
    }
  }

  // ---- The batch reading of the inputs ----

  // The time of the last press behind the start of a capture and before k, or else of the start.
  function LastTime(inputs: seq<AppInput>, start: nat, k: nat): nat
    requires NoReload(inputs) && start < k <= |inputs|
  {
    if k == start + 1 || (inputs[k - 1].KeyInput? && inputs[k - 1].event.kind == Pressed) then inputs[k - 1].now
    else LastTime(inputs, start, k - 1)
  }

  // Index k ends a capture: the trailer is pressed, or a timer check comes an interval or more after LastTime.
  predicate EndsAt(c: MatcherConfig, hot: uint32, inputs: seq<AppInput>, start: nat, k: nat)
    requires NoReload(inputs) && start < k < |inputs|
  {
    match inputs[k]
    case KeyInput(e, _, _) => e == KeyEvent(c.trailer, Pressed)
    case TimerCheck(now, _) => Elapsed(now, LastTime(inputs, start, k)) >= hot
  }

  function FindTimedEnd(c: MatcherConfig, hot: uint32, inputs: seq<AppInput>, start: nat, from: nat): (k: nat)
    requires NoReload(inputs) && start < from <= |inputs|
    ensures from <= k <= |inputs|
    ensures forall j :: from <= j < k ==> !EndsAt(c, hot, inputs, start, j)
    ensures k < |inputs| ==> EndsAt(c, hot, inputs, start, k)
    decreases |inputs| - from
  {
    if from == |inputs| || EndsAt(c, hot, inputs, start, from) then from
    else FindTimedEnd(c, hot, inputs, start, from + 1)
  }

  // The first complete capture: the codes of the presses between its start and its end, the keys then down,
  // and where the inputs go on.
  datatype Capture = NoCapture | Capture(codes: KeySequence, down: nat, next: nat)

  ghost function FirstCaptureOf(c: MatcherConfig, hot: uint32, n: nat, inputs: seq<AppInput>): (r: Capture)
    requires NoReload(inputs)
    ensures r.Capture? ==> 0 < r.next <= |inputs|
  {
    var tr := Trace(inputs);
    var i := FindStart(c, n, tr, 0);
    if i == |inputs| then NoCapture
    else
      var j := FindTimedEnd(c, hot, inputs, i, i + 1);
      if j == |inputs| then NoCapture else Capture(Codes(c, tr[i + 1..j]), Down(n, tr[..j + 1]), j + 1)
  }

  // One delivery per capture.
  ghost function TimedBatch(c: MatcherConfig, hot: uint32, n: nat, inputs: seq<AppInput>): seq<KeySequence>
    requires NoReload(inputs)
    decreases |inputs|
  {
    match FirstCaptureOf(c, hot, n, inputs)
    case NoCapture => []
    case Capture(q, down, next) => [q] + TimedBatch(c, hot, down, inputs[next..])
  }

  // ---- The machine delivers the batch reading ----

  lemma {:induction false} ClockedIdle(c: MatcherConfig, hot: uint32, s: Clocked, inputs: seq<AppInput>,
                                       tr: seq<Stimulus>, k: nat)
    requires NoReload(inputs) && Mirrors(inputs, tr) && AtRest(s.machine.context) && k <= |inputs|
    requires forall j :: 0 <= j < k ==> !StartsAt(c, s.machine.context.keysDown, tr, j)
    ensures ClockedRun(c, hot, s, inputs, k).machine == Run(c, s.machine, tr[..k])
  {
    if k > 0 {
      ClockedIdle(c, hot, s, inputs, tr, k - 1);
      IdlePrefix(c, s.machine, tr, k - 1);
      IdleStep(c, hot, ClockedRun(c, hot, s, inputs, k - 1), inputs[k - 1]);
      RunSnoc(c, s.machine, tr[..k - 1], tr[k - 1]);
      assert tr[..k - 1] + [tr[k - 1]] == tr[..k];
    }
  }

  lemma {:induction false} IdleStep(c: MatcherConfig, hot: uint32, s: Clocked, i: AppInput)
    requires !i.Reload? && s.machine.context.state == Idle
    ensures ClockedStep(c, hot, s, i).machine == Step(c, s.machine, StimulusOf(i))
  {}

  lemma {:induction false} ClockedOpens(c: MatcherConfig, hot: uint32, s: Clocked, inputs: seq<AppInput>,
                                        tr: seq<Stimulus>, i: nat)
    requires NoReload(inputs) && Mirrors(inputs, tr) && AtRest(s.machine.context)
    requires i == FindStart(c, s.machine.context.keysDown, tr, 0) && i < |inputs|
    ensures inputs[i].KeyInput?
    ensures ClockedRun(c, hot, s, inputs, i + 1) ==
            Clocked(s.machine.(context :=
                      MatcherContext(Capturing, Down(s.machine.context.keysDown, tr[..i + 1]), false, [])),
                    inputs[i].now)
  {
    ClockedIdle(c, hot, s, inputs, tr, i);
    CaptureOpens(c, s.machine, tr, i);
    StartIsAccepted(c, s.machine, tr, i);
    StepOfStart(c, hot, ClockedRun(c, hot, s, inputs, i), inputs[i]);
    RunSnoc(c, s.machine, tr[..i], tr[i]);
    assert tr[..i] + [tr[i]] == tr[..i + 1];
  }

  lemma {:induction false} StepOfStart(c: MatcherConfig, hot: uint32, s: Clocked, i: AppInput)
    requires i.KeyInput? && Accepted(c, s.machine.context, i.event)
    ensures ClockedStep(c, hot, s, i) == Clocked(Step(c, s.machine, StimulusOf(i)), i.now)
  {}

  lemma {:induction false} StartIsAccepted(c: MatcherConfig, m: Machine, tr: seq<Stimulus>, i: nat)
    requires AtRest(m.context) && i < |tr| && StartsAt(c, m.context.keysDown, tr, i)
    requires forall j :: 0 <= j < i ==> !StartsAt(c, m.context.keysDown, tr, j)
    ensures tr[i].Key? && Accepted(c, Run(c, m, tr[..i]).context, tr[i].event)
  {
    IdlePrefix(c, m, tr, i);
    assert tr[..i + 1][..i] == tr[..i];
  }

  // One more input of a capture that does not end it.
  lemma {:induction false} ClockedGoesOn(c: MatcherConfig, hot: uint32, s: Clocked, i: AppInput)
    requires !i.Reload? && s.machine.context.state == Capturing && !s.machine.context.introducerArmed
    requires match i
             case KeyInput(e, _, _) => e != KeyEvent(c.trailer, Pressed)
             case TimerCheck(now, _) => Elapsed(now, s.last) < hot
    ensures var press := i.KeyInput? && i.event.kind == Pressed;
            ClockedStep(c, hot, s, i) ==
            Clocked(s.machine.(context := MatcherContext(
                      Capturing, Down(s.machine.context.keysDown, [StimulusOf(i)]), false,
                      s.machine.context.sequence + Codes(c, [StimulusOf(i)]))),
                    if press then i.now else s.last)
  {
    assert [StimulusOf(i)][..0] == [];
  }

  lemma {:induction false} CodesSnoc(c: MatcherConfig, n: nat, tr: seq<Stimulus>, from: nat, k: nat)
    requires from <= k < |tr|
    ensures Codes(c, tr[from..k + 1]) == Codes(c, tr[from..k]) + Codes(c, [tr[k]])
    ensures Down(n, tr[..k + 1]) == Down(Down(n, tr[..k]), [tr[k]])
  {
    assert tr[from..k + 1][..k - from] == tr[from..k] && tr[from..k + 1][k - from] == tr[k];
    assert tr[..k + 1][..k] == tr[..k];
    assert [tr[k]][..0] == [];
  }

  // What the machine holds when the inputs before k have started a capture and not ended it.
  ghost predicate InCapture(c: MatcherConfig, s: Clocked, inputs: seq<AppInput>, tr: seq<Stimulus>,
                            start: nat, k: nat, now: Clocked)
    requires NoReload(inputs) && |tr| == |inputs| && start < k <= |inputs|
  {
    now == Clocked(s.machine.(context := MatcherContext(Capturing, Down(s.machine.context.keysDown, tr[..k]), false,
                                                        Codes(c, tr[start + 1..k]))),
                   LastTime(inputs, start, k))
  }

  lemma {:induction false} StillInCapture(c: MatcherConfig, hot: uint32, s: Clocked, inputs: seq<AppInput>,
                                          tr: seq<Stimulus>, start: nat, k: nat, now: Clocked)
    requires NoReload(inputs) && Mirrors(inputs, tr) && start < k < |inputs|
    requires InCapture(c, s, inputs, tr, start, k, now) && !EndsAt(c, hot, inputs, start, k)
    ensures InCapture(c, s, inputs, tr, start, k + 1, ClockedStep(c, hot, now, inputs[k]))
  {
    ClockedGoesOn(c, hot, now, inputs[k]);
    CodesSnoc(c, s.machine.context.keysDown, tr, start + 1, k);
  }

  lemma {:induction false} ClockedSegment(c: MatcherConfig, hot: uint32, s: Clocked, inputs: seq<AppInput>,
                                          tr: seq<Stimulus>, start: nat, k: nat)
    requires NoReload(inputs) && Mirrors(inputs, tr) && AtRest(s.machine.context) && start < k <= |inputs|
    requires start == FindStart(c, s.machine.context.keysDown, tr, 0)
    requires forall j :: start < j < k ==> !EndsAt(c, hot, inputs, start, j)
    ensures InCapture(c, s, inputs, tr, start, k, ClockedRun(c, hot, s, inputs, k))
  {
    if k == start + 1 {
      ClockedOpens(c, hot, s, inputs, tr, start);
      assert tr[start + 1..k] == [];
    } else {
      ClockedSegment(c, hot, s, inputs, tr, start, k - 1);
      StillInCapture(c, hot, s, inputs, tr, start, k - 1, ClockedRun(c, hot, s, inputs, k - 1));
    }
  }

  lemma {:induction false} ClockedEnds(c: MatcherConfig, hot: uint32, s: Clocked, i: AppInput)
    requires !i.Reload? && s.machine.context.state == Capturing && !s.machine.context.introducerArmed
    requires match i
             case KeyInput(e, _, _) => e == KeyEvent(c.trailer, Pressed)
             case TimerCheck(now, _) => Elapsed(now, s.last) >= hot
    ensures ClockedStep(c, hot, s, i) ==
            Clocked(Machine(MatcherContext(Idle, Down(s.machine.context.keysDown, [StimulusOf(i)]), false, []),
                            s.machine.delivered + [s.machine.context.sequence]),
                    s.last)
  {
    assert [StimulusOf(i)][..0] == [];
  }

  lemma {:induction false} CaptureEnds(c: MatcherConfig, hot: uint32, s: Clocked, inputs: seq<AppInput>,
                                       tr: seq<Stimulus>, i: nat, j: nat, now: Clocked)
    requires NoReload(inputs) && Mirrors(inputs, tr) && i < j < |inputs|
    requires InCapture(c, s, inputs, tr, i, j, now) && EndsAt(c, hot, inputs, i, j)
    ensures ClockedStep(c, hot, now, inputs[j]).machine ==
            Machine(MatcherContext(Idle, Down(s.machine.context.keysDown, tr[..j + 1]), false, []),
                    s.machine.delivered + [Codes(c, tr[i + 1..j])])
  {
    ClockedEnds(c, hot, now, inputs[j]);
    CodesSnoc(c, s.machine.context.keysDown, tr, i + 1, j);
  }

  // The machine behind the first complete capture of the inputs.
  lemma {:induction false} FirstTimedCapture(c: MatcherConfig, hot: uint32, s: Clocked, inputs: seq<AppInput>,
                                             tr: seq<Stimulus>, i: nat, j: nat)
    requires NoReload(inputs) && Mirrors(inputs, tr) && AtRest(s.machine.context)
    requires i == FindStart(c, s.machine.context.keysDown, tr, 0) && i < |inputs|
    requires j == FindTimedEnd(c, hot, inputs, i, i + 1) && j < |inputs|
    ensures ClockedRun(c, hot, s, inputs, j + 1).machine ==
            Machine(MatcherContext(Idle, Down(s.machine.context.keysDown, tr[..j + 1]), false, []),
                    s.machine.delivered + [Codes(c, tr[i + 1..j])])
  {
    ClockedSegment(c, hot, s, inputs, tr, i, j);
    CaptureEnds(c, hot, s, inputs, tr, i, j, ClockedRun(c, hot, s, inputs, j));
  }

  lemma {:induction false} NoTimedCapture(c: MatcherConfig, hot: uint32, s: Clocked, inputs: seq<AppInput>,
                                          tr: seq<Stimulus>, i: nat)
    requires NoReload(inputs) && Mirrors(inputs, tr) && AtRest(s.machine.context)
    requires i == FindStart(c, s.machine.context.keysDown, tr, 0)
    requires i == |inputs| || FindTimedEnd(c, hot, inputs, i, i + 1) == |inputs|
    ensures ClockedRun(c, hot, s, inputs, |inputs|).machine.delivered == s.machine.delivered
  {
    if i == |inputs| {
      ClockedIdle(c, hot, s, inputs, tr, i);
      IdlePrefix(c, s.machine, tr, i);
    } else {
      ClockedSegment(c, hot, s, inputs, tr, i, |inputs|);
    }
  }

  // What the search found, in its own terms.
  ghost predicate Finds(c: MatcherConfig, hot: uint32, n: nat, inputs: seq<AppInput>, tr: seq<Stimulus>,
                        i: nat, j: nat, found: Capture)
    requires NoReload(inputs) && |tr| == |inputs|
  {
    && i == FindStart(c, n, tr, 0)
    && (i < |inputs| ==> j == FindTimedEnd(c, hot, inputs, i, i + 1))
    && (found.NoCapture? ==> i == |inputs| || j == |inputs|)
    && (found.Capture? ==>
          i < j < |inputs| && found == Capture(Codes(c, tr[i + 1..j]), Down(n, tr[..j + 1]), j + 1))
  }

  lemma {:induction false} SearchFinds(c: MatcherConfig, hot: uint32, n: nat, inputs: seq<AppInput>,
                                       tr: seq<Stimulus>) returns (i: nat, j: nat)
    requires NoReload(inputs) && tr == Trace(inputs)
    ensures Finds(c, hot, n, inputs, tr, i, j, FirstCaptureOf(c, hot, n, inputs))
  {
    i := FindStart(c, n, tr, 0);
    j := if i < |inputs| then FindTimedEnd(c, hot, inputs, i, i + 1) else i;
  }

  // How the machine goes on from position k, where its machine is m.
  lemma {:induction false} GoesOn(c: MatcherConfig, hot: uint32, s: Clocked, inputs: seq<AppInput>, k: nat, m: Machine)
    returns (next: Clocked)
    requires NoReload(inputs) && k <= |inputs| && ClockedRun(c, hot, s, inputs, k).machine == m
    ensures next.machine == m
    ensures ClockedRun(c, hot, s, inputs, |inputs|) == ClockedRun(c, hot, next, inputs[k..], |inputs| - k)
  {
    next := ClockedRun(c, hot, s, inputs, k);
    ClockedInParts(c, hot, s, inputs, k, next, |inputs| - k);
  }

  // What the machine has delivered behind the first capture that the search finds, if it finds one, and how it
  // goes on from there.
  lemma {:induction false} FoundCapture(c: MatcherConfig, hot: uint32, s: Clocked, inputs: seq<AppInput>,
                                        tr: seq<Stimulus>, i: nat, j: nat, found: Capture) returns (next: Clocked)
    requires NoReload(inputs) && Mirrors(inputs, tr) && AtRest(s.machine.context)
    requires Finds(c, hot, s.machine.context.keysDown, inputs, tr, i, j, found)
    ensures found.NoCapture? ==> ClockedRun(c, hot, s, inputs, |inputs|).machine.delivered == s.machine.delivered
    ensures found.Capture? ==>
              0 < found.next <= |inputs|
              && next.machine == Machine(MatcherContext(Idle, found.down, false, []),
                                         s.machine.delivered + [found.codes])
              && ClockedRun(c, hot, s, inputs, |inputs|) ==
                 ClockedRun(c, hot, next, inputs[found.next..], |inputs| - found.next)
  {
    next := s;
    if found.Capture? {
      FirstTimedCapture(c, hot, s, inputs, tr, i, j);
      next := GoesOn(c, hot, s, inputs, found.next, ClockedRun(c, hot, s, inputs, found.next).machine);
    } else {
      NoTimedCapture(c, hot, s, inputs, tr, i);
    }
  }

  // The batch reading in terms of the capture found.
  lemma {:induction false} TimedBatchStep(c: MatcherConfig, hot: uint32, n: nat, inputs: seq<AppInput>, found: Capture)
    requires NoReload(inputs) && found == FirstCaptureOf(c, hot, n, inputs)
    ensures found.NoCapture? ==> TimedBatch(c, hot, n, inputs) == []
    ensures found.Capture? ==>
              TimedBatch(c, hot, n, inputs) == [found.codes] + TimedBatch(c, hot, found.down, inputs[found.next..])
  {}

  // The machine's run, up to the first capture.
  lemma {:induction false} NextTimedCapture(c: MatcherConfig, hot: uint32, s: Clocked, inputs: seq<AppInput>,
                                            found: Capture) returns (next: Clocked)
    requires NoReload(inputs) && AtRest(s.machine.context)
    requires found == FirstCaptureOf(c, hot, s.machine.context.keysDown, inputs)
    ensures found.NoCapture? ==> ClockedRun(c, hot, s, inputs, |inputs|).machine.delivered == s.machine.delivered
    ensures found.Capture? ==>
              0 < found.next <= |inputs|
              && next.machine == Machine(MatcherContext(Idle, found.down, false, []),
                                         s.machine.delivered + [found.codes])
              && ClockedRun(c, hot, s, inputs, |inputs|) ==
                 ClockedRun(c, hot, next, inputs[found.next..], |inputs| - found.next)
  {
    var i, j := SearchFinds(c, hot, s.machine.context.keysDown, inputs, Trace(inputs));
    next := FoundCapture(c, hot, s, inputs, Trace(inputs), i, j, found);
  }

  /** Over all inputs without a reload the machine delivers exactly the batch reading. */
  lemma {:induction false} DeliveredIsTimedBatch(c: MatcherConfig, hot: uint32, s: Clocked, inputs: seq<AppInput>)
    requires NoReload(inputs) && AtRest(s.machine.context)
    ensures ClockedRun(c, hot, s, inputs, |inputs|).machine.delivered ==
            s.machine.delivered + TimedBatch(c, hot, s.machine.context.keysDown, inputs)
    decreases |inputs|
  {
    var found := FirstCaptureOf(c, hot, s.machine.context.keysDown, inputs);
    var next := NextTimedCapture(c, hot, s, inputs, found);
    var batch := TimedBatch(c, hot, s.machine.context.keysDown, inputs);
    TimedBatchStep(c, hot, s.machine.context.keysDown, inputs, found);
    if found.Capture? {
      var rest := inputs[found.next..];
      DeliveredIsTimedBatch(c, hot, next, rest);
      BatchGoesOn(ClockedRun(c, hot, s, inputs, |inputs|).machine.delivered, batch, s.machine.delivered, found.codes,
                  TimedBatch(c, hot, found.down, rest));
    } else {
      assert s.machine.delivered + batch == s.machine.delivered;
    }
  }

  // ---- The daemon runs this machine ----

  // The daemon's clock, matcher and interval are those of the machine.
  ghost predicate Follows(t: AppState, r: Clocked) {
    t.matcher == r.machine.context && t.lastKeyTime == r.last
  }

  lemma {:induction false} FollowsStep(env: Execution.Environment, base: seq<bv8>, s: AppState, r: Clocked, i: AppInput)
    requires Invariant(env, base, s) && Follows(s, r) && !i.Reload?
    ensures var t := Stepped(env, s, i);
            Follows(t, ClockedStep(s.config, s.hotInterval, r, i)) && t.hotInterval == s.hotInterval
    ensures ClockedStep(s.config, s.hotInterval, r, i).machine == Run(s.config, r.machine, Seen(s, i))
  {
    MatcherAfter(env, s, i);
    if Seen(s, i) != [] {
      RunOne(s.config, r.machine, Seen(s, i)[0]);
      assert Seen(s, i) == [Seen(s, i)[0]];
    }
  }

  lemma {:induction false} RunFollows(env: Execution.Environment, base: seq<bv8>, s: AppState, inputs: seq<AppInput>,
                                      k: nat)
    requires Invariant(env, base, s) && NoReload(inputs) && k <= |inputs|
    ensures var t := RunApp(env, s, inputs[..k]);
            var r := ClockedRun(s.config, s.hotInterval, Clocked(Machine(s.matcher, []), s.lastKeyTime), inputs, k);
            && Follows(t, r) && t.hotInterval == s.hotInterval
            && r.machine == Run(s.config, Machine(s.matcher, []), SeenBy(env, s, inputs[..k]))
  {
    if k > 0 {
      var before, i := inputs[..k - 1], inputs[k - 1];
      assert inputs[..k][..k - 1] == before;
      RunFollows(env, base, s, inputs, k - 1);
      RunKeepsInvariant(env, base, s, before);
      RunDispatches(env, base, s, before);
      var mid := RunApp(env, s, before);
      var r := ClockedRun(s.config, s.hotInterval, Clocked(Machine(s.matcher, []), s.lastKeyTime), inputs, k - 1);
      FollowsStep(env, base, mid, r, i);
      RunConcat(s.config, Machine(s.matcher, []), SeenBy(env, s, before), Seen(mid, i));
    }
  }

  /** From inputs to commands: from a state at rest until the next reload, the commands run are those bound to
      the sequences of a search of the inputs, which decides expiry by the time of the last press found. */
  lemma {:induction false} CommandsFromInputs(env: Execution.Environment, base: seq<bv8>, s: AppState,
                                              inputs: seq<AppInput>)
    requires Invariant(env, base, s) && AtRest(s.matcher) && NoReload(inputs)
    ensures RunApp(env, s, inputs).world.ran ==
            s.world.ran +
            CommandsForAll(s.bindings, TimedBatch(s.config, s.hotInterval, s.matcher.keysDown, inputs))
  {
    var r := Clocked(Machine(s.matcher, []), s.lastKeyTime);
    RunDispatches(env, base, s, inputs);
    RunFollows(env, base, s, inputs, |inputs|);
    assert inputs[..|inputs|] == inputs;
    DeliveredIsTimedBatch(s.config, s.hotInterval, r, inputs);
    var batch := TimedBatch(s.config, s.hotInterval, s.matcher.keysDown, inputs);
    assert [] + batch == batch;
  }
}
