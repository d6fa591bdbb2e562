/** Whole runs of the hotkey state machine: what it delivers, stated by searching
    the trace instead of by stepping the machine. */
module MatcherTraces {
  import opened SequenceMatching

  datatype Stimulus = Key(event: KeyEvent) | TimerExpired

  function OnStimulus(c: MatcherConfig, s: MatcherContext, i: Stimulus): (MatcherContext, MatcherResult) {
    match i
    case Key(e) => OnKey(c, s, e)
    case TimerExpired => OnTimeout(s)
  }

  // The machine together with the sequences it has delivered so far.
  datatype Machine = Machine(context: MatcherContext, delivered: seq<KeySequence>)

  const START := Machine(INITIAL_CONTEXT, [])

  function Step(c: MatcherConfig, m: Machine, i: Stimulus): Machine {
    var (context, result) := OnStimulus(c, m.context, i);
    Machine(context,
            if result.action == SequenceComplete then m.delivered + [result.sequence] else m.delivered)
  }

  function Run(c: MatcherConfig, m: Machine, tr: seq<Stimulus>): Machine {
    if tr == [] then m else Step(c, Run(c, m, tr[..|tr| - 1]), tr[|tr| - 1])
  }

  lemma {:induction false} RunConcat(c: MatcherConfig, m: Machine, a: seq<Stimulus>, b: seq<Stimulus>)
    ensures Run(c, m, a + b) == Run(c, Run(c, m, a), b)
    decreases |b|
  {
    if b == [] {
      assert a + b == a;
    } else {
      assert (a + b)[..|a + b| - 1] == a + b[..|b| - 1];
      RunConcat(c, m, a, b[..|b| - 1]);
    }
  }

  lemma {:induction false} RunSnoc(c: MatcherConfig, m: Machine, a: seq<Stimulus>, e: Stimulus)
    ensures Run(c, m, a + [e]) == Step(c, Run(c, m, a), e)
  {
    var t := a + [e];
    assert t[..|t| - 1] == a && t[|t| - 1] == e;
  }

  // ---- The batch reading of a trace ----

  predicate IsPress(i: Stimulus) { i.Key? && i.event.kind == Pressed }

  // The number of keys down after a trace: a release with none down is ignored.
  function Down(n: nat, tr: seq<Stimulus>): nat {
    if tr == [] then n
    else
      var m := Down(n, tr[..|tr| - 1]);
      match tr[|tr| - 1]
      case TimerExpired => m
      case Key(e) => if e.kind == Pressed then m + 1 else CountDown(m)
  }

  // The last press before index i was the introducer's, with no other key down.
  ghost predicate ArmedBefore(c: MatcherConfig, n: nat, tr: seq<Stimulus>, i: nat)
    requires i <= |tr|
  {
    exists p :: 0 <= p < i && tr[p] == Key(KeyEvent(c.introducer, Pressed)) && Down(n, tr[..p]) == 0
                && forall q :: p < q < i ==> !IsPress(tr[q])
  }

  // Index i releases the introducer as the only key, and it was pressed as the only key.
  ghost predicate StartsAt(c: MatcherConfig, n: nat, tr: seq<Stimulus>, i: nat)
    requires i < |tr|
  {
    tr[i] == Key(KeyEvent(c.introducer, Released)) && Down(n, tr[..i + 1]) == 0 && ArmedBefore(c, n, tr, i)
  }

  predicate EndsCapture(c: MatcherConfig, i: Stimulus) {
    i == TimerExpired || i == Key(KeyEvent(c.trailer, Pressed))
  }

  ghost function FindStart(c: MatcherConfig, n: nat, tr: seq<Stimulus>, i: nat): (k: nat)
    requires i <= |tr|
    ensures i <= k <= |tr|
    ensures forall j :: i <= j < k ==> !StartsAt(c, n, tr, j)
    ensures k < |tr| ==> StartsAt(c, n, tr, k)
    decreases |tr| - i
  {
    if i == |tr| || StartsAt(c, n, tr, i) then i else FindStart(c, n, tr, i + 1)
  }

  function FindEnd(c: MatcherConfig, tr: seq<Stimulus>, i: nat): (k: nat)
    requires i <= |tr|
    ensures i <= k <= |tr|
    ensures forall j :: i <= j < k ==> !EndsCapture(c, tr[j])
    ensures k < |tr| ==> EndsCapture(c, tr[k])
    decreases |tr| - i
  {
    if i == |tr| || EndsCapture(c, tr[i]) then i else FindEnd(c, tr, i + 1)
  }

  // The substituted codes of the presses of a trace, in order.
  function Codes(c: MatcherConfig, tr: seq<Stimulus>): KeySequence {
    if tr == [] then []
    else
      var i := tr[|tr| - 1];
      Codes(c, tr[..|tr| - 1]) + (if IsPress(i) then [Substitute(c, i.event.code)] else [])
  }

  // One delivery per capture: from its start to the next trailer press or timeout.
  ghost function Batch(c: MatcherConfig, n: nat, tr: seq<Stimulus>): seq<KeySequence>
    decreases |tr|
  {
    var i := FindStart(c, n, tr, 0);
    if i == |tr| then []
    else
      var j := FindEnd(c, tr, i + 1);
      if j == |tr| then []
      else [Codes(c, tr[i + 1..j])] + Batch(c, Down(n, tr[..j + 1]), tr[j + 1..])
  }

  ghost predicate AtRest(s: MatcherContext) {
    s.state == Idle && !s.introducerArmed && s.sequence == []
  }

  lemma {:induction false} IdlePrefix(c: MatcherConfig, m: Machine, tr: seq<Stimulus>, k: nat)
    requires AtRest(m.context) && k <= |tr|
    requires forall j :: 0 <= j < k ==> !StartsAt(c, m.context.keysDown, tr, j)
    ensures Run(c, m, tr[..k]) == m.(context :=
            MatcherContext(Idle, Down(m.context.keysDown, tr[..k]), ArmedBefore(c, m.context.keysDown, tr, k), []))
  {
    if k > 0 {
      IdlePrefix(c, m, tr, k - 1);
      assert tr[..k][..k - 1] == tr[..k - 1];
      ArmedStep(c, m.context.keysDown, tr, k - 1);
      assert !StartsAt(c, m.context.keysDown, tr, k - 1);
    }
  }

  lemma {:induction false} ArmedStep(c: MatcherConfig, n: nat, tr: seq<Stimulus>, k: nat)
    requires k < |tr|
    ensures ArmedBefore(c, n, tr, k + 1) ==
            if IsPress(tr[k]) then tr[k].event.code == c.introducer && Down(n, tr[..k]) == 0
            else ArmedBefore(c, n, tr, k)
  {
    if IsPress(tr[k]) {
      if tr[k].event.code == c.introducer && Down(n, tr[..k]) == 0 {
        assert tr[k] == Key(KeyEvent(c.introducer, Pressed));
      }
    } else if ArmedBefore(c, n, tr, k) {
      var p :| 0 <= p < k && tr[p] == Key(KeyEvent(c.introducer, Pressed)) && Down(n, tr[..p]) == 0
               && forall q :: p < q < k ==> !IsPress(tr[q]);
      assert forall q :: p < q < k + 1 ==> !IsPress(tr[q]);
    }
  }

  ghost predicate NeverEnds(c: MatcherConfig, seg: seq<Stimulus>) {
    forall j :: 0 <= j < |seg| ==> !EndsCapture(c, seg[j])
  }

  lemma {:induction false} CaptureSegment(c: MatcherConfig, m: Machine, seg: seq<Stimulus>)
    requires m.context.state == Capturing && !m.context.introducerArmed && NeverEnds(c, seg)
    ensures Run(c, m, seg) == m.(context :=
            MatcherContext(Capturing, Down(m.context.keysDown, seg), false, m.context.sequence + Codes(c, seg)))
  {
    if seg != [] {
      CaptureSegment(c, m, seg[..|seg| - 1]);
    }
  }

  /** Each appended key reports everything collected so far, and nothing else is reported. */
  lemma {:induction false} AppendedCarriesPrefix(c: MatcherConfig, m: Machine, seg: seq<Stimulus>, k: nat)
    requires m.context.state == Capturing && !m.context.introducerArmed && NeverEnds(c, seg) && k < |seg|
    ensures OnStimulus(c, Run(c, m, seg[..k]).context, seg[k]).1 ==
            if IsPress(seg[k]) then MatcherResult(KeyAppended, m.context.sequence + Codes(c, seg[..k + 1]))
            else NOTHING
  {
    CaptureSegment(c, m, seg[..k]);
    assert seg[..k + 1][..k] == seg[..k];
  }

  // The state when a capture starts at index i.
  lemma {:induction false} CaptureOpens(c: MatcherConfig, m: Machine, tr: seq<Stimulus>, i: nat)
    requires AtRest(m.context) && i < |tr| && StartsAt(c, m.context.keysDown, tr, i)
    requires forall j :: 0 <= j < i ==> !StartsAt(c, m.context.keysDown, tr, j)
    ensures Run(c, m, tr[..i + 1]) == m.(context :=
            MatcherContext(Capturing, Down(m.context.keysDown, tr[..i + 1]), false, []))
  {
    IdlePrefix(c, m, tr, i);
    assert tr[..i + 1][..i] == tr[..i];
  }

  // A trace that opens a capture in part a, then goes on through seg without ending it.
  lemma {:induction false} CaptureGoesOn(c: MatcherConfig, m: Machine, a: seq<Stimulus>, seg: seq<Stimulus>)
    requires Run(c, m, a) == m.(context := MatcherContext(Capturing, Down(m.context.keysDown, a), false, []))
    requires NeverEnds(c, seg)
    ensures Run(c, m, a + seg) == m.(context :=
            MatcherContext(Capturing, Down(m.context.keysDown, a + seg), false, Codes(c, seg)))
  {
    CaptureSegment(c, Run(c, m, a), seg);
    RunConcat(c, m, a, seg);
    DownConcat(m.context.keysDown, a, seg);
  }

  // One whole capture: its last event delivers it and leaves the machine at rest.
  lemma {:induction false} WholeCapture(c: MatcherConfig, m: Machine, a: seq<Stimulus>, seg: seq<Stimulus>,
                                        e: Stimulus)
    requires Run(c, m, a) == m.(context := MatcherContext(Capturing, Down(m.context.keysDown, a), false, []))
    requires NeverEnds(c, seg) && EndsCapture(c, e)
    ensures Run(c, m, a + seg + [e]) ==
            Machine(MatcherContext(Idle, Down(m.context.keysDown, a + seg + [e]), false, []),
                    m.delivered + [Codes(c, seg)])
  {
    CaptureGoesOn(c, m, a, seg);
    RunSnoc(c, m, a + seg, e);
    DownConcat(m.context.keysDown, a + seg, [e]);
  }

  // A trace whose last capture, if any, is still going on delivers nothing.
  lemma {:induction false} NothingDelivered(c: MatcherConfig, m: Machine, tr: seq<Stimulus>, i: nat)
    requires AtRest(m.context) && i == FindStart(c, m.context.keysDown, tr, 0)
    requires i == |tr| || FindEnd(c, tr, i + 1) == |tr|
    ensures Run(c, m, tr).delivered == m.delivered
  {
    if i == |tr| {
      IdlePrefix(c, m, tr, i);
      assert tr[..i] == tr;
    } else {
      CaptureOpens(c, m, tr, i);
      CaptureGoesOn(c, m, tr[..i + 1], tr[i + 1..]);
      assert tr[..i + 1] + tr[i + 1..] == tr;
    }
  }

  // The first complete capture of a trace.
  lemma {:induction false} FirstCapture(c: MatcherConfig, m: Machine, tr: seq<Stimulus>, i: nat, j: nat)
    requires AtRest(m.context) && i == FindStart(c, m.context.keysDown, tr, 0) && i < |tr|
    requires j == FindEnd(c, tr, i + 1) && j < |tr|
    ensures Run(c, m, tr[..j + 1]) ==
            Machine(MatcherContext(Idle, Down(m.context.keysDown, tr[..j + 1]), false, []),
                    m.delivered + [Codes(c, tr[i + 1..j])])
  {
    CaptureOpens(c, m, tr, i);
    WholeCapture(c, m, tr[..i + 1], tr[i + 1..j], tr[j]);
    assert tr[..j + 1] == tr[..i + 1] + tr[i + 1..j] + [tr[j]];
  }

  lemma {:induction false} BatchOfCapture(c: MatcherConfig, n: nat, tr: seq<Stimulus>, i: nat, j: nat,
                                          q: KeySequence, down: nat)
    requires i == FindStart(c, n, tr, 0) && i < |tr| && j == FindEnd(c, tr, i + 1) && j < |tr|
    requires q == Codes(c, tr[i + 1..j]) && down == Down(n, tr[..j + 1])
    ensures Batch(c, n, tr) == [q] + Batch(c, down, tr[j + 1..])
  {}

  lemma {:induction false} BatchOfNothing(c: MatcherConfig, n: nat, tr: seq<Stimulus>, i: nat)
    requires i == FindStart(c, n, tr, 0)
    requires i == |tr| || FindEnd(c, tr, i + 1) == |tr|
    ensures Batch(c, n, tr) == []
  {}

  lemma {:induction false} RunInParts(c: MatcherConfig, m: Machine, tr: seq<Stimulus>, k: nat, mid: Machine)
    requires k <= |tr| && Run(c, m, tr[..k]) == mid
    ensures Run(c, m, tr) == Run(c, mid, tr[k..])
  {
    RunConcat(c, m, tr[..k], tr[k..]);
    assert tr == tr[..k] + tr[k..];
  }

  // After its first capture the run goes on from rest, and so does the batch reading.
  lemma {:induction false} AfterFirstCapture(c: MatcherConfig, m: Machine, tr: seq<Stimulus>, i: nat, j: nat)
    returns (q: KeySequence, next: Machine)
    requires AtRest(m.context) && i == FindStart(c, m.context.keysDown, tr, 0) && i < |tr|
    requires j == FindEnd(c, tr, i + 1) && j < |tr|
    ensures AtRest(next.context) && next.delivered == m.delivered + [q]
    ensures Run(c, m, tr) == Run(c, next, tr[j + 1..])
    ensures Batch(c, m.context.keysDown, tr) == [q] + Batch(c, next.context.keysDown, tr[j + 1..])
  {
    var n := m.context.keysDown;
    q := Codes(c, tr[i + 1..j]);
    next := Machine(MatcherContext(Idle, Down(n, tr[..j + 1]), false, []), m.delivered + [q]);
    FirstCapture(c, m, tr, i, j);
    RunInParts(c, m, tr, j + 1, next);
    BatchOfCapture(c, n, tr, i, j, q, next.context.keysDown);
  }

  // Either nothing more is delivered, or one capture q and then what the rest delivers.
  lemma {:induction false} NextCapture(c: MatcherConfig, m: Machine, tr: seq<Stimulus>)
    returns (complete: bool, q: KeySequence, next: Machine, rest: seq<Stimulus>)
    requires AtRest(m.context)
    ensures !complete ==> Run(c, m, tr).delivered == m.delivered && Batch(c, m.context.keysDown, tr) == []
    ensures complete ==>
              && |rest| < |tr| && AtRest(next.context) && next.delivered == m.delivered + [q]
              && Run(c, m, tr) == Run(c, next, rest)
              && Batch(c, m.context.keysDown, tr) == [q] + Batch(c, next.context.keysDown, rest)
  {
    var i := FindStart(c, m.context.keysDown, tr, 0);
    complete := i < |tr| && FindEnd(c, tr, i + 1) < |tr|;
    q, next, rest := [], m, [];
    if complete {
      var j := FindEnd(c, tr, i + 1);
      rest := tr[j + 1..];
      q, next := AfterFirstCapture(c, m, tr, i, j);
    } else {
      NothingDelivered(c, m, tr, i);
      BatchOfNothing(c, m.context.keysDown, tr, i);
    }
  }

  lemma {:induction false} Regrouped(a: seq<KeySequence>, q: KeySequence, b: seq<KeySequence>)
    ensures (a + [q]) + b == a + ([q] + b)
  {}

  // What is delivered, and the batch reading, each continue behind the first capture.
  lemma {:induction false} BatchGoesOn(delivered: seq<KeySequence>, batch: seq<KeySequence>,
                                       before: seq<KeySequence>, q: KeySequence, rest: seq<KeySequence>)
    requires delivered == (before + [q]) + rest && batch == [q] + rest
    ensures delivered == before + batch
  {
    Regrouped(before, q, rest);
  }

  /** Over every trace, well formed or not, the machine delivers exactly the batch reading. */
  lemma {:induction false} DeliveredIsBatch(c: MatcherConfig, m: Machine, tr: seq<Stimulus>)
    requires AtRest(m.context)
    ensures Run(c, m, tr).delivered == m.delivered + Batch(c, m.context.keysDown, tr)
    decreases |tr|
  {
    var complete, q, next, rest := NextCapture(c, m, tr);
    var batch := Batch(c, m.context.keysDown, tr);
    if complete {
      DeliveredIsBatch(c, next, rest);
      BatchGoesOn(Run(c, m, tr).delivered, batch, m.delivered, q, Batch(c, next.context.keysDown, rest));
    } else {
      assert m.delivered + batch == m.delivered;
    }
  }

  lemma {:induction false} DownConcat(n: nat, a: seq<Stimulus>, b: seq<Stimulus>)
    ensures Down(n, a + b) == Down(Down(n, a), b)
    decreases |b|
  {
    if b == [] {
      assert a + b == a;
    } else {
      assert (a + b)[..|a + b| - 1] == a + b[..|b| - 1];
      DownConcat(n, a, b[..|b| - 1]);
    }
  }
}
