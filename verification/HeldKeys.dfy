/** The machine against a keyboard: only an up key can be pressed and only a down
    key released. */
module HeldKeys {
  import opened Keys
  import opened SequenceMatching
  import opened MatcherTraces

  ghost function HeldAfter(h: set<RawKeyCode>, i: Stimulus): set<RawKeyCode> {
    if i.TimerExpired? then h
    else if i.event.kind == Pressed then h + {i.event.code}
    else h - {i.event.code}
  }

  ghost predicate Possible(h: set<RawKeyCode>, i: Stimulus) {
    i.Key? ==> (i.event.kind == Pressed <==> i.event.code !in h)
  }

  ghost function Held(h: set<RawKeyCode>, tr: seq<Stimulus>): set<RawKeyCode> {
    if tr == [] then h else HeldAfter(Held(h, tr[..|tr| - 1]), tr[|tr| - 1])
  }

  ghost predicate WellFormed(h: set<RawKeyCode>, tr: seq<Stimulus>) {
    tr == [] || (WellFormed(h, tr[..|tr| - 1]) && Possible(Held(h, tr[..|tr| - 1]), tr[|tr| - 1]))
  }

  // What one event does to the number of held keys, and to the counter.
  lemma {:induction false} SizeAfter(h: set<RawKeyCode>, i: Stimulus)
    requires Possible(h, i)
    ensures |HeldAfter(h, i)| ==
            if i.TimerExpired? then |h| else if i.event.kind == Pressed then |h| + 1 else |h| - 1
  {
    if i.Key? && i.event.kind == Released {
      assert h == (h - {i.event.code}) + {i.event.code};
    }
  }

  lemma {:induction false} CountAfter(c: MatcherConfig, m: Machine, i: Stimulus)
    ensures Step(c, m, i).context.keysDown ==
            if i.TimerExpired? then m.context.keysDown
            else if i.event.kind == Pressed then m.context.keysDown + 1 else CountDown(m.context.keysDown)
  {}

  /** The key counter counts the held keys. */
  lemma {:induction false} KeysDownCountsHeld(c: MatcherConfig, tr: seq<Stimulus>)
    requires WellFormed({}, tr)
    ensures Run(c, START, tr).context.keysDown == |Held({}, tr)|
  {
    if tr != [] {
      var before, i := tr[..|tr| - 1], tr[|tr| - 1];
      KeysDownCountsHeld(c, before);
      SizeAfter(Held({}, before), i);
      CountAfter(c, Run(c, START, before), i);
    }
  }

  /** A machine that starts late, as after a reload, never counts more keys than are held. */
  lemma {:induction false} KeysDownBounded(c: MatcherConfig, m: Machine, h: set<RawKeyCode>, tr: seq<Stimulus>)
    requires WellFormed(h, tr) && m.context.keysDown <= |h|
    ensures Run(c, m, tr).context.keysDown <= |Held(h, tr)|
  {
    if tr != [] {
      var before, i := tr[..|tr| - 1], tr[|tr| - 1];
      KeysDownBounded(c, m, h, before);
      SizeAfter(Held(h, before), i);
      CountAfter(c, Run(c, m, before), i);
    }
  }

  // Index p presses the introducer while no other key is held and no capture is on.
  ghost predicate PressedAlone(c: MatcherConfig, tr: seq<Stimulus>, p: nat)
    requires p < |tr|
  {
    tr[p] == Key(KeyEvent(c.introducer, Pressed)) && Held({}, tr[..p]) == {}
    && Run(c, START, tr[..p]).context.state == Idle
  }

  // The last key event of the trace is such a press.
  ghost predicate EndsPressedAlone(c: MatcherConfig, tr: seq<Stimulus>) {
    exists p :: 0 <= p < |tr| && PressedAlone(c, tr, p) && forall q :: p < q < |tr| ==> tr[q] == TimerExpired
  }

  lemma {:induction false} EndsPressedAloneStep(c: MatcherConfig, tr: seq<Stimulus>)
    requires tr != []
    ensures EndsPressedAlone(c, tr) ==
            if tr[|tr| - 1].TimerExpired? then EndsPressedAlone(c, tr[..|tr| - 1])
            else PressedAlone(c, tr, |tr| - 1)
  {
    var n := |tr| - 1;
    var before := tr[..n];
    if EndsPressedAlone(c, tr) {
      var p :| 0 <= p < |tr| && PressedAlone(c, tr, p) && forall q :: p < q < |tr| ==> tr[q] == TimerExpired;
      if p < n {
        assert before[..p] == tr[..p];
        assert PressedAlone(c, before, p);
      }
    }
    if tr[n].TimerExpired? && EndsPressedAlone(c, before) {
      var p :| 0 <= p < n && PressedAlone(c, before, p) && forall q :: p < q < n ==> before[q] == TimerExpired;
      assert before[..p] == tr[..p];
      assert PressedAlone(c, tr, p);
    }
  }

  /** Armed means: the last key event pressed the introducer, alone, in Idle; it is then the one key held. */
  lemma {:induction false} ArmedExactly(c: MatcherConfig, tr: seq<Stimulus>)
    requires WellFormed({}, tr)
    ensures Run(c, START, tr).context.introducerArmed <==> EndsPressedAlone(c, tr)
    ensures EndsPressedAlone(c, tr) ==> Held({}, tr) == {c.introducer} && Run(c, START, tr).context.state == Idle
  {
    if tr != [] {
      ArmedExactly(c, tr[..|tr| - 1]);
      EndsPressedAloneStep(c, tr);
      KeysDownCountsHeld(c, tr[..|tr| - 1]);
    }
  }

  /** A capture starts exactly when the introducer is released and the key event before that
      pressed it, alone, in Idle. */
  lemma {:induction false} CaptureStartsExactly(c: MatcherConfig, tr: seq<Stimulus>, i: Stimulus)
    requires WellFormed({}, tr) && Possible(Held({}, tr), i)
    ensures OnStimulus(c, Run(c, START, tr).context, i).1.action == StartCapture <==>
            i == Key(KeyEvent(c.introducer, Released)) && EndsPressedAlone(c, tr)
  {
    ArmedExactly(c, tr);
    KeysDownCountsHeld(c, tr);
  }
}

/** Which sequences some run of the machine can deliver. */
module Deliverable {
  import opened Keys
  import opened SequenceMatching
  import opened MatcherTraces
  import opened HeldKeys

  // Some key other than the trailer reports this code.
  ghost predicate Typeable(c: MatcherConfig, code: RawKeyCode) {
    exists raw: RawKeyCode :: raw != c.trailer && Substitute(c, raw) == code
  }

  ghost predicate AllTypeable(c: MatcherConfig, q: KeySequence) {
    forall k :: 0 <= k < |q| ==> Typeable(c, q[k])
  }

  // The same, decided by looking at the code and the trailer alone.
  predicate Reachable(c: MatcherConfig, code: RawKeyCode) {
    code !in K3_ONLY && (code == c.trailer ==> code in K3_TARGETS)
  }

  lemma {:induction false} TypeableExactly(c: MatcherConfig, code: RawKeyCode)
    requires c.hasTable
    ensures Typeable(c, code) <==> Reachable(c, code)
  {
    if code !in K3_ONLY {
      if code != c.trailer {
        assert Substitute(c, code) == code;
      } else if code in K3_TARGETS {
        assert Substitute(c, K3KEY_AA) == KPKEY_AA;
        assert Substitute(c, K3KEY_SYM) == KPKEY_SYM;
        assert Substitute(c, K3KEY_HOME) == KPKEY_HOME;
        assert Substitute(c, K3KEY_BACK) == KPKEY_BACK;
        assert Substitute(c, K3KEY_PGFWD) == KPKEY_PGFWD;
        assert Substitute(c, K3KEY_LPGBCK) == KPKEY_PGBCK;
        assert Substitute(c, K3KEY_FW_UP) == KPKEY_FW_UP;
        assert Substitute(c, K3KEY_FW_DOWN) == KPKEY_FW_DOWN;
        assert Substitute(c, K3KEY_FW_PRESS) == KPKEY_FW_PRESS;
      }
    }
  }

  lemma {:induction false} OnlyTypeable(c: MatcherConfig, tr: seq<Stimulus>)
    ensures AllTypeable(c, Run(c, START, tr).context.sequence)
    ensures forall q :: q in Run(c, START, tr).delivered ==> AllTypeable(c, q)
  {
    if tr != [] {
      OnlyTypeable(c, tr[..|tr| - 1]);
      var i := tr[|tr| - 1];
      if i.Key? && i.event.code != c.trailer {
        assert Typeable(c, Substitute(c, i.event.code));
      }
    }
  }

  function Tap(raw: RawKeyCode): seq<Stimulus> {
    [Key(KeyEvent(raw, Pressed))] + [Key(KeyEvent(raw, Released))]
  }

  // A key that reports the code.
  ghost function RawOf(c: MatcherConfig, code: RawKeyCode): (raw: RawKeyCode)
    requires Typeable(c, code)
    ensures raw != c.trailer && Substitute(c, raw) == code
  {
    var raw: RawKeyCode :| raw != c.trailer && Substitute(c, raw) == code;
    raw
  }

  // Tap the introducer, and then, in turn, a key for each code.
  ghost function Typing(c: MatcherConfig, q: KeySequence): seq<Stimulus>
    requires AllTypeable(c, q)
  {
    if q == [] then Tap(c.introducer) else Typing(c, q[..|q| - 1]) + Tap(RawOf(c, q[|q| - 1]))
  }

  lemma {:induction false} TapRuns(c: MatcherConfig, tr: seq<Stimulus>, raw: RawKeyCode)
    requires WellFormed({}, tr) && Held({}, tr) == {}
    ensures Run(c, START, tr + Tap(raw)) ==
            Step(c, Step(c, Run(c, START, tr), Key(KeyEvent(raw, Pressed))), Key(KeyEvent(raw, Released)))
    ensures WellFormed({}, tr + Tap(raw)) && Held({}, tr + Tap(raw)) == {}
  {
    var press, release := Key(KeyEvent(raw, Pressed)), Key(KeyEvent(raw, Released));
    Snoc(c, tr, press);
    Snoc(c, tr + [press], release);
    assert tr + Tap(raw) == tr + [press] + [release];
  }

  // One more key tapped in a capture.
  lemma {:induction false} TapCollects(c: MatcherConfig, tr: seq<Stimulus>, q: KeySequence, raw: RawKeyCode)
    requires WellFormed({}, tr) && Held({}, tr) == {} && raw != c.trailer
    requires Run(c, START, tr) == Machine(MatcherContext(Capturing, 0, false, q), [])
    ensures Run(c, START, tr + Tap(raw)) ==
            Machine(MatcherContext(Capturing, 0, false, q + [Substitute(c, raw)]), [])
    ensures WellFormed({}, tr + Tap(raw)) && Held({}, tr + Tap(raw)) == {}
  {
    TapRuns(c, tr, raw);
  }

  // Tapping the introducer first starts the capture.
  lemma {:induction false} TapStarts(c: MatcherConfig)
    ensures Run(c, START, Tap(c.introducer)) == Machine(MatcherContext(Capturing, 0, false, []), [])
    ensures WellFormed({}, Tap(c.introducer)) && Held({}, Tap(c.introducer)) == {}
  {
    TapRuns(c, [], c.introducer);
    assert [] + Tap(c.introducer) == Tap(c.introducer);
  }

  lemma {:induction false} TypingCollects(c: MatcherConfig, q: KeySequence)
    requires AllTypeable(c, q)
    ensures Run(c, START, Typing(c, q)) == Machine(MatcherContext(Capturing, 0, false, q), [])
    ensures WellFormed({}, Typing(c, q)) && Held({}, Typing(c, q)) == {}
  {
    if q == [] {
      TapStarts(c);
    } else {
      var q', code := q[..|q| - 1], q[|q| - 1];
      TypingCollects(c, q');
      TapCollects(c, Typing(c, q'), q', RawOf(c, code));
      assert q == q' + [code];
    }
  }

  lemma {:induction false} Snoc(c: MatcherConfig, tr: seq<Stimulus>, i: Stimulus)
    ensures Run(c, START, tr + [i]) == Step(c, Run(c, START, tr), i)
    ensures Held({}, tr + [i]) == HeldAfter(Held({}, tr), i)
    ensures WellFormed({}, tr + [i]) <==> WellFormed({}, tr) && Possible(Held({}, tr), i)
  {
    var t := tr + [i];
    assert t[..|t| - 1] == tr;
  }

  ghost predicate Delivers(c: MatcherConfig, tr: seq<Stimulus>, q: KeySequence) {
    q in Run(c, START, tr).delivered
  }

  /** A sequence can be delivered exactly when each of its codes is typeable, and then a keyboard can do it. */
  lemma {:induction false} DeliverableExactly(c: MatcherConfig, q: KeySequence)
    ensures AllTypeable(c, q) <==> exists tr :: Delivers(c, tr, q)
    ensures AllTypeable(c, q) <==> exists tr :: WellFormed({}, tr) && Delivers(c, tr, q)
  {
    if AllTypeable(c, q) {
      TypingCollects(c, q);
      Snoc(c, Typing(c, q), TimerExpired);
      assert Delivers(c, Typing(c, q) + [TimerExpired], q);
    }
    forall tr | Delivers(c, tr, q)
      ensures AllTypeable(c, q)
    {
      OnlyTypeable(c, tr);
    }
  }

  /** A binding that names a Kindle Keyboard 3 alias key is dead: no run delivers it. */
  lemma {:induction false} AliasBindingIsDead(c: MatcherConfig, tr: seq<Stimulus>, q: KeySequence, k: nat)
    requires c.hasTable && k < |q| && q[k] in K3_ONLY
    ensures !Delivers(c, tr, q)
  {
    TypeableExactly(c, q[k]);
    if Delivers(c, tr, q) {
      OnlyTypeable(c, tr);
    }
  }
}
