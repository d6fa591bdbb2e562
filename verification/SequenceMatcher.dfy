/** The hotkey state machine: waits for the introducer key pressed and released
    alone, then collects key codes until the trailer key or a timeout. */
module SequenceMatching {
  import opened Keys

  type KeySequence = seq<RawKeyCode>

  datatype KeyEventType = Pressed | Released
  datatype KeyEvent = KeyEvent(code: RawKeyCode, kind: KeyEventType)
  datatype MatcherState = Idle | Capturing
  datatype MatcherActionType = NoAction | StartCapture | KeyAppended | SequenceComplete | Cancelled
  datatype MatcherResult = MatcherResult(action: MatcherActionType, sequence: KeySequence)

  // hasTable says whether the key table pointer is set.
  datatype MatcherConfig = MatcherConfig(introducer: RawKeyCode, trailer: RawKeyCode, hasTable: bool)
  datatype MatcherContext =
    MatcherContext(state: MatcherState, keysDown: nat, introducerArmed: bool, sequence: KeySequence)

  const INITIAL_CONTEXT := MatcherContext(Idle, 0, false, [])
  const NOTHING := MatcherResult(NoAction, [])

  function Substitute(c: MatcherConfig, code: RawKeyCode): RawKeyCode {
    if c.hasTable then SubstituteCode(code) else code
  }

  function CountDown(keysDown: nat): nat {
    if keysDown > 0 then keysDown - 1 else 0
  }

  // What one key event does to the state, and what it reports.
  function OnKey(c: MatcherConfig, s: MatcherContext, e: KeyEvent): (MatcherContext, MatcherResult) {
    match (s.state, e.kind)
    case (Idle, Pressed) =>
      (s.(keysDown := s.keysDown + 1, introducerArmed := s.keysDown == 0 && e.code == c.introducer), NOTHING)
    case (Idle, Released) =>
      var down := CountDown(s.keysDown);
      if down == 0 && e.code == c.introducer && s.introducerArmed then
        (MatcherContext(Capturing, down, false, []), MatcherResult(StartCapture, []))
      else
        (s.(keysDown := down), NOTHING)
    case (Capturing, Pressed) =>
      if e.code == c.trailer then
        (s.(state := Idle, keysDown := s.keysDown + 1, sequence := []), MatcherResult(SequenceComplete, s.sequence))
      else
        var longer := s.sequence + [Substitute(c, e.code)];
        (s.(keysDown := s.keysDown + 1, sequence := longer), MatcherResult(KeyAppended, longer))
    case (Capturing, Released) =>
      (s.(keysDown := CountDown(s.keysDown)), NOTHING)
  }

  // A timeout delivers what was collected; it does not cancel.
  function OnTimeout(s: MatcherContext): (MatcherContext, MatcherResult) {
    if s.state != Capturing then (s, NOTHING)
    else (s.(state := Idle, sequence := []), MatcherResult(SequenceComplete, s.sequence))
  }

  class SequenceMatcher {
    var config: MatcherConfig
    var state: MatcherState
    var keysDown: nat
    var introducerArmed: bool
    var sequence: KeySequence

    function Context(): MatcherContext
      reads this
    {
      MatcherContext(state, keysDown, introducerArmed, sequence)
    }

    constructor (config: MatcherConfig, table: bool)
      ensures this.config == config.(hasTable := config.hasTable || table)
      ensures Context() == INITIAL_CONTEXT
    {
      this.config := if table then config.(hasTable := true) else config;
      state, keysDown, introducerArmed, sequence := Idle, 0, false, [];
    }

    // Assignment from a newly constructed matcher.
    method Assign(config: MatcherConfig, table: bool)
      modifies this
      ensures this.config == config.(hasTable := config.hasTable || table)
      ensures Context() == INITIAL_CONTEXT
    {
      this.config := if table then config.(hasTable := true) else config;
      state, keysDown, introducerArmed, sequence := Idle, 0, false, [];
    }

    method HandleIdlePress(code: RawKeyCode) returns (r: MatcherResult)
      requires state == Idle
      modifies this
      ensures config == old(config)
      ensures (Context(), r) == OnKey(config, old(Context()), KeyEvent(code, Pressed))
    {
      keysDown := keysDown + 1;
      if keysDown == 1 && code == config.introducer {
        introducerArmed := true;
        return MatcherResult(NoAction, []);
      }
      introducerArmed := false;
      return MatcherResult(NoAction, []);
    }

    method HandleIdleRelease(code: RawKeyCode) returns (r: MatcherResult)
      requires state == Idle
      modifies this
      ensures config == old(config)
      ensures (Context(), r) == OnKey(config, old(Context()), KeyEvent(code, Released))
    {
      keysDown := if keysDown > 0 then keysDown - 1 else 0;
      if keysDown == 0 && code == config.introducer && introducerArmed {
        introducerArmed := false;
        state := Capturing;
        sequence := [];
        return MatcherResult(StartCapture, []);
      }
      return MatcherResult(NoAction, []);
    }

    method HandleCapturingPress(code: RawKeyCode) returns (r: MatcherResult)
      requires state == Capturing
      modifies this
      ensures config == old(config)
      ensures (Context(), r) == OnKey(config, old(Context()), KeyEvent(code, Pressed))
    {
      keysDown := keysDown + 1;
      if code == config.trailer {
        var finished := sequence;
        sequence := [];
        state := Idle;
        return MatcherResult(SequenceComplete, finished);
      }
      var subCode := Substitute(config, code);
      sequence := sequence + [subCode];
      return MatcherResult(KeyAppended, sequence);
    }

    method HandleCapturingRelease(code: RawKeyCode) returns (r: MatcherResult)
      requires state == Capturing
      modifies this
      ensures config == old(config)
      ensures (Context(), r) == OnKey(config, old(Context()), KeyEvent(code, Released))
    {
      keysDown := if keysDown > 0 then keysDown - 1 else 0;
      return MatcherResult(NoAction, []);
    }

    method ProcessKeyEvent(code: RawKeyCode, kind: KeyEventType) returns (r: MatcherResult)
      modifies this
      ensures config == old(config)
      ensures (Context(), r) == OnKey(config, old(Context()), KeyEvent(code, kind))
    {
      if state == Idle && kind == Pressed {
        r := HandleIdlePress(code);
      } else if state == Idle && kind == Released {
        r := HandleIdleRelease(code);
      } else if state == Capturing && kind == Pressed {
        r := HandleCapturingPress(code);
      } else {
        r := HandleCapturingRelease(code);
      }
    }

    method Timeout() returns (r: MatcherResult)
      modifies this
      ensures config == old(config)
      ensures (Context(), r) == OnTimeout(old(Context()))
    {
      if state != Capturing {
        return MatcherResult(NoAction, []);
      }
      var finished := sequence;
      sequence := [];
      state := Idle;
      return MatcherResult(SequenceComplete, finished);
    }

    method Cancel() returns (r: MatcherResult)
      modifies this
      ensures config == old(config)
      ensures Context() == INITIAL_CONTEXT && r == MatcherResult(Cancelled, [])
    {
      sequence := [];
      state := Idle;
      introducerArmed := false;
      keysDown := 0;
      return MatcherResult(Cancelled, []);
    }
  }
}
