/** Executing an action: the commands run, the keys injected, and the status bar shown meanwhile. */
module Execution {
  import opened Keys
  import opened Framebuffer
  import opened Fonts
  import opened StatusBars
  import opened Tokens
  import opened Actions

  datatype Injection = KeyInjected(code: RawKeyCode) | CharInjected(c: char)

  // What stays fixed while the program runs.
  datatype Environment = Environment(screen: Geometry, font: seq<bv8>, names: NameTable)

  // What an action can change.
  // ranAt says, for each command run, how many updates of the display came before it.
  datatype World = World(bar: Overlay, ran: seq<string>, ranAt: seq<nat>, injected: seq<Injection>)

  ghost predicate Sound(env: Environment, w: World) {
    |env.font| == FONT_BYTES && WellKept(env.screen, w.bar)
  }

  function Typed(text: string): seq<Injection> {
    if text == [] then [] else Typed(text[..|text| - 1]) + [CharInjected(text[|text| - 1])]
  }

  function TokenInjections(names: NameTable, token: string): seq<Injection> {
    if |token| >= 2 && token[0] == '"' && token[|token| - 1] == '"' then Typed(token[1..|token| - 1])
    else
      match FindCode(names, token)
      case Some(code) => [KeyInjected(code)]
      case None => Typed(token)
  }

  function Injections(names: NameTable, tokens: seq<string>): seq<Injection> {
    if tokens == [] then []
    else Injections(names, tokens[..|tokens| - 1]) + TokenInjections(names, tokens[|tokens| - 1])
  }

  /** A text in double quotes (34) is typed without them, character by character. */
  lemma {:induction false} QuotedIsTyped(names: NameTable, quote: char, inner: string)
    requires quote as int == 34
    ensures var r := TokenInjections(names, [quote] + inner + [quote]);
            |r| == |inner| && forall k :: 0 <= k < |inner| ==> r[k] == CharInjected(inner[k])
  {
    var token := [quote] + inner + [quote];
    assert token[1..|token| - 1] == inner;
    TypedAt(inner);
  }

  lemma {:induction false} TypedAt(text: string)
    ensures |Typed(text)| == |text| && forall k :: 0 <= k < |text| ==> Typed(text)[k] == CharInjected(text[k])
  {
    if text != [] {
      TypedAt(text[..|text| - 1]);
    }
  }

  /** Any other token presses the one key it names, or is typed when it names none. */
  lemma {:induction false} TokenIsPressedOrTyped(names: NameTable, token: string)
    requires |token| < 2 || token[0] as int != 34 || token[|token| - 1] as int != 34
    ensures FindCode(names, token).Some? ==>
              TokenInjections(names, token) == [KeyInjected(FindCode(names, token).value)]
    ensures FindCode(names, token).None? ==>
              var r := TokenInjections(names, token);
              |r| == |token| && forall k :: 0 <= k < |token| ==> r[k] == CharInjected(token[k])
  {
    TypedAt(token);
  }

  /** Tokens are injected one after the other. */
  lemma {:induction false} InjectionsInOrder(names: NameTable, tokens: seq<string>, token: string)
    ensures Injections(names, []) == []
    ensures Injections(names, tokens + [token]) == Injections(names, tokens) + TokenInjections(names, token)
  {
    assert (tokens + [token])[..|tokens|] == tokens;
  }

  /** A script or a Kindle query does nothing. */
  lemma {:induction false} InertActions(env: Environment, w: World, name: string, text: string, rc: int)
    requires Sound(env, w)
    ensures Executed(env, w, Action(name, Script(text)), rc) == w
    ensures Executed(env, w, Action(name, KindleKeys(text)), rc) == w
  {}

  lemma {:induction false} OneMoreToken(names: NameTable, tokens: seq<string>, i: nat)
    requires i < |tokens|
    ensures Injections(names, tokens[..i + 1]) ==
            Injections(names, tokens[..i]) + TokenInjections(names, tokens[i])
  {
    assert tokens[..i + 1][..i] == tokens[..i];
  }

  // rc is what the command runner answers.
  ghost function Executed(env: Environment, w: World, a: Action, rc: int): (r: World)
    requires Sound(env, w)
    ensures Sound(env, r)
  {
    match a.payload
    case Shell(command) =>
      var shown := Shown(env.screen, env.font, w.bar, "^[" + a.displayName + "]");
      World(Hidden(env.screen, ResultShown(env.screen, env.font, shown, rc == 0)), w.ran + [command],
            w.ranAt + [|shown.frames|], w.injected)
    case SendKeys(keys) =>
      w.(bar := Hidden(env.screen, w.bar), injected := w.injected + Injections(env.names, TokensOf(keys)))
    case Screenshot =>
      var shown := Shown(env.screen, env.font, w.bar, a.displayName);
      w.(bar := Hidden(env.screen, ResultShown(env.screen, env.font, shown, true)))
    case Script(_) => w
    case KindleKeys(_) => w
  }

  // The commands an action runs.
  function CommandsOf(a: Action): seq<string> {
    if a.payload.Shell? then [a.payload.command] else []
  }

  /** An action runs its command and nothing else, and never loses the base screen. */
  lemma {:induction false} ExecutionKeepsBase(env: Environment, base: seq<bv8>, w: World, a: Action, rc: int)
    requires Sound(env, w) && Covers(env.screen, base, w.bar)
    ensures Covers(env.screen, base, Executed(env, w, a, rc).bar)
    ensures Executed(env, w, a, rc).ran == w.ran + CommandsOf(a)
  {
    var g := env.screen;
    match a.payload
    case Shell(_) =>
      var name := "^[" + a.displayName + "]";
      OverlayKeepsBase(g, env.font, base, w.bar, name, true);
      OverlayKeepsBase(g, env.font, base, Shown(g, env.font, w.bar, name), name, rc == 0);
      OverlayKeepsBase(g, env.font, base, ResultShown(g, env.font, Shown(g, env.font, w.bar, name), rc == 0),
                       name, true);
    case Screenshot =>
      var name := a.displayName;
      OverlayKeepsBase(g, env.font, base, w.bar, name, true);
      OverlayKeepsBase(g, env.font, base, Shown(g, env.font, w.bar, name), name, true);
      OverlayKeepsBase(g, env.font, base, ResultShown(g, env.font, Shown(g, env.font, w.bar, name), true), name, true);
    case SendKeys(_) =>
      OverlayKeepsBase(g, env.font, base, w.bar, "", true);
    case Script(_) =>
    case KindleKeys(_) =>
  }

  class ActionExecutor {
    const bar: StatusBar
    const names: NameTable
    var ran: seq<string>
    ghost var ranAt: seq<nat>
    var injected: seq<Injection>

    ghost predicate Valid()
      reads this, bar, bar.display.memory
    {
      bar.Valid()
    }

    ghost function Env(): Environment {
      Environment(bar.display.bounds, bar.font.font, names)
    }

    ghost function State(): World
      reads this, bar, bar.display.memory
    {
      World(bar.State(), ran, ranAt, injected)
    }

    constructor (bar: StatusBar, names: NameTable)
      requires bar.Valid()
      ensures Valid() && this.bar == bar && this.names == names
      ensures State() == World(bar.State(), [], [], [])
    {
      this.bar, this.names := bar, names;
      ran, ranAt, injected := [], [], [];
    }

    method SendQuotedString(text: string)
      modifies this`injected
      ensures injected == old(injected) + Typed(text)
    {
      var i := 0;
      while i < |text|
        invariant 0 <= i <= |text| && injected == old(injected) + Typed(text[..i])
      {
        assert text[..i + 1][..i] == text[..i];
        injected := injected + [CharInjected(text[i])];
        i := i + 1;
      }
      assert text[..i] == text;
    }

    method SendToken(token: string)
      modifies this`injected
      ensures injected == old(injected) + TokenInjections(names, token)
    {
      if |token| >= 2 && token[0] == '"' && token[|token| - 1] == '"' {
        SendQuotedString(token[1..|token| - 1]);
        return;
      }
      var code := FindCode(names, token);
      if code.Some? {
        injected := injected + [KeyInjected(code.value)];
        return;
      }
      SendQuotedString(token);
    }

    method ExecuteShell(command: string, displayName: string, rc: int)
      requires Valid()
      modifies this, bar, bar.display.memory
      ensures Valid()
      ensures State() == Executed(Env(), old(State()), Action(displayName, Shell(command)), rc)
    {
      bar.ShowStatus("^[" + displayName + "]");
      ran, ranAt := ran + [command], ranAt + [|bar.frames|];
      bar.ShowResult(rc == 0);
      bar.HideStatus();
    }

    // Token k of the tokens, after those before it.
    method SendNext(tokens: seq<string>, k: nat, ghost before: seq<Injection>)
      requires k < |tokens| && injected == before + Injections(names, tokens[..k])
      modifies this`injected
      ensures injected == before + Injections(names, tokens[..k + 1])
    {
      SendToken(tokens[k]);
      OneMoreToken(names, tokens, k);
      assert before + Injections(names, tokens[..k]) + TokenInjections(names, tokens[k]) ==
             before + (Injections(names, tokens[..k]) + TokenInjections(names, tokens[k]));
    }

    method SendTokens(tokens: seq<string>)
      modifies this`injected
      ensures injected == old(injected) + Injections(names, tokens)
    {
      ghost var before := injected;
      var i := 0;
      while i < |tokens|
        invariant 0 <= i <= |tokens|
        invariant injected == before + Injections(names, tokens[..i])
      {
        SendNext(tokens, i, before);
        i := i + 1;
      }
      assert tokens[..i] == tokens;
    }

    method ExecuteSendKeys(keys: string)
      requires Valid()
      modifies this, bar, bar.display.memory
      ensures Valid()
      ensures State() == World(Hidden(bar.display.bounds, old(bar.State())), old(ran), old(ranAt),
                               old(injected) + Injections(names, TokensOf(keys)))
    {
      SendTokens(TokensOf(keys));
      bar.HideStatus();
    }

    method ExecuteScreenshot(displayName: string)
      requires Valid()
      modifies this, bar, bar.display.memory
      ensures Valid()
      ensures State() == Executed(Env(), old(State()), Action(displayName, Screenshot), 0)
    {
      bar.ShowStatus(displayName);
      bar.ShowResult(true);
      bar.HideStatus();
    }

    method Execute(action: Action, rc: int)
      requires Valid()
      modifies this, bar, bar.display.memory
      ensures Valid()
      ensures State() == Executed(Env(), old(State()), action, rc)
    {
      if action.payload.Shell? {
        ExecuteShell(action.payload.command, action.displayName, rc);
        return;
      }
      if action.payload.SendKeys? {
        ExecuteSendKeys(action.payload.keys);
        return;
      }
      if action.payload.Screenshot? {
        ExecuteScreenshot(action.displayName);
        return;
      }
    }
  }
}
