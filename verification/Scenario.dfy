// The stateful scenario engine, and the linter that says which of its steps can never
// run. Requests and matchers are arbitrary.

module Scenario {
  import opened Text
  import opened Wrappers

  // A configured step; wellFormed stands for its response and matcher being acceptable.
  datatype Step = Step(name: string, state: string, nextState: string, wellFormed: bool)

  datatype Config = Config(name: string, initialState: string, steps: seq<Step>)

  // strings.TrimSpace leaves nothing.
  predicate Blank(s: string) {
    forall i :: 0 <= i < |s| ==> IsSpace(s[i])
  }

  // The states a scenario mentions as initial or as the state of some step.
  function StatesOf(cfg: Config): set<string> {
    {cfg.initialState} + set step | step in cfg.steps :: step.state
  }

  predicate ValidConfig(cfg: Config) {
    && !Blank(cfg.name) && cfg.initialState != ""
    && forall step :: step in cfg.steps ==>
        step.state != "" && step.wellFormed && (step.nextState != "" ==> step.nextState in StatesOf(cfg))
  }

  predicate ValidConfigs(configs: seq<Config>) {
    && (forall cfg :: cfg in configs ==> ValidConfig(cfg))
    && (forall i, j :: 0 <= i < j < |configs| ==> configs[i].name != configs[j].name)
  }

  // A state is mentioned as the initial state or as the state of some step.
  ghost predicate Mentioned(cfg: Config, state: string) {
    state == cfg.initialState || exists k :: 0 <= k < |cfg.steps| && cfg.steps[k].state == state
  }

  // A configuration is accepted exactly when it has a name, an initial state, acceptable
  // steps that have states, and leads only to states it mentions.
  lemma ValidConfigExactly(cfg: Config)
    ensures ValidConfig(cfg) <==>
      && !Blank(cfg.name) && cfg.initialState != ""
      && forall j :: 0 <= j < |cfg.steps| ==>
          var step := cfg.steps[j];
          step.state != "" && step.wellFormed && (step.nextState == "" || Mentioned(cfg, step.nextState))
  {
    forall state
      ensures state in StatesOf(cfg) <==> Mentioned(cfg, state)
    {
      if state in StatesOf(cfg) && state != cfg.initialState {
        var step :| step in cfg.steps && step.state == state;
        var k :| 0 <= k < |cfg.steps| && cfg.steps[k] == step;
      }
      if Mentioned(cfg, state) && state != cfg.initialState {
        var k :| 0 <= k < |cfg.steps| && cfg.steps[k].state == state;
        assert cfg.steps[k] in cfg.steps;
      }
    }
    assert forall j :: 0 <= j < |cfg.steps| ==> cfg.steps[j] in cfg.steps;
  }

  // The checks of NewWithRegistry.
  method CheckConfigs(configs: seq<Config>) returns (ok: bool)
    ensures ok <==> ValidConfigs(configs)
  {
    var names: set<string> := {};
    for i := 0 to |configs|
      invariant names == set cfg | cfg in configs[..i] :: cfg.name
      invariant ValidConfigs(configs[..i])
    {
      var cfg := configs[i];
      assert cfg in configs;
      assert configs[..i + 1] == configs[..i] + [cfg];
      if Blank(cfg.name) {
        return false;
      }
      if cfg.name in names {
        return false;
      }
      names := names + {cfg.name};
      if cfg.initialState == "" {
        return false;
      }
      var good := CheckSteps(cfg);
      if !good {
        return false;
      }
    }
    assert configs[..|configs|] == configs;
    return true;
  }

  method CheckSteps(cfg: Config) returns (ok: bool)
    ensures ok <==> forall step :: step in cfg.steps ==>
      step.state != "" && step.wellFormed && (step.nextState != "" ==> step.nextState in StatesOf(cfg))
  {
    var states := {cfg.initialState};
    for j := 0 to |cfg.steps|
      invariant states == {cfg.initialState} + set step | step in cfg.steps[..j] :: step.state
      invariant forall step :: step in cfg.steps[..j] ==> step.state != "" && step.wellFormed
    {
      var step := cfg.steps[j];
      assert step in cfg.steps && cfg.steps[..j + 1] == cfg.steps[..j] + [step];
      if step.state == "" {
        return false;
      }
      states := states + {step.state};
      if !step.wellFormed {
        return false;
      }
    }
    assert cfg.steps[..|cfg.steps|] == cfg.steps && states == StatesOf(cfg);
    for j := 0 to |cfg.steps|
      invariant forall step :: step in cfg.steps[..j] ==> step.nextState != "" ==> step.nextState in states
    {
      var step := cfg.steps[j];
      assert step in cfg.steps && cfg.steps[..j + 1] == cfg.steps[..j] + [step];
      if step.nextState != "" && step.nextState !in states {
        return false;
      }
    }
    return true;
  }

  // ---------------------------------------------------------------- the engine

  // Which step of which scenario accepts a request.
  type Matchers<!R> = (nat, nat, R) -> bool

  datatype Fired = Fired(config: nat, step: nat)

  type States = map<string, string>

  function Initial(configs: seq<Config>): States {
    if configs == [] then map[]
    else
      var last := configs[|configs| - 1];
      Initial(configs[..|configs| - 1])[last.name := last.initialState]
  }

  lemma {:induction false} InitialNames(configs: seq<Config>, name: string)
    ensures name in Initial(configs) <==> exists c :: 0 <= c < |configs| && configs[c].name == name
  {
    if configs != [] {
      var n := |configs| - 1;
      InitialNames(configs[..n], name);
      if name in Initial(configs[..n]) {
        var c :| 0 <= c < n && configs[..n][c].name == name;
        assert configs[c].name == name;
      }
      if name !in Initial(configs[..n]) && name != configs[n].name {
        forall c | 0 <= c < |configs|
          ensures configs[c].name != name
        {
          assert c < n ==> configs[..n][c] == configs[c];
        }
      }
    }
  }

  lemma {:induction false} InitialOf(configs: seq<Config>, c: nat)
    requires c < |configs| && forall i, j :: 0 <= i < j < |configs| ==> configs[i].name != configs[j].name
    ensures configs[c].name in Initial(configs) && Initial(configs)[configs[c].name] == configs[c].initialState
  {
    var n := |configs| - 1;
    if c < n {
      InitialOf(configs[..n], c);
      assert configs[..n][c] == configs[c] && configs[c].name != configs[n].name;
    }
  }

  predicate Ready<R>(configs: seq<Config>, accepts: Matchers<R>, states: States, r: R, c: nat, j: nat)
    requires c < |configs| && j < |configs[c].steps|
  {
    configs[c].name in states && configs[c].steps[j].state == states[configs[c].name] && accepts(c, j, r)
  }

  // The first ready step of a scenario from step j on.
  function FirstStep<R>(configs: seq<Config>, accepts: Matchers<R>, states: States, r: R, c: nat,
                        j: nat): (f: Option<nat>)
    requires c < |configs| && j <= |configs[c].steps|
    ensures f.Some? ==> j <= f.value < |configs[c].steps| && Ready(configs, accepts, states, r, c, f.value)
    ensures forall k :: j <= k < (if f.Some? then f.value else |configs[c].steps|) ==>
      !Ready(configs, accepts, states, r, c, k)
    decreases |configs[c].steps| - j
  {
    if j == |configs[c].steps| then None
    else if Ready(configs, accepts, states, r, c, j) then Some(j)
    else FirstStep(configs, accepts, states, r, c, j + 1)
  }

  // The step that answers a request: first scenario first, then first step.
  function FirstFired<R>(configs: seq<Config>, accepts: Matchers<R>, states: States, r: R, c: nat): (f: Option<Fired>)
    requires c <= |configs|
    ensures f.Some? ==>
      && c <= f.value.config < |configs|
      && f.value.step < |configs[f.value.config].steps|
      && Ready(configs, accepts, states, r, f.value.config, f.value.step)
      && (forall j :: 0 <= j < f.value.step ==> !Ready(configs, accepts, states, r, f.value.config, j))
    ensures forall d, j :: c <= d < (if f.Some? then f.value.config else |configs|) && 0 <= j < |configs[d].steps| ==>
      !Ready(configs, accepts, states, r, d, j)
    decreases |configs| - c
  {
    if c == |configs| then None
    else match FirstStep(configs, accepts, states, r, c, 0)
      case Some(j) => Some(Fired(c, j))
      case None => FirstFired(configs, accepts, states, r, c + 1)
  }

  // Does step j of scenario c accept the request while the scenario is in its state?
  predicate Answers<R>(configs: seq<Config>, accepts: Matchers<R>, states: States, r: R, c: nat, j: nat) {
    && c < |configs| && j < |configs[c].steps| && configs[c].name in states.Keys
    && states[configs[c].name] == configs[c].steps[j].state && accepts(c, j, r)
  }

  // A request is answered by a step exactly when that step accepts it in the current state
  // of its scenario and no step before it does, in an earlier scenario or in its own.
  lemma FiredExactly<R>(configs: seq<Config>, accepts: Matchers<R>, states: States, r: R, c: nat, j: nat)
    ensures FirstFired(configs, accepts, states, r, 0) == Some(Fired(c, j)) <==>
      && Answers(configs, accepts, states, r, c, j)
      && (forall d: nat, k: nat :: d < c || (d == c && k < j) ==> !Answers(configs, accepts, states, r, d, k))
  {
    forall d: nat, k: nat
      ensures Answers(configs, accepts, states, r, d, k) <==>
        d < |configs| && k < |configs[d].steps| && Ready(configs, accepts, states, r, d, k)
    {
    }
    var f := FirstFired(configs, accepts, states, r, 0);
    if f.Some? {
      assert Answers(configs, accepts, states, r, f.value.config, f.value.step);
    }
  }

  function Moved(configs: seq<Config>, states: States, f: Option<Fired>): States
    requires f.Some? ==> f.value.config < |configs| && f.value.step < |configs[f.value.config].steps|
  {
    if f.None? || configs[f.value.config].steps[f.value.step].nextState == "" then states
    else states[configs[f.value.config].name := configs[f.value.config].steps[f.value.step].nextState]
  }

  // Only the scenario that fired moves: to its step's next state, if there is one.
  lemma MovedExactly(configs: seq<Config>, states: States, f: Fired)
    requires ValidConfigs(configs) && states.Keys == Initial(configs).Keys
    requires f.config < |configs| && f.step < |configs[f.config].steps|
    ensures var after := Moved(configs, states, Some(f)); var next := configs[f.config].steps[f.step].nextState;
      && after.Keys == states.Keys
      && (forall c :: 0 <= c < |configs| ==> configs[c].name in states)
      && (forall c :: 0 <= c < |configs| && c != f.config ==> after[configs[c].name] == states[configs[c].name])
      && after[configs[f.config].name] == if next == "" then states[configs[f.config].name] else next
  {
    forall c | 0 <= c < |configs|
      ensures configs[c].name in states && (c != f.config ==> configs[c].name != configs[f.config].name)
    {
      InitialNames(configs, configs[c].name);
      assert c < f.config || f.config < c || c == f.config;
    }
  }

  lemma MoveNothing(configs: seq<Config>, states: States)
    requires states.Keys == Initial(configs).Keys
    ensures forall c :: 0 <= c < |configs| ==> configs[c].name in states
  {
    forall c | 0 <= c < |configs|
      ensures configs[c].name in states
    {
      InitialNames(configs, configs[c].name);
    }
  }

  class Engine<R> {
    const configs: seq<Config>
    const accepts: Matchers<R>
    var states: States

    ghost predicate Valid()
      reads this
    {
      ValidConfigs(configs) && states.Keys == Initial(configs).Keys
    }

    constructor (configs: seq<Config>, accepts: Matchers<R>)
      requires ValidConfigs(configs)
      ensures Valid() && this.configs == configs && this.accepts == accepts && states == Initial(configs)
    {
      this.configs := configs;
      this.accepts := accepts;
      this.states := map[];
      new;
      Reset();
    }

    method Reset()
      requires ValidConfigs(configs) && states.Keys <= Initial(configs).Keys
      modifies this
      ensures Valid() && states == Initial(configs)
    {
      for i := 0 to |configs|
        invariant states.Keys <= Initial(configs).Keys
        invariant forall k :: 0 <= k < i ==>
          configs[k].name in states && states[configs[k].name] == configs[k].initialState
      {
        InitialNames(configs, configs[i].name);
        states := states[configs[i].name := configs[i].initialState];
      }
      forall name | name in Initial(configs)
        ensures name in states && states[name] == Initial(configs)[name]
      {
        InitialNames(configs, name);
        var c :| 0 <= c < |configs| && configs[c].name == name;
        InitialOf(configs, c);
      }
    }

    // The step loop of Match for one scenario.
    method MatchIn(c: nat, r: R) returns (result: Option<nat>)
      requires c < |configs| && configs[c].name in states
      modifies this
      ensures result == FirstStep(configs, accepts, old(states), r, c, 0)
      ensures states == Moved(configs, old(states), if result.Some? then Some(Fired(c, result.value)) else None)
    {
      var current := states[configs[c].name];
      for j := 0 to |configs[c].steps|
        invariant states == old(states)
        invariant FirstStep(configs, accepts, states, r, c, 0) == FirstStep(configs, accepts, states, r, c, j)
      {
        var step := configs[c].steps[j];
        if step.state != current {
          continue;
        }
        if !accepts(c, j, r) {
          continue;
        }
        if step.nextState != "" {
          states := states[configs[c].name := step.nextState];
        }
        return Some(j);
      }
      return None;
    }

    method Match(r: R) returns (result: Option<Fired>)
      requires Valid()
      modifies this
      ensures Valid()
      ensures result == FirstFired(configs, accepts, old(states), r, 0)
      ensures states == Moved(configs, old(states), result)
      ensures forall c :: 0 <= c < |configs| ==> configs[c].name in states && configs[c].name in old(states)
      ensures forall c :: 0 <= c < |configs| && (result.Some? ==> result.value.config != c) ==>
        states[configs[c].name] == old(states)[configs[c].name]
      ensures result.Some? ==>
        var cfg := configs[result.value.config]; var next := cfg.steps[result.value.step].nextState;
        states[cfg.name] == if next == "" then old(states)[cfg.name] else next
    {
      for c := 0 to |configs|
        invariant states == old(states)
        invariant FirstFired(configs, accepts, states, r, 0) == FirstFired(configs, accepts, states, r, c)
      {
        InitialNames(configs, configs[c].name);
        var j := MatchIn(c, r);
        if j.Some? {
          MovedExactly(configs, old(states), Fired(c, j.value));
          return Some(Fired(c, j.value));
        }
      }
      MoveNothing(configs, states);
      return None;
    }
  }

  // ---------------------------------------------------------------- runs

  function StatesAfter<R>(configs: seq<Config>, accepts: Matchers<R>, reqs: seq<R>): States {
    if reqs == [] then Initial(configs)
    else
      var before := StatesAfter(configs, accepts, reqs[..|reqs| - 1]);
      Moved(configs, before, FirstFired(configs, accepts, before, reqs[|reqs| - 1], 0))
  }

  // What the last of the requests is answered by.
  function LastFired<R>(configs: seq<Config>, accepts: Matchers<R>, reqs: seq<R>): (f: Option<Fired>)
    requires reqs != []
    ensures f.Some? ==> f.value.config < |configs| && f.value.step < |configs[f.value.config].steps|
  {
    FirstFired(configs, accepts, StatesAfter(configs, accepts, reqs[..|reqs| - 1]), reqs[|reqs| - 1], 0)
  }

  // The steps of scenario c that answered one of the requests, in order.
  function FiredSteps<R>(configs: seq<Config>, accepts: Matchers<R>, reqs: seq<R>, c: nat): (js: seq<nat>)
    requires c < |configs|
    ensures forall x :: 0 <= x < |js| ==> js[x] < |configs[c].steps|
  {
    if reqs == [] then []
    else
      var f := LastFired(configs, accepts, reqs);
      FiredSteps(configs, accepts, reqs[..|reqs| - 1], c) +
      if f.Some? && f.value.config == c then [f.value.step] else []
  }

  // Where these steps lead: each sets its next state, unless that is empty.
  function Progress(cfg: Config, js: seq<nat>): string
    requires forall x :: 0 <= x < |js| ==> js[x] < |cfg.steps|
  {
    if js == [] then cfg.initialState
    else
      var next := cfg.steps[js[|js| - 1]].nextState;
      if next == "" then Progress(cfg, js[..|js| - 1]) else next
  }

  // After any run, the state of a scenario is decided by its own steps that fired, in
  // order; the other scenarios have no part in it.
  lemma {:induction false} StateIsOwnProgress<R>(configs: seq<Config>, accepts: Matchers<R>, reqs: seq<R>, c: nat)
    requires ValidConfigs(configs) && c < |configs|
    ensures StatesAfter(configs, accepts, reqs).Keys == Initial(configs).Keys
    ensures configs[c].name in StatesAfter(configs, accepts, reqs)
    ensures StatesAfter(configs, accepts, reqs)[configs[c].name] ==
      Progress(configs[c], FiredSteps(configs, accepts, reqs, c))
    decreases |reqs|
  {
    InitialNames(configs, configs[c].name);
    if reqs == [] {
      InitialOf(configs, c);
    } else {
      var before := reqs[..|reqs| - 1];
      StateIsOwnProgress(configs, accepts, before, c);
      var f := LastFired(configs, accepts, reqs);
      var js := FiredSteps(configs, accepts, before, c);
      if f.Some? {
        MovedExactly(configs, StatesAfter(configs, accepts, before), f.value);
      }
      if f.Some? && f.value.config == c {
        assert (js + [f.value.step])[..|js|] == js;
      } else {
        assert js + [] == js;
      }
    }
  }

  // path is a list of steps that leads from the initial state to s.
  ghost predicate Leads(cfg: Config, path: seq<nat>, s: string)
    decreases |path|
  {
    if path == [] then s == cfg.initialState
    else
      var last := path[|path| - 1];
      && last < |cfg.steps| && cfg.steps[last].nextState == s && s != ""
      && Leads(cfg, path[..|path| - 1], cfg.steps[last].state)
  }

  ghost predicate Reachable(cfg: Config, s: string) {
    exists path :: Leads(cfg, path, s)
  }

  lemma ReachableOn(cfg: Config, j: nat)
    requires j < |cfg.steps| && cfg.steps[j].nextState != "" && Reachable(cfg, cfg.steps[j].state)
    ensures Reachable(cfg, cfg.steps[j].nextState)
  {
    var path :| Leads(cfg, path, cfg.steps[j].state);
    assert (path + [j])[..|path|] == path;
    assert Leads(cfg, path + [j], cfg.steps[j].nextState);
  }

  // ---------------------------------------------------------------- the linter

  // The fixpoint loop of simlint.File.
  method ReachableStates(cfg: Config) returns (reachable: set<string>)
    ensures forall s :: s in reachable <==> Reachable(cfg, s)
  {
    reachable := {cfg.initialState};
    assert Leads(cfg, [], cfg.initialState);
    var changed := true;
    ghost var universe := {cfg.initialState} + set step | step in cfg.steps :: step.nextState;
    while changed
      invariant cfg.initialState in reachable && reachable <= universe
      invariant forall s :: s in reachable ==> Reachable(cfg, s)
      invariant !changed ==> Closed(cfg, reachable, |cfg.steps|)
      decreases universe - reachable, changed
    {
      changed := false;
      ghost var before := reachable;
      for j := 0 to |cfg.steps|
        invariant cfg.initialState in reachable && before <= reachable <= universe
        invariant forall s :: s in reachable ==> Reachable(cfg, s)
        invariant if changed then before < reachable else before == reachable && Closed(cfg, reachable, j)
      {
        var step := cfg.steps[j];
        assert step in cfg.steps;
        if step.state in reachable && step.nextState != "" && step.nextState !in reachable {
          ReachableOn(cfg, j);
          reachable := reachable + {step.nextState};
          changed := true;
        }
      }
      assert before < reachable ==> universe - reachable < universe - before;
    }
    forall s | Reachable(cfg, s)
      ensures s in reachable
    {
      var path :| Leads(cfg, path, s);
      ClosedContainsReachable(cfg, reachable, path, s);
    }
  }

  // No step among the first n leads out of the set.
  ghost predicate Closed(cfg: Config, states: set<string>, n: nat) {
    forall j :: 0 <= j < n && j < |cfg.steps| && cfg.steps[j].state in states && cfg.steps[j].nextState != "" ==>
      cfg.steps[j].nextState in states
  }

  lemma {:induction false} ClosedContainsReachable(cfg: Config, states: set<string>, path: seq<nat>, s: string)
    requires cfg.initialState in states && Closed(cfg, states, |cfg.steps|) && Leads(cfg, path, s)
    ensures s in states
    decreases |path|
  {
    if path != [] {
      ClosedContainsReachable(cfg, states, path[..|path| - 1], cfg.steps[path[|path| - 1]].state);
    }
  }

  // The steps reported STATE_UNREACHABLE, in order.
  method UnreachableSteps(cfg: Config) returns (flagged: seq<nat>)
    ensures forall j :: j in flagged <==> 0 <= j < |cfg.steps| && !Reachable(cfg, cfg.steps[j].state)
    ensures forall x, y :: 0 <= x < y < |flagged| ==> flagged[x] < flagged[y]
  {
    flagged := [];
    if |cfg.steps| == 0 {
      return;
    }
    var reachable := ReachableStates(cfg);
    for j := 0 to |cfg.steps|
      invariant forall k :: k in flagged <==> 0 <= k < j && !Reachable(cfg, cfg.steps[k].state)
      invariant forall x :: 0 <= x < |flagged| ==> flagged[x] < j
      invariant forall x, y :: 0 <= x < y < |flagged| ==> flagged[x] < flagged[y]
    {
      if cfg.steps[j].state !in reachable {
        flagged := flagged + [j];
      }
    }
  }

  // ---------------------------------------------------------------- lint and engine agree

  // Whatever the matchers do, a scenario never leaves the states the linter computes.
  lemma {:induction false} EngineStaysReachable<R>(configs: seq<Config>, accepts: Matchers<R>, reqs: seq<R>, c: nat)
    requires ValidConfigs(configs) && c < |configs|
    ensures configs[c].name in StatesAfter(configs, accepts, reqs)
    ensures Reachable(configs[c], StatesAfter(configs, accepts, reqs)[configs[c].name])
    decreases |reqs|
  {
    if reqs == [] {
      InitialOf(configs, c);
      assert Leads(configs[c], [], configs[c].initialState);
    } else {
      var before := StatesAfter(configs, accepts, reqs[..|reqs| - 1]);
      EngineStaysReachable(configs, accepts, reqs[..|reqs| - 1], c);
      var f := FirstFired(configs, accepts, before, reqs[|reqs| - 1], 0);
      if f.Some? && configs[f.value.config].name == configs[c].name {
        assert f.value.config == c by {
          assert f.value.config < c || c < f.value.config || c == f.value.config;
        }
        if configs[c].steps[f.value.step].nextState != "" {
          ReachableOn(configs[c], f.value.step);
        }
      }
    }
  }

  // So a step reported unreachable never fires.
  lemma UnreachableNeverFires<R>(configs: seq<Config>, accepts: Matchers<R>, reqs: seq<R>)
    requires ValidConfigs(configs) && reqs != []
    ensures var f := LastFired(configs, accepts, reqs);
      f.Some? ==> Reachable(configs[f.value.config], configs[f.value.config].steps[f.value.step].state)
  {
    var f := LastFired(configs, accepts, reqs);
    if f.Some? {
      EngineStaysReachable(configs, accepts, reqs[..|reqs| - 1], f.value.config);
    }
  }

  // Matchers under which a request names the one step that accepts it.
  function Named(): Matchers<Fired> {
    (c: nat, j: nat, r: Fired) => r == Fired(c, j)
  }

  lemma {:induction false} OnlyNamedStepFires(configs: seq<Config>, states: States, c: nat, j: nat, from: nat)
    requires from <= c < |configs| && j < |configs[c].steps| && configs[c].name in states
    requires configs[c].steps[j].state == states[configs[c].name]
    ensures FirstFired(configs, Named(), states, Fired(c, j), from) == Some(Fired(c, j))
    decreases c - from
  {
    var f := FirstStep(configs, Named(), states, Fired(c, j), from, 0);
    if from < c {
      OnlyNamedStepFires(configs, states, c, j, from + 1);
    } else {
      assert Ready(configs, Named(), states, Fired(c, j), c, j);
    }
  }

  function Driving(c: nat, path: seq<nat>): (reqs: seq<Fired>)
    ensures |reqs| == |path|
  {
    seq(|path|, i requires 0 <= i < |path| => Fired(c, path[i]))
  }

  lemma {:induction false} PathDrivesEngine(configs: seq<Config>, c: nat, path: seq<nat>, s: string)
    requires ValidConfigs(configs) && c < |configs| && Leads(configs[c], path, s)
    ensures configs[c].name in StatesAfter(configs, Named(), Driving(c, path))
    ensures StatesAfter(configs, Named(), Driving(c, path))[configs[c].name] == s
    decreases |path|
  {
    if path == [] {
      InitialOf(configs, c);
    } else {
      var last, before := path[|path| - 1], path[..|path| - 1];
      PathDrivesEngine(configs, c, before, configs[c].steps[last].state);
      assert Driving(c, path)[..|path| - 1] == Driving(c, before);
      OnlyNamedStepFires(configs, StatesAfter(configs, Named(), Driving(c, before)), c, last, 0);
    }
  }

  // And the report is exact: a step that is not reported can fire, for some matchers
  // and some requests.
  lemma ReachableCanFire(configs: seq<Config>, c: nat, j: nat) returns (reqs: seq<Fired>)
    requires ValidConfigs(configs) && c < |configs| && j < |configs[c].steps|
    requires Reachable(configs[c], configs[c].steps[j].state)
    ensures reqs != [] && LastFired(configs, Named(), reqs) == Some(Fired(c, j))
  {
    var path :| Leads(configs[c], path, configs[c].steps[j].state);
    PathDrivesEngine(configs, c, path, configs[c].steps[j].state);
    reqs := Driving(c, path) + [Fired(c, j)];
    assert reqs[..|path|] == Driving(c, path);
    OnlyNamedStepFires(configs, StatesAfter(configs, Named(), Driving(c, path)), c, j, 0);
  }
}
