/**
  The plugin lifecycle engine: initializing, enabling and disabling plugin
  loaders while resolving their hard and soft dependencies by name.

  The engine's state is the registry plus a trace of what happened: each
  loader callback fired and each warning logged. The loaders' own
  `initPlugin`, `enablePlugin` and `disablePlugin` callbacks are not part of
  this model; each is recorded in the trace and assumed to leave its loader
  INITIALIZED, ENABLED or DISABLED respectively.

  The source recurses without bound on some dependency graphs (a plugin
  that needs itself during initialization, or longer cycles when enabling
  or disabling). Every transition therefore takes a fuel bound on the
  recursion depth and reports `OutOfFuel` when it is exhausted.
 */
module Lifecycle {
  import opened JavaLang
  import opened Text
  import opened Plugins

  datatype Callback = OnInit | OnEnable | OnDisable

  /** The warnings the engine logs, one per kind of message. */
  datatype Warning =
    | MissingDependency(dep: string)
    | SelfDependency
    | SoftSelfDependency
    | MutualDependency(dep: string)
    | SoftMutualDependency(dep: string)

  datatype Event = Called(callback: Callback, loader: nat) | Warned(warning: Warning, loader: nat)

  datatype Sys = Sys(reg: Registry, trace: seq<Event>)

  /**
    How a transition ended: it ran to the end, it returned early after
    forcing the loader's state, or it ran out of recursion depth.
   */
  datatype Outcome = Done(sys: Sys) | Bailed(sys: Sys) | OutOfFuel

  /** The state each callback is assumed to leave its loader in. */
  function After(cb: Callback): State
  {
    match cb
    case OnInit => Initialized
    case OnEnable => Enabled
    case OnDisable => Disabled
  }

  function Last(trace: seq<Event>): Event
    requires |trace| > 0
  {
    trace[|trace| - 1]
  }

  /** Only states change: same loaders, same names and dependencies, same order. */
  predicate SameLoaders(a: Registry, b: Registry)
  {
    |a| == |b| && forall k :: 0 <= k < |a| ==> b[k] == a[k].(state := b[k].state)
  }

  /** t is s after some more work: only states changed, and the trace only grew. */
  predicate Extends(s: Sys, t: Sys)
  {
    SameLoaders(s.reg, t.reg) && s.trace <= t.trace
  }

  /** A loader's state is forced and a warning logged. */
  function Abandon(s: Sys, i: nat, st: State, w: Warning): (t: Sys)
    requires i < |s.reg|
  {
    Sys(s.reg[i := s.reg[i].(state := st)], s.trace + [Warned(w, i)])
  }

  /** A loader's callback fires. */
  function Fire(s: Sys, i: nat, cb: Callback): (t: Sys)
    requires i < |s.reg|
  {
    Sys(s.reg[i := s.reg[i].(state := After(cb))], s.trace + [Called(cb, i)])
  }

  predicate Settled(st: State)
  {
    st == Initialized || st == Loaded
  }

  /**
    What initialization may do to states: a loader that was not INITIALIZED
    may end INITIALIZED or LOADED; nothing else changes. Loader i, whose
    initialization is in progress, may be changed even if it was initialized
    meanwhile.
   */
  predicate InitStepFor(a: Registry, b: Registry, i: int)
    requires |a| == |b|
  {
    forall k :: 0 <= k < |a| ==>
      b[k].state == a[k].state || ((a[k].state != Initialized || k == i) && Settled(b[k].state))
  }

  /**
    Initialization never recurses into an UNLOADED loader, so every loader
    that was UNLOADED, except possibly loader i itself, still is.
   */
  predicate KeepsUnloaded(a: Registry, b: Registry, i: int)
  {
    forall k :: 0 <= k < |a| && k < |b| && k != i && a[k].state == Unloaded ==> b[k].state == Unloaded
  }

  predicate InitStep(a: Registry, b: Registry)
    requires |a| == |b|
  {
    InitStepFor(a, b, -1)
  }

  predicate EnabledOrDisabled(st: State)
  {
    st == Enabled || st == Disabled
  }

  /**
    What enabling may do to states: a loader that was INITIALIZED may end
    ENABLED or DISABLED; nothing else changes, except loader i itself, whose
    enabling is in progress.
   */
  predicate EnableStepFor(a: Registry, b: Registry, i: int)
    requires |a| == |b|
  {
    forall k :: 0 <= k < |a| ==>
      b[k].state == a[k].state || ((a[k].state == Initialized || k == i) && EnabledOrDisabled(b[k].state))
  }

  /** Seen from outside one `enablePlugin` call: only INITIALIZED or DISABLED loaders change, to ENABLED or DISABLED. */
  predicate EnableStep(a: Registry, b: Registry)
    requires |a| == |b|
  {
    forall k :: 0 <= k < |a| ==>
      b[k].state == a[k].state || (CanEnable(a[k].state) && EnabledOrDisabled(b[k].state))
  }

  /** What disabling may do to states: ENABLED loaders may become DISABLED; nothing else changes. */
  predicate DisableStep(a: Registry, b: Registry)
    requires |a| == |b|
  {
    forall k :: 0 <= k < |a| ==>
      b[k].state == a[k].state || (a[k].state == Enabled && b[k].state == Disabled)
  }

  /** The last event is a warning about loader i. */
  predicate WarnedLast(s: Sys, i: nat)
  {
    |s.trace| > 0 && Last(s.trace).Warned? && Last(s.trace).loader == i
  }

  // ---------------------------------------------------------------- initPlugin

  /**
    `initPlugin(loader)`: nothing to do when already INITIALIZED; otherwise
    resolve the hard dependencies (a missing one forces LOADED and returns),
    then the soft ones, then fire the loader's own callback.
   */
  function InitPlugin(s: Sys, i: nat, fuel: nat): (r: Outcome)
    requires i < |s.reg|
    ensures r.OutOfFuel? || (Extends(s, r.sys) && InitStep(s.reg, r.sys.reg))
    ensures s.reg[i].state == Initialized ==> r == Done(s)
    ensures r.Done? ==> r.sys.reg[i].state == Initialized
    ensures r.Done? && s.reg[i].state != Initialized ==>
      |r.sys.trace| > 0 && Last(r.sys.trace) == Called(OnInit, i)
    ensures r.Bailed? ==>
      r.sys.reg[i].state == Loaded && WarnedLast(r.sys, i) && Last(r.sys.trace).warning.MissingDependency?
    ensures r.OutOfFuel? || KeepsUnloaded(s.reg, r.sys.reg, i)
    decreases fuel, 2, 0
  {
    if s.reg[i].state == Initialized then Done(s)
    else
      var hard := InitHard(s, i, s.reg[i].hardDeps, fuel);
      if !hard.Done? then hard
      else
        var soft := InitSoft(hard.sys, i, s.reg[i].softDeps, fuel);
        if soft.OutOfFuel? then OutOfFuel
        else Done(Fire(soft.sys, i, OnInit))
  }

  /** The hard-dependency loop of `initPlugin`. */
  function InitHard(s: Sys, i: nat, deps: seq<string>, fuel: nat): (r: Outcome)
    requires i < |s.reg|
    ensures r.OutOfFuel? || (Extends(s, r.sys) && InitStepFor(s.reg, r.sys.reg, i))
    ensures r.Bailed? ==>
      r.sys.reg[i].state == Loaded && WarnedLast(r.sys, i) && Last(r.sys.trace).warning.MissingDependency?
    ensures r.OutOfFuel? || KeepsUnloaded(s.reg, r.sys.reg, i)
    ensures r.Done? ==> KeepsUnloaded(s.reg, r.sys.reg, -1)
    decreases fuel, 1, |deps|
  {
    if deps == [] then Done(s)
    else
      var found := FindLoader(s.reg, deps[0]);
      if found.None? || s.reg[found.value].state == Unloaded then
        Bailed(Abandon(s, i, Loaded, MissingDependency(deps[0])))
      else
        var j := found.value;
        var m :=
          if s.reg[j].state == Initialized then Done(s)
          else if fuel == 0 then OutOfFuel
          else InitPlugin(s, j, fuel - 1);
        if m.OutOfFuel? then OutOfFuel else InitHard(m.sys, i, deps[1..], fuel)
  }

  /** The soft-dependency loop of `initPlugin`: missing or unloaded ones are skipped. */
  function InitSoft(s: Sys, i: nat, deps: seq<string>, fuel: nat): (r: Outcome)
    requires i < |s.reg|
    ensures !r.Bailed?
    ensures r.Done? ==> Extends(s, r.sys) && InitStep(s.reg, r.sys.reg)
    ensures r.Done? ==> KeepsUnloaded(s.reg, r.sys.reg, -1)
    decreases fuel, 0, |deps|
  {
    if deps == [] then Done(s)
    else
      var found := FindLoader(s.reg, deps[0]);
      if found.None? || s.reg[found.value].state == Unloaded then InitSoft(s, i, deps[1..], fuel)
      else
        var j := found.value;
        var m :=
          if s.reg[j].state == Initialized then Done(s)
          else if fuel == 0 then OutOfFuel
          else InitPlugin(s, j, fuel - 1);
        if m.OutOfFuel? then OutOfFuel else InitSoft(m.sys, i, deps[1..], fuel)
  }

  // -------------------------------------------------------------- enablePlugin

  predicate CanEnable(st: State)
  {
    st == Initialized || st == Disabled
  }

  /**
    `enablePlugin(loader)`: nothing to do unless INITIALIZED or DISABLED;
    otherwise check the hard dependencies, then the soft ones, enabling those
    that are INITIALIZED, and fire the loader's own callback. A failed check
    forces DISABLED and returns.
   */
  function EnablePlugin(s: Sys, i: nat, fuel: nat): (r: Outcome)
    requires i < |s.reg|
    ensures r.OutOfFuel? || (Extends(s, r.sys) && EnableStepFor(s.reg, r.sys.reg, i))
    ensures r.OutOfFuel? || EnableStep(s.reg, r.sys.reg)
    ensures !CanEnable(s.reg[i].state) ==> r == Done(s)
    ensures CanEnable(s.reg[i].state) && r.Done? ==>
      r.sys.reg[i].state == Enabled && |r.sys.trace| > 0 && Last(r.sys.trace) == Called(OnEnable, i)
    ensures r.Bailed? ==> r.sys.reg[i].state == Disabled && WarnedLast(r.sys, i)
    decreases fuel, 2, 0
  {
    if !CanEnable(s.reg[i].state) then Done(s)
    else
      var hard := EnableHard(s, i, s.reg[i].hardDeps, fuel);
      if !hard.Done? then hard
      else
        var soft := EnableSoft(hard.sys, i, s.reg[i].softDeps, fuel);
        if !soft.Done? then soft
        else Done(Fire(soft.sys, i, OnEnable))
  }

  /** The hard-dependency loop of `enablePlugin`. */
  function EnableHard(s: Sys, i: nat, deps: seq<string>, fuel: nat): (r: Outcome)
    requires i < |s.reg|
    ensures r.OutOfFuel? || (Extends(s, r.sys) && EnableStepFor(s.reg, r.sys.reg, i))
    ensures r.Bailed? ==> r.sys.reg[i].state == Disabled && WarnedLast(r.sys, i)
    decreases fuel, 1, |deps|
  {
    if deps == [] then Done(s)
    else
      var me := s.reg[i];
      var found := FindLoader(s.reg, deps[0]);
      if found.None? then Bailed(Abandon(s, i, Disabled, MissingDependency(deps[0])))
      else
        var j := found.value;
        var dep := s.reg[j];
        if dep.state == Unloaded || dep.state == Loaded then
          Bailed(Abandon(s, i, Disabled, MissingDependency(deps[0])))
        else if EqualsIgnoreCase(dep.name, me.name) then
          Bailed(Abandon(s, i, Disabled, SelfDependency))
        else if DependsOn(dep, me.name) || SoftDependsOn(dep, me.name) then
          Bailed(Abandon(s, i, Disabled, MutualDependency(dep.name)))
        else
          var m :=
            if dep.state != Initialized then Done(s)
            else if fuel == 0 then OutOfFuel
            else EnablePlugin(s, j, fuel - 1);
          if m.OutOfFuel? then OutOfFuel else EnableHard(m.sys, i, deps[1..], fuel)
  }

  /** The soft-dependency loop of `enablePlugin`: missing ones are skipped. */
  function EnableSoft(s: Sys, i: nat, deps: seq<string>, fuel: nat): (r: Outcome)
    requires i < |s.reg|
    ensures r.OutOfFuel? || (Extends(s, r.sys) && EnableStepFor(s.reg, r.sys.reg, i))
    ensures r.Bailed? ==> r.sys.reg[i].state == Disabled && WarnedLast(r.sys, i)
    decreases fuel, 0, |deps|
  {
    if deps == [] then Done(s)
    else
      var me := s.reg[i];
      var found := FindLoader(s.reg, deps[0]);
      if found.None? then EnableSoft(s, i, deps[1..], fuel)
      else
        var j := found.value;
        var dep := s.reg[j];
        if EqualsIgnoreCase(dep.name, me.name) then
          Bailed(Abandon(s, i, Disabled, SoftSelfDependency))
        else if DependsOn(dep, me.name) || SoftDependsOn(dep, me.name) then
          Bailed(Abandon(s, i, Disabled, SoftMutualDependency(dep.name)))
        else
          var m :=
            if dep.state != Initialized then Done(s)
            else if fuel == 0 then OutOfFuel
            else EnablePlugin(s, j, fuel - 1);
          if m.OutOfFuel? then OutOfFuel else EnableSoft(m.sys, i, deps[1..], fuel)
  }

  // ------------------------------------------------------------- disablePlugin

  /**
    `disablePlugin(loader)`: nothing to do unless ENABLED; otherwise disable
    every loader that hard-depends on this one, in registry order, then fire
    this loader's callback.
   */
  function DisablePlugin(s: Sys, i: nat, fuel: nat): (r: Outcome)
    requires i < |s.reg|
    ensures !r.Bailed?
    ensures r.Done? ==> Extends(s, r.sys) && DisableStep(s.reg, r.sys.reg)
    ensures s.reg[i].state != Enabled ==> r == Done(s)
    ensures s.reg[i].state == Enabled && r.Done? ==>
      r.sys.reg[i].state == Disabled && |r.sys.trace| > 0 && Last(r.sys.trace) == Called(OnDisable, i)
    ensures s.reg[i].state == Enabled && r.Done? ==>
      forall k :: 0 <= k < |s.reg| && DependsOn(s.reg[k], s.reg[i].name) ==> r.sys.reg[k].state != Enabled
    decreases fuel, 1, 0
  {
    if s.reg[i].state != Enabled then Done(s)
    else
      var m := DisableDependents(s, s.reg[i].name, 0, fuel);
      if m.OutOfFuel? then OutOfFuel else Done(Fire(m.sys, i, OnDisable))
  }

  /** The scan of `disablePlugin`: disable each loader, from index k on, that hard-depends on name. */
  function DisableDependents(s: Sys, name: string, k: nat, fuel: nat): (r: Outcome)
    requires k <= |s.reg|
    ensures !r.Bailed?
    ensures r.Done? ==> Extends(s, r.sys) && DisableStep(s.reg, r.sys.reg)
    ensures r.Done? ==>
      forall l :: k <= l < |s.reg| && DependsOn(s.reg[l], name) ==> r.sys.reg[l].state != Enabled
    decreases fuel, 0, |s.reg| - k
  {
    if k == |s.reg| then Done(s)
    else
      var m :=
        if !DependsOn(s.reg[k], name) then Done(s)
        else if fuel == 0 then OutOfFuel
        else DisablePlugin(s, k, fuel - 1);
      if m.OutOfFuel? then OutOfFuel else DisableDependents(m.sys, name, k + 1, fuel)
  }

  // ------------------------------------------------------------ batch drivers

  /** The loop of `loadPlugins`: initialize every loader from index k on, in registry order. */
  function InitFrom(s: Sys, k: nat, fuel: nat): (r: Outcome)
    requires k <= |s.reg|
    ensures !r.Bailed?
    ensures r.Done? ==> Extends(s, r.sys) && InitStep(s.reg, r.sys.reg)
    ensures r.Done? ==>
      forall l :: 0 <= l < |s.reg| && (k <= l || Settled(s.reg[l].state)) ==> Settled(r.sys.reg[l].state)
    decreases |s.reg| - k
  {
    if k == |s.reg| then Done(s)
    else
      var m := InitPlugin(s, k, fuel);
      if m.OutOfFuel? then OutOfFuel else InitFrom(m.sys, k + 1, fuel)
  }

  /** `loadPlugins`, after the managers have discovered their loaders. */
  function LoadPlugins(s: Sys, fuel: nat): (r: Outcome)
    ensures !r.Bailed?
    ensures r.Done? ==> Extends(s, r.sys) && InitStep(s.reg, r.sys.reg)
    ensures r.Done? ==> forall l :: 0 <= l < |r.sys.reg| ==> Settled(r.sys.reg[l].state)
  {
    InitFrom(s, 0, fuel)
  }

  /** The loop of `enablePlugins` from index k on. */
  function EnableFrom(s: Sys, k: nat, fuel: nat): (r: Outcome)
    requires k <= |s.reg|
    ensures !r.Bailed?
    ensures r.Done? ==> Extends(s, r.sys) && EnableStep(s.reg, r.sys.reg)
    ensures r.Done? ==>
      forall l :: 0 <= l < |s.reg| && (k <= l || s.reg[l].state != Initialized) ==> r.sys.reg[l].state != Initialized
    decreases |s.reg| - k
  {
    if k == |s.reg| then Done(s)
    else
      var m := EnablePlugin(s, k, fuel);
      if m.OutOfFuel? then OutOfFuel else EnableFrom(m.sys, k + 1, fuel)
  }

  /** `enablePlugins`: afterwards no loader is left merely INITIALIZED. */
  function EnablePlugins(s: Sys, fuel: nat): (r: Outcome)
    ensures !r.Bailed?
    ensures r.Done? ==> Extends(s, r.sys) && EnableStep(s.reg, r.sys.reg)
    ensures r.Done? ==> forall l :: 0 <= l < |r.sys.reg| ==> r.sys.reg[l].state != Initialized
  {
    EnableFrom(s, 0, fuel)
  }

  /** The loop of `disablePlugins` from index k on. */
  function DisableFrom(s: Sys, k: nat, fuel: nat): (r: Outcome)
    requires k <= |s.reg|
    ensures !r.Bailed?
    ensures r.Done? ==> Extends(s, r.sys) && DisableStep(s.reg, r.sys.reg)
    ensures r.Done? ==>
      forall l :: 0 <= l < |s.reg| && (k <= l || s.reg[l].state != Enabled) ==> r.sys.reg[l].state != Enabled
    decreases |s.reg| - k
  {
    if k == |s.reg| then Done(s)
    else
      var m := DisablePlugin(s, k, fuel);
      if m.OutOfFuel? then OutOfFuel else DisableFrom(m.sys, k + 1, fuel)
  }

  /** `disablePlugins`: afterwards no loader is ENABLED. */
  function DisablePlugins(s: Sys, fuel: nat): (r: Outcome)
    ensures !r.Bailed?
    ensures r.Done? ==> Extends(s, r.sys) && DisableStep(s.reg, r.sys.reg)
    ensures r.Done? ==> forall l :: 0 <= l < |r.sys.reg| ==> r.sys.reg[l].state != Enabled
  {
    DisableFrom(s, 0, fuel)
  }
}
