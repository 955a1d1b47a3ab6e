/**
  Properties of the plugin lifecycle engine: when a transition runs to the
  end with exactly one callback, when it stops at a dependency, which
  dependency graphs make it recurse forever, and how disabling cascades.
 */
module LifecycleProofs {
  import opened JavaLang
  import opened Text
  import opened Plugins
  import opened Lifecycle

  // ------------------------------------------------------- shared facts

  /** Lookups by name see only names, so a registry whose states changed finds the same loader. */
  lemma FindLoaderSameLoaders(a: Registry, b: Registry, d: string)
    requires SameLoaders(a, b)
    ensures FindLoader(a, d) == FindLoader(b, d)
  {
    assert forall k :: 0 <= k < |a| ==> (NameMatches(a, k, d) <==> NameMatches(b, k, d)) by {
      forall k | 0 <= k < |a| ensures NameMatches(a, k, d) <==> NameMatches(b, k, d) {
        assert b[k].name == a[k].name;
      }
    }
  }

  // ------------------------------------------------------------ initPlugin

  /** A hard dependency that initialization can pass without recursing: found and INITIALIZED. */
  predicate HardInitialized(reg: Registry, d: string)
  {
    var f := FindLoader(reg, d);
    f.Some? && reg[f.value].state == Initialized
  }

  /** A hard dependency that stops initialization: absent or UNLOADED. */
  predicate HardMissing(reg: Registry, d: string)
  {
    var f := FindLoader(reg, d);
    f.None? || reg[f.value].state == Unloaded
  }

  /** A soft dependency that initialization passes without recursing: absent, UNLOADED or INITIALIZED. */
  predicate SoftSettled(reg: Registry, d: string)
  {
    var f := FindLoader(reg, d);
    f.None? || reg[f.value].state == Unloaded || reg[f.value].state == Initialized
  }

  lemma {:induction false} InitHardReady(s: Sys, i: nat, deps: seq<string>, fuel: nat)
    requires i < |s.reg|
    requires forall k :: 0 <= k < |deps| ==> HardInitialized(s.reg, deps[k])
    ensures InitHard(s, i, deps, fuel) == Done(s)
    decreases |deps|
  {
    if deps != [] {
      assert HardInitialized(s.reg, deps[0]);
      InitHardReady(s, i, deps[1..], fuel);
    }
  }

  lemma {:induction false} InitSoftReady(s: Sys, i: nat, deps: seq<string>, fuel: nat)
    requires i < |s.reg|
    requires forall k :: 0 <= k < |deps| ==> SoftSettled(s.reg, deps[k])
    ensures InitSoft(s, i, deps, fuel) == Done(s)
    decreases |deps|
  {
    if deps != [] {
      assert SoftSettled(s.reg, deps[0]);
      InitSoftReady(s, i, deps[1..], fuel);
    }
  }

  /**
    When every hard dependency is already INITIALIZED and every soft one
    needs no work, initialization changes only this loader and fires its
    callback exactly once.
   */
  lemma InitReady(s: Sys, i: nat, fuel: nat)
    requires i < |s.reg| && s.reg[i].state != Initialized
    requires forall k :: 0 <= k < |s.reg[i].hardDeps| ==> HardInitialized(s.reg, s.reg[i].hardDeps[k])
    requires forall k :: 0 <= k < |s.reg[i].softDeps| ==> SoftSettled(s.reg, s.reg[i].softDeps[k])
    ensures InitPlugin(s, i, fuel) == Done(Fire(s, i, OnInit))
  {
    InitHardReady(s, i, s.reg[i].hardDeps, fuel);
    InitSoftReady(s, i, s.reg[i].softDeps, fuel);
  }

  lemma {:induction false} InitHardStopsAt(s: Sys, i: nat, deps: seq<string>, n: nat, fuel: nat)
    requires i < |s.reg| && n < |deps|
    requires forall k :: 0 <= k < n ==> HardInitialized(s.reg, deps[k])
    requires HardMissing(s.reg, deps[n])
    ensures InitHard(s, i, deps, fuel) == Bailed(Abandon(s, i, Loaded, MissingDependency(deps[n])))
    decreases n
  {
    if n > 0 {
      assert HardInitialized(s.reg, deps[0]);
      InitHardStopsAt(s, i, deps[1..], n - 1, fuel);
    }
  }

  /**
    The first missing hard dependency forces the loader to LOADED with one
    warning naming it; no callback fires, and the dependencies after it are
    never looked at.
   */
  lemma InitStopsAtMissing(s: Sys, i: nat, n: nat, fuel: nat)
    requires i < |s.reg| && s.reg[i].state != Initialized && n < |s.reg[i].hardDeps|
    requires forall k :: 0 <= k < n ==> HardInitialized(s.reg, s.reg[i].hardDeps[k])
    requires HardMissing(s.reg, s.reg[i].hardDeps[n])
    ensures InitPlugin(s, i, fuel) ==
      Bailed(Sys(s.reg[i := s.reg[i].(state := Loaded)],
                 s.trace + [Warned(MissingDependency(s.reg[i].hardDeps[n]), i)]))
  {
    InitHardStopsAt(s, i, s.reg[i].hardDeps, n, fuel);
  }

  /** A missing hard dependency stays missing while initialization recurses into a loader j that is not UNLOADED. */
  lemma HardMissingKept(a: Registry, b: Registry, j: nat, d: string)
    requires SameLoaders(a, b) && j < |a| && a[j].state != Unloaded
    requires KeepsUnloaded(a, b, j)
    requires HardMissing(a, d)
    ensures HardMissing(b, d)
  {
    FindLoaderSameLoaders(a, b, d);
  }

  lemma {:induction false} InitHardBlocked(s: Sys, i: nat, deps: seq<string>, n: nat, fuel: nat)
    requires i < |s.reg| && n < |deps|
    requires HardMissing(s.reg, deps[n])
    ensures !InitHard(s, i, deps, fuel).Done?
    decreases n
  {
    var found := FindLoader(s.reg, deps[0]);
    if n > 0 && found.Some? && s.reg[found.value].state != Unloaded {
      var j := found.value;
      var m :=
        if s.reg[j].state == Initialized then Done(s)
        else if fuel == 0 then OutOfFuel
        else InitPlugin(s, j, fuel - 1);
      if !m.OutOfFuel? {
        HardMissingKept(s.reg, m.sys.reg, j, deps[n]);
        assert deps[1..][n - 1] == deps[n];
        InitHardBlocked(m.sys, i, deps[1..], n - 1, fuel);
      }
    }
  }

  /**
    A missing hard dependency anywhere in the list blocks initialization,
    whatever the dependencies before it did meanwhile: the loader never
    reaches its own callback, and if the call finishes it is LOADED.
   */
  lemma InitBlockedByMissing(s: Sys, i: nat, n: nat, fuel: nat)
    requires i < |s.reg| && s.reg[i].state != Initialized && n < |s.reg[i].hardDeps|
    requires HardMissing(s.reg, s.reg[i].hardDeps[n])
    ensures !InitPlugin(s, i, fuel).Done?
    ensures InitPlugin(s, i, fuel).OutOfFuel? || InitPlugin(s, i, fuel).sys.reg[i].state == Loaded
  {
    InitHardBlocked(s, i, s.reg[i].hardDeps, n, fuel);
  }

  /**
    Two loaders that are each the other's first hard dependency, neither
    INITIALIZED nor UNLOADED, make initialization recurse without end,
    whatever depth is allowed. With a == b this is a loader that names itself
    as its first hard dependency.
   */
  lemma {:induction false} InitCycleDiverges(s: Sys, a: nat, b: nat, fuel: nat)
    requires a < |s.reg| && b < |s.reg|
    requires s.reg[a].state != Initialized && s.reg[a].state != Unloaded
    requires s.reg[b].state != Initialized && s.reg[b].state != Unloaded
    requires |s.reg[a].hardDeps| > 0 && FindLoader(s.reg, s.reg[a].hardDeps[0]) == Some(b)
    requires |s.reg[b].hardDeps| > 0 && FindLoader(s.reg, s.reg[b].hardDeps[0]) == Some(a)
    ensures InitPlugin(s, a, fuel) == OutOfFuel
    ensures InitPlugin(s, b, fuel) == OutOfFuel
    decreases fuel
  {
    if fuel > 0 {
      InitCycleDiverges(s, a, b, fuel - 1);
    }
  }

  // ---------------------------------------------------------- enablePlugin

  /** A hard dependency that enabling passes without recursing and without objecting. */
  predicate HardSettled(reg: Registry, me: Loader, d: string)
  {
    var f := FindLoader(reg, d);
    f.Some? && EnabledOrDisabled(reg[f.value].state)
    && !EqualsIgnoreCase(reg[f.value].name, me.name)
    && !DependsOn(reg[f.value], me.name) && !SoftDependsOn(reg[f.value], me.name)
  }

  /** A hard dependency that enabling refuses: absent, not initialized, the loader itself, or depending back on it. */
  predicate HardRefused(reg: Registry, me: Loader, d: string)
  {
    var f := FindLoader(reg, d);
    f.None? || reg[f.value].state == Unloaded || reg[f.value].state == Loaded
    || EqualsIgnoreCase(reg[f.value].name, me.name)
    || DependsOn(reg[f.value], me.name) || SoftDependsOn(reg[f.value], me.name)
  }

  /** The warning enabling logs for a hard dependency it refuses. */
  function HardRefusal(reg: Registry, me: Loader, d: string): Warning
  {
    var f := FindLoader(reg, d);
    if f.None? || reg[f.value].state == Unloaded || reg[f.value].state == Loaded then MissingDependency(d)
    else if EqualsIgnoreCase(reg[f.value].name, me.name) then SelfDependency
    else MutualDependency(reg[f.value].name)
  }

  /** A soft dependency that enabling refuses: present, and the loader itself or depending back on it. */
  predicate SoftRefused(reg: Registry, me: Loader, d: string)
  {
    var f := FindLoader(reg, d);
    f.Some? &&
      (EqualsIgnoreCase(reg[f.value].name, me.name)
       || DependsOn(reg[f.value], me.name) || SoftDependsOn(reg[f.value], me.name))
  }

  /** The warning enabling logs for a soft dependency it refuses. */
  function SoftRefusal(reg: Registry, me: Loader, d: string): Warning
    requires SoftRefused(reg, me, d)
  {
    var f := FindLoader(reg, d);
    if EqualsIgnoreCase(reg[f.value].name, me.name) then SoftSelfDependency
    else SoftMutualDependency(reg[f.value].name)
  }

  /** A soft dependency that enabling passes without recursing and without objecting. */
  predicate SoftEnableSettled(reg: Registry, me: Loader, d: string)
  {
    var f := FindLoader(reg, d);
    f.None? ||
      (reg[f.value].state != Initialized
       && !EqualsIgnoreCase(reg[f.value].name, me.name)
       && !DependsOn(reg[f.value], me.name) && !SoftDependsOn(reg[f.value], me.name))
  }

  lemma {:induction false} EnableHardReady(s: Sys, i: nat, deps: seq<string>, fuel: nat)
    requires i < |s.reg|
    requires forall k :: 0 <= k < |deps| ==> HardSettled(s.reg, s.reg[i], deps[k])
    ensures EnableHard(s, i, deps, fuel) == Done(s)
    decreases |deps|
  {
    if deps != [] {
      assert HardSettled(s.reg, s.reg[i], deps[0]);
      EnableHardReady(s, i, deps[1..], fuel);
    }
  }

  lemma {:induction false} EnableSoftReady(s: Sys, i: nat, deps: seq<string>, fuel: nat)
    requires i < |s.reg|
    requires forall k :: 0 <= k < |deps| ==> SoftEnableSettled(s.reg, s.reg[i], deps[k])
    ensures EnableSoft(s, i, deps, fuel) == Done(s)
    decreases |deps|
  {
    if deps != [] {
      assert SoftEnableSettled(s.reg, s.reg[i], deps[0]);
      EnableSoftReady(s, i, deps[1..], fuel);
    }
  }

  /**
    When no dependency objects and none is merely INITIALIZED, enabling
    recurses nowhere: it fires this loader's callback exactly once and
    changes nothing else.
   */
  lemma EnableReady(s: Sys, i: nat, fuel: nat)
    requires i < |s.reg| && CanEnable(s.reg[i].state)
    requires forall k :: 0 <= k < |s.reg[i].hardDeps| ==> HardSettled(s.reg, s.reg[i], s.reg[i].hardDeps[k])
    requires forall k :: 0 <= k < |s.reg[i].softDeps| ==> SoftEnableSettled(s.reg, s.reg[i], s.reg[i].softDeps[k])
    ensures EnablePlugin(s, i, fuel) == Done(Fire(s, i, OnEnable))
  {
    EnableHardReady(s, i, s.reg[i].hardDeps, fuel);
    EnableSoftReady(s, i, s.reg[i].softDeps, fuel);
  }

  lemma {:induction false} EnableHardStopsAt(s: Sys, i: nat, deps: seq<string>, n: nat, fuel: nat)
    requires i < |s.reg| && n < |deps|
    requires forall k :: 0 <= k < n ==> HardSettled(s.reg, s.reg[i], deps[k])
    requires HardRefused(s.reg, s.reg[i], deps[n])
    ensures EnableHard(s, i, deps, fuel) == Bailed(Abandon(s, i, Disabled, HardRefusal(s.reg, s.reg[i], deps[n])))
    decreases n
  {
    if n > 0 {
      assert HardSettled(s.reg, s.reg[i], deps[0]);
      EnableHardStopsAt(s, i, deps[1..], n - 1, fuel);
    }
  }

  /**
    The first hard dependency enabling refuses forces the loader to DISABLED
    with one warning, and its callback never fires.
   */
  lemma EnableStopsAtRefused(s: Sys, i: nat, n: nat, fuel: nat)
    requires i < |s.reg| && CanEnable(s.reg[i].state) && n < |s.reg[i].hardDeps|
    requires forall k :: 0 <= k < n ==> HardSettled(s.reg, s.reg[i], s.reg[i].hardDeps[k])
    requires HardRefused(s.reg, s.reg[i], s.reg[i].hardDeps[n])
    ensures EnablePlugin(s, i, fuel) ==
      Bailed(Sys(s.reg[i := s.reg[i].(state := Disabled)],
                 s.trace + [Warned(HardRefusal(s.reg, s.reg[i], s.reg[i].hardDeps[n]), i)]))
  {
    EnableHardStopsAt(s, i, s.reg[i].hardDeps, n, fuel);
  }

  lemma {:induction false} EnableSoftStopsAt(s: Sys, i: nat, deps: seq<string>, n: nat, fuel: nat)
    requires i < |s.reg| && n < |deps|
    requires forall k :: 0 <= k < n ==> SoftEnableSettled(s.reg, s.reg[i], deps[k])
    requires SoftRefused(s.reg, s.reg[i], deps[n])
    ensures EnableSoft(s, i, deps, fuel) == Bailed(Abandon(s, i, Disabled, SoftRefusal(s.reg, s.reg[i], deps[n])))
    decreases n
  {
    if n > 0 {
      assert SoftEnableSettled(s.reg, s.reg[i], deps[0]);
      EnableSoftStopsAt(s, i, deps[1..], n - 1, fuel);
    }
  }

  /**
    With the hard dependencies settled, the first soft dependency that is
    the loader itself, ignoring case, or that depends back on it forces the
    loader to DISABLED with one warning, and its callback never fires.
   */
  lemma EnableStopsAtSoftRefused(s: Sys, i: nat, n: nat, fuel: nat)
    requires i < |s.reg| && CanEnable(s.reg[i].state) && n < |s.reg[i].softDeps|
    requires forall k :: 0 <= k < |s.reg[i].hardDeps| ==> HardSettled(s.reg, s.reg[i], s.reg[i].hardDeps[k])
    requires forall k :: 0 <= k < n ==> SoftEnableSettled(s.reg, s.reg[i], s.reg[i].softDeps[k])
    requires SoftRefused(s.reg, s.reg[i], s.reg[i].softDeps[n])
    ensures EnablePlugin(s, i, fuel) ==
      Bailed(Sys(s.reg[i := s.reg[i].(state := Disabled)],
                 s.trace + [Warned(SoftRefusal(s.reg, s.reg[i], s.reg[i].softDeps[n]), i)]))
  {
    EnableHardReady(s, i, s.reg[i].hardDeps, fuel);
    EnableSoftStopsAt(s, i, s.reg[i].softDeps, n, fuel);
  }

  /** A refused hard dependency stays refused while enabling changes states: refusal looks at names and at UNLOADED or LOADED, which enabling never changes. */
  lemma HardRefusedKept(a: Registry, b: Registry, i: nat, d: string)
    requires SameLoaders(a, b) && EnableStep(a, b) && i < |a|
    requires HardRefused(a, a[i], d)
    ensures HardRefused(b, b[i], d)
  {
    FindLoaderSameLoaders(a, b, d);
    var f := FindLoader(a, d);
    if f.Some? {
      assert b[f.value].name == a[f.value].name && b[f.value].hardDeps == a[f.value].hardDeps;
      assert b[f.value].softDeps == a[f.value].softDeps && b[i].name == a[i].name;
    }
  }

  /** A refused soft dependency stays refused while enabling changes states: refusal looks at names only. */
  lemma SoftRefusedKept(a: Registry, b: Registry, i: nat, d: string)
    requires SameLoaders(a, b) && i < |a|
    requires SoftRefused(a, a[i], d)
    ensures SoftRefused(b, b[i], d)
  {
    FindLoaderSameLoaders(a, b, d);
    var f := FindLoader(a, d);
    assert b[f.value].name == a[f.value].name && b[f.value].hardDeps == a[f.value].hardDeps;
    assert b[f.value].softDeps == a[f.value].softDeps && b[i].name == a[i].name;
  }

  lemma {:induction false} EnableHardBlocked(s: Sys, i: nat, deps: seq<string>, n: nat, fuel: nat)
    requires i < |s.reg| && n < |deps|
    requires HardRefused(s.reg, s.reg[i], deps[n])
    ensures !EnableHard(s, i, deps, fuel).Done?
    decreases n
  {
    var me := s.reg[i];
    var found := FindLoader(s.reg, deps[0]);
    if n > 0 && found.Some? {
      var j := found.value;
      var dep := s.reg[j];
      if !(dep.state == Unloaded || dep.state == Loaded || EqualsIgnoreCase(dep.name, me.name)
           || DependsOn(dep, me.name) || SoftDependsOn(dep, me.name)) {
        var m :=
          if dep.state != Initialized then Done(s)
          else if fuel == 0 then OutOfFuel
          else EnablePlugin(s, j, fuel - 1);
        if !m.OutOfFuel? {
          HardRefusedKept(s.reg, m.sys.reg, i, deps[n]);
          assert deps[1..][n - 1] == deps[n];
          EnableHardBlocked(m.sys, i, deps[1..], n - 1, fuel);
        }
      }
    }
  }

  lemma {:induction false} EnableSoftBlocked(s: Sys, i: nat, deps: seq<string>, n: nat, fuel: nat)
    requires i < |s.reg| && n < |deps|
    requires SoftRefused(s.reg, s.reg[i], deps[n])
    ensures !EnableSoft(s, i, deps, fuel).Done?
    decreases n
  {
    var me := s.reg[i];
    var found := FindLoader(s.reg, deps[0]);
    assert deps[1..] == [] || deps[1..][0] == deps[1];
    if n > 0 {
      assert deps[1..][n - 1] == deps[n];
      if found.None? {
        EnableSoftBlocked(s, i, deps[1..], n - 1, fuel);
      } else {
        var j := found.value;
        var dep := s.reg[j];
        if !(EqualsIgnoreCase(dep.name, me.name) || DependsOn(dep, me.name) || SoftDependsOn(dep, me.name)) {
          var m :=
            if dep.state != Initialized then Done(s)
            else if fuel == 0 then OutOfFuel
            else EnablePlugin(s, j, fuel - 1);
          if !m.OutOfFuel? {
            SoftRefusedKept(s.reg, m.sys.reg, i, deps[n]);
            EnableSoftBlocked(m.sys, i, deps[1..], n - 1, fuel);
          }
        }
      }
    }
  }

  /**
    A refused hard dependency anywhere in the list blocks enabling, whatever
    the dependencies before it did meanwhile: the loader never reaches its
    own callback, and if the call finishes it is DISABLED.
   */
  lemma EnableBlockedByRefused(s: Sys, i: nat, n: nat, fuel: nat)
    requires i < |s.reg| && CanEnable(s.reg[i].state) && n < |s.reg[i].hardDeps|
    requires HardRefused(s.reg, s.reg[i], s.reg[i].hardDeps[n])
    ensures !EnablePlugin(s, i, fuel).Done?
    ensures EnablePlugin(s, i, fuel).OutOfFuel? || EnablePlugin(s, i, fuel).sys.reg[i].state == Disabled
  {
    EnableHardBlocked(s, i, s.reg[i].hardDeps, n, fuel);
  }

  /**
    The same for a refused soft dependency anywhere in the list, whatever
    the hard dependencies and the earlier soft ones did meanwhile.
   */
  lemma EnableBlockedBySoftRefused(s: Sys, i: nat, n: nat, fuel: nat)
    requires i < |s.reg| && CanEnable(s.reg[i].state) && n < |s.reg[i].softDeps|
    requires SoftRefused(s.reg, s.reg[i], s.reg[i].softDeps[n])
    ensures !EnablePlugin(s, i, fuel).Done?
    ensures EnablePlugin(s, i, fuel).OutOfFuel? || EnablePlugin(s, i, fuel).sys.reg[i].state == Disabled
  {
    var hard := EnableHard(s, i, s.reg[i].hardDeps, fuel);
    if hard.Done? {
      SoftRefusedKept(s.reg, hard.sys.reg, i, s.reg[i].softDeps[n]);
      EnableSoftBlocked(hard.sys, i, s.reg[i].softDeps, n, fuel);
    }
  }

  lemma {:induction false} EnableHardSelf(s: Sys, i: nat, deps: seq<string>, fuel: nat)
    requires i < |s.reg|
    requires exists n :: 0 <= n < |deps| && EqualsIgnoreCase(deps[n], s.reg[i].name)
    ensures !EnableHard(s, i, deps, fuel).Done?
    decreases |deps|
  {
    var me := s.reg[i];
    if EqualsIgnoreCase(deps[0], me.name) {
      EqualsIgnoreCaseSymmetric(deps[0], me.name);
      assert NameMatches(s.reg, i, deps[0]);
      var f := FindLoader(s.reg, deps[0]);
      EqualsIgnoreCaseTransitive(s.reg[f.value].name, deps[0], me.name);
    } else {
      var n :| 0 <= n < |deps| && EqualsIgnoreCase(deps[n], me.name);
      assert 0 <= n - 1 < |deps[1..]| && EqualsIgnoreCase(deps[1..][n - 1], me.name);
      var f := FindLoader(s.reg, deps[0]);
      if f.Some? {
        var j := f.value;
        var dep := s.reg[j];
        if !(dep.state == Unloaded || dep.state == Loaded || EqualsIgnoreCase(dep.name, me.name)
             || DependsOn(dep, me.name) || SoftDependsOn(dep, me.name)) {
          var m :=
            if dep.state != Initialized then Done(s)
            else if fuel == 0 then OutOfFuel
            else EnablePlugin(s, j, fuel - 1);
          if !m.OutOfFuel? {
            assert m.sys.reg[i].name == me.name;
            EnableHardSelf(m.sys, i, deps[1..], fuel);
          }
        }
      }
    }
  }

  /**
    A loader that names itself, in any letter case, among its hard
    dependencies is never enabled: enabling it ends DISABLED, or recurses
    without end.
   */
  lemma EnableSelfDependency(s: Sys, i: nat, fuel: nat)
    requires i < |s.reg| && CanEnable(s.reg[i].state)
    requires exists n :: 0 <= n < |s.reg[i].hardDeps| && EqualsIgnoreCase(s.reg[i].hardDeps[n], s.reg[i].name)
    ensures var r := EnablePlugin(s, i, fuel);
      r.OutOfFuel? || (r.Bailed? && r.sys.reg[i].state == Disabled)
  {
    EnableHardSelf(s, i, s.reg[i].hardDeps, fuel);
  }

  // --------------------------------------------------------- disablePlugin

  /** No loader from index k on both hard-depends on name and is ENABLED. */
  predicate NoEnabledDependents(reg: Registry, name: string, k: nat)
  {
    forall l :: k <= l < |reg| && DependsOn(reg[l], name) ==> reg[l].state != Enabled
  }

  lemma {:induction false} DisableDependentsIdle(s: Sys, name: string, k: nat, fuel: nat)
    requires k <= |s.reg| && fuel > 0
    requires NoEnabledDependents(s.reg, name, k)
    ensures DisableDependents(s, name, k, fuel) == Done(s)
    decreases |s.reg| - k
  {
    if k < |s.reg| {
      DisableDependentsIdle(s, name, k + 1, fuel);
    }
  }

  /**
    Disabling a loader that nothing ENABLED depends on fires only its own
    callback.
   */
  lemma DisableLeaf(s: Sys, i: nat, fuel: nat)
    requires i < |s.reg| && s.reg[i].state == Enabled && fuel > 0
    requires NoEnabledDependents(s.reg, s.reg[i].name, 0)
    ensures DisablePlugin(s, i, fuel) == Done(Fire(s, i, OnDisable))
  {
    DisableDependentsIdle(s, s.reg[i].name, 0, fuel);
  }
}
