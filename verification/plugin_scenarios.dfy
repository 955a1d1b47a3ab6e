/**
  Concrete registries run through the lifecycle engine: the usual
  dependency chain, a missing dependency, an absent soft dependency, a
  mutual dependency, a disable cascade, and two registries on which the
  engine leaves a loader further along than one of its hard dependencies.
 */
module LifecycleScenarios {
  import opened JavaLang
  import opened Text
  import opened Plugins
  import opened Lifecycle

  function Plugin(name: string, hard: seq<string>, soft: seq<string>, st: State, plugin: nat): Loader
  {
    Loader(name, "1.0", hard, soft, st, 0, plugin)
  }

  /** "Addon" needs "Core", written in another letter case; Addon is registered first. */
  function AddonCore(st: State): Registry
  {
    [Plugin("Addon", ["core"], [], st, 0), Plugin("Core", [], [], st, 1)]
  }

  /** Addon's dependency "core" names Core and nothing else, whatever the state. */
  lemma FindCore(st: State)
    ensures FindLoader(AddonCore(st), "core") == Some(1)
  {
    var reg := AddonCore(st);
    assert !NameMatches(reg, 0, "core");
    assert NameMatches(reg, 1, "core") by {
      assert EqualsIgnoreCase("ore", "ore") by { assert EqualsIgnoreCase("e", "e"); }
    }
  }

  /** Loading initializes Core first, from inside Addon's initialization, then Addon. */
  lemma LoadAddonCore()
    ensures LoadPlugins(Sys(AddonCore(Loaded), []), 1)
         == Done(Sys(AddonCore(Initialized), [Called(OnInit, 1), Called(OnInit, 0)]))
  {
    var s0 := Sys(AddonCore(Loaded), []);
    FindCore(Loaded);
    var s1 := Fire(s0, 1, OnInit);
    assert InitPlugin(s0, 1, 0) == Done(s1);
    assert InitHard(s1, 0, [], 1) == Done(s1);
    assert InitHard(s0, 0, ["core"], 1) == Done(s1);
    var s2 := Fire(s1, 0, OnInit);
    assert InitPlugin(s0, 0, 1) == Done(s2);
    assert InitFrom(s2, 1, 1) == Done(s2);
    assert s2.reg == AddonCore(Initialized);
  }

  /** Enabling enables Core first, from inside Addon's enabling, then Addon. */
  lemma EnableAddonCore()
    ensures EnablePlugins(Sys(AddonCore(Initialized), []), 1)
         == Done(Sys(AddonCore(Enabled), [Called(OnEnable, 1), Called(OnEnable, 0)]))
  {
    var s0 := Sys(AddonCore(Initialized), []);
    var reg := s0.reg;
    FindCore(Initialized);
    assert !EqualsIgnoreCase(reg[1].name, reg[0].name);
    assert !DependsOn(reg[1], "Addon") && !SoftDependsOn(reg[1], "Addon");
    var s1 := Fire(s0, 1, OnEnable);
    assert EnablePlugin(s0, 1, 0) == Done(s1);
    assert EnableHard(s1, 0, [], 1) == Done(s1);
    assert EnableHard(s0, 0, ["core"], 1) == Done(s1);
    var s2 := Fire(s1, 0, OnEnable);
    assert EnablePlugin(s0, 0, 1) == Done(s2);
    assert EnableFrom(s2, 1, 1) == Done(s2);
    assert s2.reg == AddonCore(Enabled);
  }

  /** Core, then Addon, which hard-depends on "core". */
  function CoreAddon(st: State): Registry
  {
    [Plugin("Core", [], [], st, 0), Plugin("Addon", ["core"], [], st, 1)]
  }

  /** Only Addon depends on Core, and nothing depends on Addon. */
  lemma CoreAddonDependencies(st: State)
    ensures var reg := CoreAddon(st);
      !DependsOn(reg[0], "Core") && DependsOn(reg[1], "Core")
      && !DependsOn(reg[0], "Addon") && !DependsOn(reg[1], "Addon")
  {
    var reg := CoreAddon(st);
    assert EqualsIgnoreCase(reg[1].hardDeps[0], "Core") by {
      assert EqualsIgnoreCase("ore", "ore") by { assert EqualsIgnoreCase("e", "e"); }
    }
  }

  /** Core registered first: disabling Core disables Addon, which depends on it, before Core itself. */
  lemma DisableCascade()
    ensures DisablePlugins(Sys(CoreAddon(Enabled), []), 1)
         == Done(Sys(CoreAddon(Disabled), [Called(OnDisable, 1), Called(OnDisable, 0)]))
  {
    var s0 := Sys(CoreAddon(Enabled), []);
    CoreAddonDependencies(Enabled);
    assert DisableDependents(s0, "Addon", 0, 0) == Done(s0);
    var s1 := Fire(s0, 1, OnDisable);
    assert DisablePlugin(s0, 1, 0) == Done(s1);
    assert DisableDependents(s1, "Core", 2, 1) == Done(s1);
    assert DisableDependents(s0, "Core", 1, 1) == Done(s1);
    assert DisableDependents(s0, "Core", 0, 1) == Done(s1);
    var s2 := Fire(s1, 0, OnDisable);
    assert DisablePlugin(s0, 0, 1) == Done(s2);
    assert DisableFrom(s2, 1, 1) == Done(s2);
    assert s2.reg == CoreAddon(Disabled);
  }

  /** A missing hard dependency leaves the loader LOADED with one warning and no callback. */
  lemma LoadMissingDependency()
    ensures LoadPlugins(Sys([Plugin("Addon", ["Missing"], [], Loaded, 0)], []), 1)
         == Done(Sys([Plugin("Addon", ["Missing"], [], Loaded, 0)],
                     [Warned(MissingDependency("Missing"), 0)]))
  {
    var s0 := Sys([Plugin("Addon", ["Missing"], [], Loaded, 0)], []);
    assert !NameMatches(s0.reg, 0, "Missing");
    var s1 := Abandon(s0, 0, Loaded, MissingDependency("Missing"));
    assert InitPlugin(s0, 0, 1) == Bailed(s1);
    assert InitFrom(s1, 1, 1) == Done(s1);
  }

  /** An absent soft dependency blocks neither initializing nor enabling, and logs nothing. */
  lemma AbsentSoftDependency()
    ensures LoadPlugins(Sys([Plugin("A", [], ["B"], Loaded, 0)], []), 1)
         == Done(Sys([Plugin("A", [], ["B"], Initialized, 0)], [Called(OnInit, 0)]))
    ensures EnablePlugins(Sys([Plugin("A", [], ["B"], Initialized, 0)], [Called(OnInit, 0)]), 1)
         == Done(Sys([Plugin("A", [], ["B"], Enabled, 0)], [Called(OnInit, 0), Called(OnEnable, 0)]))
  {
    var s0 := Sys([Plugin("A", [], ["B"], Loaded, 0)], []);
    assert !NameMatches(s0.reg, 0, "B");
    var s1 := Fire(s0, 0, OnInit);
    assert InitPlugin(s0, 0, 1) == Done(s1);
    assert InitFrom(s1, 1, 1) == Done(s1);
    assert !NameMatches(s1.reg, 0, "B");
    var s2 := Fire(s1, 0, OnEnable);
    assert EnablePlugin(s1, 0, 1) == Done(s2);
    assert EnableFrom(s2, 1, 1) == Done(s2);
  }

  /** Two loaders that hard-depend on each other: enabling both ends with both DISABLED and two warnings. */
  lemma EnableMutualDependency()
    ensures var reg := [Plugin("A", ["B"], [], Initialized, 0), Plugin("B", ["A"], [], Initialized, 1)];
      EnablePlugins(Sys(reg, []), 1)
      == Done(Sys(reg[0 := reg[0].(state := Disabled)][1 := reg[1].(state := Disabled)],
                  [Warned(MutualDependency("B"), 0), Warned(MutualDependency("A"), 1)]))
  {
    var reg := [Plugin("A", ["B"], [], Initialized, 0), Plugin("B", ["A"], [], Initialized, 1)];
    var s0 := Sys(reg, []);
    assert FindLoader(reg, "B") == Some(1) by {
      assert !NameMatches(reg, 0, "B") && NameMatches(reg, 1, "B");
    }
    assert !EqualsIgnoreCase("B", "A");
    assert DependsOn(reg[1], "A") by { assert EqualsIgnoreCase(reg[1].hardDeps[0], "A"); }
    var s1 := Abandon(s0, 0, Disabled, MutualDependency("B"));
    assert EnablePlugin(s0, 0, 1) == Bailed(s1);
    assert FindLoader(s1.reg, "A") == Some(0) by {
      assert NameMatches(s1.reg, 0, "A");
    }
    assert !EqualsIgnoreCase("A", "B");
    assert DependsOn(s1.reg[0], "B") by { assert EqualsIgnoreCase(s1.reg[0].hardDeps[0], "B"); }
    var s2 := Abandon(s1, 1, Disabled, MutualDependency("A"));
    assert EnablePlugin(s1, 1, 1) == Bailed(s2);
    assert EnableFrom(s2, 2, 1) == Done(s2);
  }

  /**
    Enabling does not make "every hard dependency of an ENABLED loader is
    ENABLED" hold: a DISABLED hard dependency is neither refused nor
    re-enabled.
   */
  lemma EnabledDespiteDisabledDependency()
    ensures var reg := [Plugin("A", ["B"], [], Initialized, 0), Plugin("B", [], [], Disabled, 1)];
      EnablePlugin(Sys(reg, []), 0, 1)
      == Done(Sys(reg[0 := reg[0].(state := Enabled)], [Called(OnEnable, 0)]))
  {
    var reg := [Plugin("A", ["B"], [], Initialized, 0), Plugin("B", [], [], Disabled, 1)];
    var s0 := Sys(reg, []);
    assert FindLoader(reg, "B") == Some(1) by {
      assert !NameMatches(reg, 0, "B") && NameMatches(reg, 1, "B");
    }
    assert !EqualsIgnoreCase("B", "A") && !DependsOn(reg[1], "A") && !SoftDependsOn(reg[1], "A");
    assert EnableHard(s0, 0, ["B"], 1) == Done(s0);
  }

  /**
    Initialization does not make "every hard dependency of an INITIALIZED
    loader is INITIALIZED" hold: B's own initialization fails for want of C,
    leaving B LOADED, yet A's initialization goes on to its callback.
   */
  lemma InitializedDespiteLoadedDependency()
    ensures var reg := [Plugin("A", ["B"], [], Loaded, 0), Plugin("B", ["C"], [], Loaded, 1)];
      InitPlugin(Sys(reg, []), 0, 1)
      == Done(Sys(reg[0 := reg[0].(state := Initialized)],
                  [Warned(MissingDependency("C"), 1), Called(OnInit, 0)]))
  {
    var reg := [Plugin("A", ["B"], [], Loaded, 0), Plugin("B", ["C"], [], Loaded, 1)];
    var s0 := Sys(reg, []);
    assert FindLoader(reg, "B") == Some(1) by {
      assert !NameMatches(reg, 0, "B") && NameMatches(reg, 1, "B");
    }
    assert !NameMatches(reg, 0, "C") && !NameMatches(reg, 1, "C");
    var s1 := Abandon(s0, 1, Loaded, MissingDependency("C"));
    assert InitPlugin(s0, 1, 0) == Bailed(s1);
    assert InitHard(s1, 0, [], 1) == Done(s1);
    assert InitHard(s0, 0, ["B"], 1) == Done(s1);
    assert s1.reg == reg;
  }
}
