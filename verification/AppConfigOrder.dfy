/** Where a registry's CoreService entries stand does not matter. */
module AppConfigOrder {
  import opened AStrings
  import opened ImsProperties
  import opened AppConfigModel

  function CoreEntries(r: Registry): Registry {
    if r == [] then []
    else CoreEntries(r[..|r| - 1]) + if IsCore(r[|r| - 1]) then [r[|r| - 1]] else []
  }

  function OtherEntries(r: Registry): Registry {
    if r == [] then []
    else OtherEntries(r[..|r| - 1]) + if IsCore(r[|r| - 1]) then [] else [r[|r| - 1]]
  }

  /** Defining services looks at the CoreService entries only. */
  lemma {:induction false} DefineUsesCore(c: Config, r: Registry)
    ensures DefineServices(c, CoreEntries(r)) == DefineServices(c, r)
  {
    hide IsCore, AddCoreService;
    if r != [] {
      var init, p := r[..|r| - 1], r[|r| - 1];
      DefineUsesCore(c, init);
      if IsCore(p) {
        var core := CoreEntries(r);
        assert core[..|core| - 1] == CoreEntries(init) && core[|core| - 1] == p;
      } else {
        assert CoreEntries(r) == CoreEntries(init);
      }
    }
  }

  lemma {:induction false} OthersKeyed(r: Registry)
    requires Keyed(r)
    ensures Keyed(OtherEntries(r))
  {
    hide IsCore;
    if r != [] {
      OthersKeyed(r[..|r| - 1]);
    }
  }

  lemma CoreIsSkipped(c: Config, p: Property)
    requires IsCore(p)
    ensures Apply(c, p) == Outcome(c, true)
  {
  }

  /** The second pass looks at the other entries only. */
  lemma {:induction false} ApplyUsesOthers(c: Config, r: Registry)
    requires Keyed(r)
    ensures Keyed(OtherEntries(r)) && ApplyAll(c, OtherEntries(r)) == ApplyAll(c, r)
  {
    hide IsCore, Apply;
    OthersKeyed(r);
    if r != [] {
      var init, p := r[..|r| - 1], r[|r| - 1];
      assert Keyed(init);
      ApplyUsesOthers(c, init);
      if IsCore(p) {
        assert OtherEntries(r) == OtherEntries(init);
        CoreIsSkipped(ApplyAll(c, init).after, p);
      } else {
        var others := OtherEntries(r);
        assert others[..|others| - 1] == OtherEntries(init) && others[|others| - 1] == p;
      }
    }
  }

  /** Membership in the two parts. */
  lemma {:induction false} PartsHold(r: Registry, p: Property)
    ensures p in OtherEntries(r) <==> p in r && !IsCore(p)
    ensures p in CoreEntries(r) <==> p in r && IsCore(p)
  {
    hide IsCore;
    if r != [] {
      PartsHold(r[..|r| - 1], p);
      assert r == r[..|r| - 1] + [r[|r| - 1]];
    }
  }

  /** Whether an entry fits does not depend on CoreService entries before it. */
  lemma FitsUsesOthers(p: Property, before: Registry)
    ensures IsCore(p) ==> Fits(p, before)
    ensures !IsCore(p) ==> (Fits(p, before) <==> Fits(p, OtherEntries(before)))
  {
    hide Equal, KeyOf, OtherEntries;
    if !IsCore(p) && |p| >= 1 {
      var others := OtherEntries(before);
      forall i | 0 <= i < |before| && |before[i]| >= 1 && Equal(before[i][0], p[0])
        ensures before[i] in others
      {
        EqualKeys(before[i][0], p[0]);
        PartsHold(before, before[i]);
      }
      forall i | 0 <= i < |others|
        ensures others[i] in before
      {
        PartsHold(before, others[i]);
      }
    }
  }

  lemma AllFitSnoc(init: Registry, p: Property)
    ensures AllFit(init + [p]) <==> AllFit(init) && Fits(p, init)
  {
    hide Fits;
    var r := init + [p];
    assert r[|init|] == p && r[..|init|] == init;
    assert forall i :: 0 <= i < |init| ==> r[i] == init[i] && r[..i] == init[..i];
  }

  lemma {:induction false} AllFitUsesOthers(r: Registry)
    ensures AllFit(r) <==> AllFit(OtherEntries(r))
  {
    hide Fits, IsCore;
    if r != [] {
      var init, p := r[..|r| - 1], r[|r| - 1];
      AllFitUsesOthers(init);
      FitsUsesOthers(p, init);
      AllFitSnoc(init, p);
      assert r == init + [p];
      if IsCore(p) {
        assert OtherEntries(r) == OtherEntries(init);
      } else {
        AllFitSnoc(OtherEntries(init), p);
      }
    }
  }

  lemma TrimKeepsCore(p: Property)
    requires |p| >= 1
    ensures IsCore(Trimmed(p)) == IsCore(p)
  {
  }

  lemma TrimSnoc(r: Registry, p: Property)
    requires Keyed(r) && |p| >= 1
    ensures Keyed(r + [p]) && TrimmedAll(r + [p]) == TrimmedAll(r) + [Trimmed(p)]
  {
    hide Trimmed;
    var a, b := TrimmedAll(r + [p]), TrimmedAll(r) + [Trimmed(p)];
    assert forall i :: 0 <= i < |r| ==> (r + [p])[i] == r[i];
    assert forall i :: 0 <= i < |a| ==> a[i] == b[i];
  }

  /** Trimming commutes with taking the two parts. */
  lemma {:induction false} TrimParts(r: Registry)
    requires Keyed(r)
    ensures Keyed(CoreEntries(r)) && Keyed(OtherEntries(r))
    ensures CoreEntries(TrimmedAll(r)) == TrimmedAll(CoreEntries(r))
    ensures OtherEntries(TrimmedAll(r)) == TrimmedAll(OtherEntries(r))
  {
    hide IsCore, Trimmed;
    if r != [] {
      var init, p := r[..|r| - 1], r[|r| - 1];
      assert Keyed(init);
      TrimParts(init);
      TrimKeepsCore(p);
      var t := TrimmedAll(r);
      assert t[..|t| - 1] == TrimmedAll(init) && t[|t| - 1] == Trimmed(p);
      TrimSnoc(CoreEntries(init), p);
      TrimSnoc(OtherEntries(init), p);
      assert CoreEntries(init) + [] == CoreEntries(init) && OtherEntries(init) + [] == OtherEntries(init);
    }
  }

  lemma FitIsKeyed(r: Registry)
    requires AllFit(r)
    ensures Keyed(r)
  {
    forall i | 0 <= i < |r| ensures |r[i]| >= 1 {
      assert Fits(r[i], r[..i]);
    }
  }

  /** Create does not depend on where the CoreService entries stand: two registries with the same
      CoreService entries and the same other entries, each in the same order, give the same result and
      the same configuration, whatever the configuration was before. */
  lemma CoreServicePositionsIrrelevant(c: Config, r1: Registry, r2: Registry)
    requires CoreEntries(r1) == CoreEntries(r2) && OtherEntries(r1) == OtherEntries(r2)
    ensures Create(c, r1) == Create(c, r2)
  {
    hide Trimmed, AddCoreService, Apply, Mandatory, IsCore, Fits;
    AllFitUsesOthers(r1);
    AllFitUsesOthers(r2);
    if AllFit(r1) {
      FitIsKeyed(r1);
      FitIsKeyed(r2);
      TrimParts(r1);
      TrimParts(r2);
      var t1, t2 := TrimmedAll(r1), TrimmedAll(r2);
      DefineUsesCore(c, t1);
      DefineUsesCore(c, t2);
      var defined := DefineServices(c, t1).after;
      ApplyUsesOthers(defined, t1);
      ApplyUsesOthers(defined, t2);
    }
  }

  predicate Uniform(r: Registry, core: bool) {
    forall i :: 0 <= i < |r| ==> IsCore(r[i]) == core
  }

  lemma PartsAreUniform(r: Registry)
    ensures Uniform(CoreEntries(r), true) && Uniform(OtherEntries(r), false)
  {
    hide IsCore, CoreEntries, OtherEntries;
    forall p ensures (p in CoreEntries(r) ==> IsCore(p)) && (p in OtherEntries(r) ==> !IsCore(p)) {
      PartsHold(r, p);
    }
  }

  lemma NoParts()
    ensures CoreEntries([]) == [] && OtherEntries([]) == []
  {
  }

  lemma PartsSnoc(init: Registry, p: Property)
    ensures CoreEntries(init + [p]) == CoreEntries(init) + if IsCore(p) then [p] else []
    ensures OtherEntries(init + [p]) == OtherEntries(init) + if IsCore(p) then [] else [p]
  {
    hide IsCore;
    assert (init + [p])[..|init|] == init;
  }

  lemma {:induction false} UniformParts(core: Registry, others: Registry)
    requires Uniform(core, true) && Uniform(others, false)
    ensures CoreEntries(core + others) == core && OtherEntries(core + others) == others
    decreases |core| + |others|
  {
    hide IsCore, CoreEntries, OtherEntries;
    if others != [] {
      var init, p := others[..|others| - 1], others[|others| - 1];
      UniformParts(core, init);
      PartsSnoc(core + init, p);
      assert core + init + [p] == core + others && init + [p] == others && core + [] == core;
    } else if core != [] {
      var init, p := core[..|core| - 1], core[|core| - 1];
      UniformParts(init, []);
      PartsSnoc(init, p);
      assert init + [] == init && init + [p] == core == core + others;
    } else {
      NoParts();
      assert core + others == [];
    }
  }

  /** In particular they can all stand at the front. */
  lemma CoreServicesFirst(c: Config, r: Registry)
    ensures Create(c, CoreEntries(r) + OtherEntries(r)) == Create(c, r)
  {
    hide Create, CoreEntries, OtherEntries;
    var core, others := CoreEntries(r), OtherEntries(r);
    PartsAreUniform(r);
    UniformParts(core, others);
    CoreServicePositionsIrrelevant(c, core + others, r);
  }
}
