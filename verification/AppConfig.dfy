/** The class AppConfig of AppConfig.cpp with the data it owns: the two passes over a registry that fill
    it. Each method is proved against the value model.
 */
module AppConfigs {
  import opened AStrings
  import opened ImsProperties
  import opened CoreServiceConfigs
  import M = AppConfigModel
  import Q = QosProperties

  class AppConfig {
    var stream: bool
    var audio: bool
    var video: bool
    var text: bool
    var framed: bool
    var framedTypes: seq<string>
    var hasMaxSize: bool
    var maxSize: nat
    var basic: bool
    var basicTypes: seq<string>
    var events: seq<string>
    var services: seq<CoreServiceConfig>
    var writeHeaders: seq<string>
    var readHeaders: seq<string>
    var capabilities: seq<M.Capability>

    constructor ()
      ensures Valid() && View() == M.EMPTY
    {
      stream, audio, video, text, framed := false, false, false, false, false;
      framedTypes, hasMaxSize, maxSize, basic, basicTypes := [], false, 0, false, [];
      events, services, writeHeaders, readHeaders, capabilities := [], [], [], [], [];
    }

    ghost predicate Valid()
      reads this
    {
      forall i, j :: 0 <= i < j < |services| ==> services[i] != services[j]
    }

    static ghost function Views(services: seq<CoreServiceConfig>): (r: seq<M.Service>)
      reads services
    {
      seq(|services|, i requires 0 <= i < |services| reads services => services[i].View())
    }

    static lemma ViewsAt(services: seq<CoreServiceConfig>)
      ensures |Views(services)| == |services|
      ensures forall i :: 0 <= i < |services| ==> Views(services)[i] == services[i].View()
    {
    }

    /** The configuration as a value. */
    ghost function View(): M.Config
      reads this, services
    {
      M.Config(stream, audio, video, text, framed, framedTypes, hasMaxSize, maxSize, basic, basicTypes, events,
               Views(services), writeHeaders, readHeaders, capabilities)
    }

    method GetCoreServiceConfig(id: AString) returns (s: CoreServiceConfig?)
      ensures var k := M.FindService(Views(services), id);
              if k < 0 then s == null else k < |services| && s == services[k]
    {
      hide EqualIgnoreCase, M.FindService, Views;
      ViewsAt(services);
      ghost var k := M.FindService(Views(services), id);
      var i := 0;
      while i < |services|
        invariant 0 <= i <= if k < 0 then |services| else k
      {
        assert Views(services)[i].id == services[i].serviceId;
        if EqualIgnoreCase(services[i].serviceId, id) {
          return services[i];
        }
        i := i + 1;
      }
      s := null;
    }

    method AddStreamMediaProperty(p: Property) returns (ok: bool)
      modifies this`stream, this`audio, this`video, this`text
      ensures M.Outcome(View(), ok) == M.AddStream(old(View()), p)
    {
      hide EqualsLiteral, NoDuplicate, Words, M.SetStreamTypes, Views;
      if |p| != 2 {
        return false;
      }
      stream := true;
      var types := Decode(p[1]);
      if types == [] {
        NoTypes(View());
        return true;
      }
      var distinct := CheckDuplicate(types, true);
      if !distinct {
        return false;
      }
      ok := SetStreamTypes(types);
    }

    method SetStreamTypes(types: seq<string>) returns (ok: bool)
      modifies this`audio, this`video, this`text
      ensures M.Outcome(View(), ok) == M.SetStreamTypes(old(View()), types)
    {
      hide EqualsLiteral, M.SetStreamTypes, Views;
      ghost var start := View();
      NoTypes(start);
      assert types[..0] == [];
      var i := 0;
      while i < |types|
        invariant 0 <= i <= |types|
        invariant M.SetStreamTypes(start, types[..i]) == M.Outcome(View(), true)
      {
        TypesStep(start, types, i);
        if EqualsLiteral(types[i], "audio") {
          audio := true;
        } else if EqualsLiteral(types[i], "video") {
          video := true;
        } else if EqualsLiteral(types[i], "text") {
          text := true;
        } else {
          TypesFail(start, types, i + 1);
          return false;
        }
        i := i + 1;
      }
      assert types[..i] == types;
      ok := true;
    }

    static lemma NoTypes(c: M.Config)
      ensures M.SetStreamTypes(c, []) == M.Outcome(c, true) && NoDuplicate([], true)
    {
    }

    static lemma TypesStep(c: M.Config, types: seq<string>, i: nat)
      requires i < |types|
      ensures M.SetStreamTypes(c, types[..i + 1]) ==
              var o := M.SetStreamTypes(c, types[..i]);
              if !o.ok then o
              else if M.IsStreamType(types[i]) then M.Outcome(M.SetStreamType(o.after, types[i]), true)
              else M.Outcome(o.after, false)
    {
      hide M.IsStreamType, M.SetStreamType;
      assert types[..i + 1][..i] == types[..i];
    }

    /** A type that fails decides the outcome of the whole list. */
    static lemma {:induction false} TypesFail(c: M.Config, types: seq<string>, n: nat)
      requires n <= |types| && !M.SetStreamTypes(c, types[..n]).ok
      ensures M.SetStreamTypes(c, types) == M.SetStreamTypes(c, types[..n])
      decreases |types| - n
    {
      hide M.IsStreamType, M.SetStreamType;
      if n == |types| {
        assert types[..n] == types;
      } else {
        TypesStep(c, types, n);
        TypesFail(c, types, n + 1);
      }
    }

    method AddFramedMediaProperty(p: Property) returns (ok: bool)
      modifies this`framed, this`framedTypes, this`hasMaxSize, this`maxSize
      ensures M.Outcome(View(), ok) == M.AddFramed(old(View()), p)
    {
      hide NoDuplicate, Words, Q.ToUInt32, Views;
      if |p| != 3 {
        return false;
      }
      framedTypes := Decode(p[1]);
      var distinct := CheckDuplicate(framedTypes, false);
      if !distinct {
        return false;
      }
      framed := true;
      if p[2].Empty() {
        maxSize := 0;
        hasMaxSize := false;
      } else {
        var n := Q.ToUInt32(p[2].Bytes());
        maxSize := if n == None then 0 else n.value;
        if n == None {
          framedTypes := [];
          return false;
        }
        hasMaxSize := true;
      }
      ok := true;
    }

    method AddBasicMediaProperty(p: Property) returns (ok: bool)
      modifies this`basic, this`basicTypes
      ensures M.Outcome(View(), ok) == M.AddBasic(old(View()), p)
    {
      hide NoDuplicate, Words, Views;
      if |p| != 2 {
        return false;
      }
      basicTypes := Decode(p[1]);
      var distinct := CheckDuplicate(basicTypes, false);
      if !distinct {
        return false;
      }
      basic := true;
      ok := true;
    }

    method AddEventProperty(p: Property) returns (ok: bool)
      modifies this`events
      ensures M.Outcome(View(), ok) == M.AddEvent(old(View()), p)
    {
      hide NoDuplicate, Words, Views;
      if |p| != 2 {
        return false;
      }
      events := Decode(p[1]);
      ok := CheckDuplicate(events, true);
    }

    method AddWriteHeaderProperty(p: Property) returns (ok: bool)
      modifies this`writeHeaders
      ensures M.Outcome(View(), ok) == M.AddWrite(old(View()), p)
    {
      hide NoDuplicate, Words, Views;
      if |p| != 2 {
        return false;
      }
      writeHeaders := Decode(p[1]);
      ok := CheckDuplicate(readHeaders, false);
    }

    method AddReadHeaderProperty(p: Property) returns (ok: bool)
      modifies this`readHeaders
      ensures M.Outcome(View(), ok) == M.AddRead(old(View()), p)
    {
      hide NoDuplicate, Words, Views;
      if |p| != 2 {
        return false;
      }
      readHeaders := Decode(p[1]);
      ok := CheckDuplicate(readHeaders, false);
    }

    method AddCapabilitySdp(sector: nat, message: nat, field: AString)
      modifies this`capabilities
      ensures View() == M.AddCapabilitySdp(old(View()), sector, message, field)
    {
      hide M.CapKey, M.FindCapability, Views;
      var key := M.CapKey(sector, message);
      ghost var k := M.FindCapability(capabilities, key);
      var i := 0;
      while i < |capabilities|
        invariant 0 <= i <= if k < 0 then |capabilities| else k
        invariant capabilities == old(capabilities)
      {
        var cap := capabilities[i];
        if M.CapKey(cap.sector, cap.message) == key {
          capabilities := capabilities[i := cap.(fields := cap.fields + [field])];
          return;
        }
        i := i + 1;
      }
      capabilities := capabilities + [M.Capability(sector, message, [field])];
    }

    method AddCapabilityProperty(p: Property) returns (ok: bool)
      modifies this`capabilities
      ensures M.Outcome(View(), ok) == M.AddCapability(old(View()), p)
    {
      hide M.SectorOf, M.MessageOf, M.IsSdpField, M.AddCapabilitySdp, M.AddFields;
      if |p| < 3 {
        return false;
      }
      var sector := M.SectorOf(p[1]);
      if sector == 0 {
        return false;
      }
      var message := M.MessageOf(p[2]);
      if message == 0 {
        return false;
      }
      ghost var start, fields := View(), p[3..];
      NoFields(start, sector, message);
      assert fields[..0] == [];
      var i := 3;
      while i < |p|
        invariant 3 <= i <= |p|
        invariant M.AddFields(start, sector, message, fields[..i - 3]) == M.Outcome(View(), true)
      {
        FieldsStep(start, sector, message, fields, i - 3);
        if !M.IsSdpField(p[i], sector) {
          FieldsFail(start, sector, message, fields, i - 2);
          return false;
        }
        AddCapabilitySdp(sector, message, p[i]);
        i := i + 1;
      }
      assert fields[..i - 3] == fields;
      ok := true;
    }

    static lemma NoFields(c: M.Config, sector: nat, message: nat)
      ensures M.AddFields(c, sector, message, []) == M.Outcome(c, true)
    {
    }

    static lemma FieldsStep(c: M.Config, sector: nat, message: nat, fields: seq<AString>, i: nat)
      requires i < |fields|
      ensures M.AddFields(c, sector, message, fields[..i + 1]) ==
              var o := M.AddFields(c, sector, message, fields[..i]);
              if !o.ok then o
              else if M.IsSdpField(fields[i], sector) then
                M.Outcome(M.AddCapabilitySdp(o.after, sector, message, fields[i]), true)
              else M.Outcome(o.after, false)
    {
      hide M.IsSdpField, M.AddCapabilitySdp;
      assert fields[..i + 1][..i] == fields[..i];
    }

    /** A field that fails decides the outcome of the whole entry. */
    static lemma {:induction false} FieldsFail(c: M.Config, sector: nat, message: nat, fields: seq<AString>, n: nat)
      requires n <= |fields| && !M.AddFields(c, sector, message, fields[..n]).ok
      ensures M.AddFields(c, sector, message, fields) == M.AddFields(c, sector, message, fields[..n])
      decreases |fields| - n
    {
      hide M.IsSdpField, M.AddCapabilitySdp;
      if n == |fields| {
        assert fields[..n] == fields;
      } else {
        FieldsStep(c, sector, message, fields, n);
        FieldsFail(c, sector, message, fields, n + 1);
      }
    }

    method AddCoreServiceProperty(p: Property) returns (ok: bool)
      requires Valid()
      modifies this`services
      ensures Valid() && M.Outcome(View(), ok) == M.AddCoreService(old(View()), p)
      ensures forall i :: 0 <= i < |services| ==> services[i] in old(services) || fresh(services[i])
    {
      hide M.FindService, M.NewService, Views;
      if |p| != 5 {
        return false;
      }
      var existing := GetCoreServiceConfig(p[1]);
      if existing != null {
        return false;
      }
      ghost var before, was := services, Views(services);
      var s := new CoreServiceConfig(p[1]);
      assert Views(services) == was;
      ok := s.Create(p);
      assert Views(services) == was;
      if !ok {
        return;
      }
      services := services + [s];
      ViewsAt(before);
      ViewsAt(services);
      assert forall i :: 0 <= i < |was| ==> services[i] == before[i];
      assert Views(services) == was + [M.NewService(p).value];
    }

    method AddCoreServiceRelatedProperty(p: Property) returns (ok: bool)
      requires Valid() && |p| >= 1
      modifies services
      ensures M.Outcome(View(), ok) == M.AddRelated(old(View()), p)
    {
      hide M.FindService, M.AddToService, Views;
      if |p| < 2 {
        return false;
      }
      ghost var was := Views(services);
      ghost var k := M.FindService(was, p[1]);
      var s := GetCoreServiceConfig(p[1]);
      if s == null {
        return false;
      }
      ViewsAt(services);
      ok := s.AddProperty(p);
      ViewsAt(services);
      assert forall i :: 0 <= i < |services| && i != k ==> services[i] != s;
      assert Views(services) == was[k := M.AddToService(was[k], p).after];
    }

    /** The second pass on one entry. */
    method ApplyProperty(p: Property) returns (ok: bool)
      requires Valid() && |p| >= 1
      modifies this, services
      ensures Valid() && services == old(services)
      ensures M.Outcome(View(), ok) == M.Apply(old(View()), p)
    {
      hide KeyOf, M.AddStream, M.AddFramed, M.AddBasic, M.AddEvent, M.AddRead, M.AddWrite, M.AddCapability,
           M.AddRelated;
      var key := StringToKey(p[0]);
      ok := false;
      match key {
        case 1 => ok := AddStreamMediaProperty(p);
        case 2 => ok := AddFramedMediaProperty(p);
        case 3 => ok := AddBasicMediaProperty(p);
        case 4 => ok := AddEventProperty(p);
        case 9 => ok := AddReadHeaderProperty(p);
        case 8 => ok := AddWriteHeaderProperty(p);
        case 10 => ok := AddCapabilityProperty(p);
        case 5 => ok := true;
        case 6 => ok := AddCoreServiceRelatedProperty(p);
        case 7 => ok := AddCoreServiceRelatedProperty(p);
        case 11 => ok := AddCoreServiceRelatedProperty(p);
        case 12 => ok := AddCoreServiceRelatedProperty(p);
        case _ =>
      }
    }

    /** Create. */
    method Create(r: Registry) returns (ok: bool)
      requires Valid()
      modifies this, services
      ensures Valid() && M.Outcome(View(), ok) == M.Create(old(View()), r)
    {
      hide AllFit, Trimmed, M.DefineServices, M.ApplyAll;
      ghost var start := View();
      var fits, t := TrimAndCheckProperties(r, []);
      if !fits {
        return false;
      }
      AllKeyed(r);
      assert t == TrimmedAll(r);
      ok := DefineAll(t);
      if !ok {
        return;
      }
      ok := ApplyEntries(t);
      if !ok {
        return;
      }
      ViewsAt(services);
      ok := stream || framed || basic || events != [] || services != [];
    }

    static lemma AllKeyed(r: Registry)
      requires AllFit(r)
      ensures M.Keyed(r)
    {
      forall i | 0 <= i < |r| ensures |r[i]| >= 1 {
        assert Fits(r[i], r[..i]);
      }
    }

    /** The first loop of Create. */
    method DefineAll(t: Registry) returns (ok: bool)
      requires Valid() && M.Keyed(t)
      modifies this, services
      ensures Valid() && M.Outcome(View(), ok) == M.DefineServices(old(View()), t)
      ensures forall i :: 0 <= i < |services| ==> services[i] in old(services) || fresh(services[i])
    {
      hide KeyOf, M.AddCoreService, M.DefineServices, Views;
      ghost var start := View();
      DefineNone(start);
      assert t[..0] == [];
      var i := 0;
      while i < |t|
        invariant 0 <= i <= |t| && Valid()
        invariant M.DefineServices(start, t[..i]) == M.Outcome(View(), true)
        invariant forall j :: 0 <= j < |services| ==> services[j] in old(services) || fresh(services[j])
      {
        DefineStep(start, t, i);
        var key := StringToKey(t[i][0]);
        if key == CORE_SERVICE {
          var added := AddCoreServiceProperty(t[i]);
          if !added {
            DefineFail(start, t, i + 1);
            return false;
          }
        }
        i := i + 1;
      }
      assert t[..i] == t;
      ok := true;
    }

    /** The second loop of Create. */
    method ApplyEntries(t: Registry) returns (ok: bool)
      requires Valid() && M.Keyed(t)
      modifies this, services
      ensures Valid() && services == old(services)
      ensures M.Outcome(View(), ok) == M.ApplyAll(old(View()), t)
    {
      hide M.Apply, M.ApplyAll;
      ghost var start := View();
      ApplyNone(start);
      assert t[..0] == [];
      var i := 0;
      while i < |t|
        invariant 0 <= i <= |t| && Valid() && services == old(services)
        invariant M.ApplyAll(start, t[..i]) == M.Outcome(View(), true)
      {
        ApplyStep(start, t, i);
        var done := ApplyProperty(t[i]);
        if !done {
          ApplyFail(start, t, i + 1);
          return false;
        }
        i := i + 1;
      }
      assert t[..i] == t;
      ok := true;
    }

    static lemma DefineNone(c: M.Config)
      ensures M.DefineServices(c, []) == M.Outcome(c, true)
    {
    }

    static lemma ApplyNone(c: M.Config)
      ensures M.ApplyAll(c, []) == M.Outcome(c, true)
    {
    }

    static lemma DefineStep(c: M.Config, t: Registry, i: nat)
      requires i < |t|
      ensures M.DefineServices(c, t[..i + 1]) ==
              var o := M.DefineServices(c, t[..i]);
              if !o.ok then o else if M.IsCore(t[i]) then M.AddCoreService(o.after, t[i]) else o
    {
      hide M.IsCore, M.AddCoreService;
      assert t[..i + 1][..i] == t[..i];
    }

    static lemma {:induction false} DefineFail(c: M.Config, t: Registry, n: nat)
      requires n <= |t| && !M.DefineServices(c, t[..n]).ok
      ensures M.DefineServices(c, t) == M.DefineServices(c, t[..n])
      decreases |t| - n
    {
      hide M.IsCore, M.AddCoreService, M.DefineServices;
      if n == |t| {
        assert t[..n] == t;
      } else {
        DefineStep(c, t, n);
        DefineFail(c, t, n + 1);
      }
    }

    static lemma ApplyStep(c: M.Config, t: Registry, i: nat)
      requires i < |t| && M.Keyed(t)
      ensures M.ApplyAll(c, t[..i + 1]) ==
              var o := M.ApplyAll(c, t[..i]);
              if !o.ok then o else M.Apply(o.after, t[i])
    {
      hide M.Apply;
      assert t[..i + 1][..i] == t[..i];
    }

    static lemma {:induction false} ApplyFail(c: M.Config, t: Registry, n: nat)
      requires n <= |t| && M.Keyed(t) && !M.ApplyAll(c, t[..n]).ok
      ensures M.ApplyAll(c, t) == M.ApplyAll(c, t[..n])
      decreases |t| - n
    {
      hide M.Apply, M.ApplyAll;
      if n == |t| {
        assert t[..n] == t;
      } else {
        ApplyStep(c, t, n);
        ApplyFail(c, t, n + 1);
      }
    }
  }
}
