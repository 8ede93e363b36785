/** The class CoreServiceConfig of CoreServiceConfig.cpp: one service, filled in place by the entries about
    it. Each method is proved against the value model.
 */
module CoreServiceConfigs {
  import opened AStrings
  import opened ImsProperties
  import M = AppConfigModel
  import Q = QosProperties
  import S = ServiceIdentifiers

  class CoreServiceConfig {
    const serviceId: AString
    var iari: Option<S.ServiceIdentifier>
    var icsis: seq<S.ServiceIdentifier>
    var featureTags: seq<S.ServiceIdentifier>
    var sends: seq<M.FlowSpec>
    var receives: seq<M.FlowSpec>
    var headers: seq<AString>
    var profile: AString
    var connection: bool

    constructor (serviceId: AString)
      ensures this.serviceId == serviceId
      ensures View() == M.Service(serviceId, None, [], [], [], [], [], Null, false)
    {
      this.serviceId := serviceId;
      iari, icsis, featureTags, sends, receives, headers, profile, connection :=
        None, [], [], [], [], [], Null, false;
    }

    ghost function View(): M.Service
      reads this
    {
      M.Service(serviceId, iari, icsis, featureTags, sends, receives, headers, profile, connection)
    }

    /** Create, on a service just constructed with the id of the entry. */
    method Create(p: Property) returns (ok: bool)
      requires |p| == 5 && View() == M.Service(p[1], None, [], [], [], [], [], Null, false)
      modifies this
      ensures ok == M.NewService(p).Some?
      ensures ok ==> View() == M.NewService(p).value
    {
      hide S.Parse, Words;
      if !p[2].Empty() {
        var allowed := S.CheckFeatureFlags(p[2], false);
        if !allowed {
          return false;
        }
        var id := S.Create(p[2].bytes);
        iari := Some(id);
      }
      var tokens := Decode(p[3]);
      var i := 0;
      while i < |tokens|
        invariant 0 <= i <= |tokens| && icsis == M.Identifiers(tokens[..i])
        invariant View() == old(View()).(iari := iari, icsis := icsis)
        invariant iari == if p[2].Empty() then None else Some(S.Parse(p[2].bytes))
      {
        var allowed := S.CheckFeatureFlags(Text(tokens[i]), true);
        if !allowed {
          return false;
        }
        var id := S.Create(tokens[i]);
        assert tokens[..i + 1] == tokens[..i] + [tokens[i]];
        icsis := icsis + [id];
        i := i + 1;
      }
      assert tokens[..i] == tokens;
      tokens := Decode(p[4]);
      i := 0;
      while i < |tokens|
        invariant 0 <= i <= |tokens| && featureTags == M.Identifiers(tokens[..i])
        invariant View() == old(View()).(iari := iari, icsis := icsis, featureTags := featureTags)
        invariant iari == if p[2].Empty() then None else Some(S.Parse(p[2].bytes))
        invariant icsis == M.Identifiers(Words(p[3].Bytes()))
      {
        var allowed := S.CheckFeatureFlags(Text(tokens[i]), true);
        if !allowed {
          return false;
        }
        var id := S.Create(tokens[i]);
        assert tokens[..i + 1] == tokens[..i] + [tokens[i]];
        featureTags := featureTags + [id];
        i := i + 1;
      }
      assert tokens[..i] == tokens;
      ok := true;
    }

    method AddQosProperty(p: Property) returns (ok: bool)
      modifies this
      ensures M.Outcome(View(), ok) == M.AddQos(old(View()), p)
    {
      hide Q.Parse;
      if |p| != 5 {
        return false;
      }
      var send := new Q.QosProperty(p[2]);
      var receive := new Q.QosProperty(p[2]);
      var _ := send.SetQos(p[3]);
      if p[4].Empty() {
        var _ := receive.SetQos(p[3]);
      } else {
        var _ := receive.SetQos(p[4]);
      }
      sends := sends + [M.FlowSpec(send.contentType, send.qos)];
      receives := receives + [M.FlowSpec(send.contentType, send.qos)];
      ok := true;
    }

    method AddRegistrationHeaderProperty(p: Property) returns (ok: bool)
      modifies this
      ensures M.Outcome(View(), ok) == M.AddRegistrationHeaders(old(View()), p)
    {
      if |headers| > 0 || |p| < 3 {
        return false;
      }
      ghost var values := p[2..];
      assert values[..0] == [];
      var i := 2;
      while i < |p|
        invariant 2 <= i <= |p|
        invariant M.AddHeaders(old(View()), values[..i - 2]) == M.Outcome(View(), true)
      {
        HeadersStep(old(View()), values, i - 2);
        if ':' !in p[i].Bytes() {
          HeadersFail(old(View()), values, i - 1);
          return false;
        }
        headers := headers + [p[i]];
        i := i + 1;
      }
      assert values[..i - 2] == values;
      ok := true;
    }

    static lemma HeadersStep(s: M.Service, values: seq<AString>, i: nat)
      requires i < |values|
      ensures M.AddHeaders(s, values[..i + 1]) ==
              var o := M.AddHeaders(s, values[..i]);
              if !o.ok then o
              else if ':' in values[i].Bytes() then M.Outcome(o.after.(headers := o.after.headers + [values[i]]), true)
              else M.Outcome(o.after, false)
    {
      assert values[..i + 1][..i] == values[..i];
    }

    /** A header that fails decides the outcome of the whole list. */
    static lemma {:induction false} HeadersFail(s: M.Service, values: seq<AString>, n: nat)
      requires n <= |values| && !M.AddHeaders(s, values[..n]).ok
      ensures M.AddHeaders(s, values) == M.AddHeaders(s, values[..n])
      decreases |values| - n
    {
      if n == |values| {
        assert values[..n] == values;
      } else {
        HeadersStep(s, values, n);
        HeadersFail(s, values, n + 1);
      }
    }

    method AddProperty(p: Property) returns (ok: bool)
      requires |p| >= 1
      modifies this
      ensures M.Outcome(View(), ok) == M.AddToService(old(View()), p)
    {
      hide KeyOf, M.AddQos, M.AddRegistrationHeaders;
      var key := StringToKey(p[0]);
      if key == QOS {
        ok := AddQosProperty(p);
      } else if key == REG {
        ok := AddRegistrationHeaderProperty(p);
      } else if key == MPROF {
        if |p| != 3 {
          return false;
        }
        profile := p[2];
        ok := true;
      } else if key == CONNECTION {
        if |p| != 2 {
          return false;
        }
        connection := true;
        ok := true;
      } else {
        ok := false;
      }
    }
  }
}
