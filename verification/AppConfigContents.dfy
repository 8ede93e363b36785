/** What the fields of a configuration say about the registry it was made from, entry kind by entry kind:
    a description that does not follow the code's order of assignments.
 */
module AppConfigContents {
  import opened AStrings
  import opened ImsProperties
  import opened AppConfigModel
  import opened AppConfigValid
  import O = AppConfigOrder

  // ---- media ------------------------------------------------------------------------------------

  predicate HasWord(words: seq<string>, literal: string) {
    exists i :: 0 <= i < |words| && EqualsLiteral(words[i], literal)
  }

  /** Does a Stream entry among the first n list the type? */
  predicate Streams(r: Registry, n: nat, literal: string)
    requires n <= |r|
  {
    exists i :: 0 <= i < n && HasKey(r[i], STREAM) && |r[i]| >= 2 && HasWord(ListIn(r[i]), literal)
  }

  /** The size in the last Framed entry among the first n. */
  function SizeOf(r: Registry, n: nat): Option<nat>
    requires n <= |r|
  {
    if n == 0 then None
    else if HasKey(r[n - 1], FRAMED) && |r[n - 1]| >= 3 then
      if r[n - 1][2].Empty() then None else Q.ToUInt32(r[n - 1][2].Bytes())
    else SizeOf(r, n - 1)
  }

  predicate Media(c: Config, r: Registry, n: nat)
    requires n <= |r|
  {
    && (c.audio <==> Streams(r, n, "audio"))
    && (c.video <==> Streams(r, n, "video"))
    && (c.text <==> Streams(r, n, "text"))
    && c.hasMaxSize == SizeOf(r, n).Some?
    && c.maxSize == if SizeOf(r, n) == None then 0 else SizeOf(r, n).value
  }

  lemma StreamsSnoc(r: Registry, n: nat, literal: string)
    requires n < |r|
    ensures Streams(r, n + 1, literal) <==>
            Streams(r, n, literal) || (HasKey(r[n], STREAM) && |r[n]| >= 2 && HasWord(ListIn(r[n]), literal))
  {
    hide HasKey, ListIn, HasWord;
  }

  lemma HasWordSnoc(words: seq<string>, literal: string)
    requires words != []
    ensures HasWord(words, literal) <==>
            HasWord(words[..|words| - 1], literal) || EqualsLiteral(words[|words| - 1], literal)
  {
    hide EqualsLiteral;
    var init := words[..|words| - 1];
    assert forall i :: 0 <= i < |init| ==> words[i] == init[i];
  }

  lemma NoWords()
    ensures !HasWord([], "audio") && !HasWord([], "video") && !HasWord([], "text")
  {
  }

  lemma OneType(w: string)
    ensures !(EqualsLiteral(w, "audio") && EqualsLiteral(w, "video"))
    ensures !(EqualsLiteral(w, "audio") && EqualsLiteral(w, "text"))
    ensures !(EqualsLiteral(w, "video") && EqualsLiteral(w, "text"))
  {
    hide MakeLower, CStr;
    assert "audio"[0] != "video"[0] && |"text"| != |"audio"|;
  }

  /** All words of an accepted list set their flag, in whatever order they come. */
  lemma {:induction false} StreamTypesSet(c: Config, words: seq<string>)
    requires SetStreamTypes(c, words).ok
    ensures var a := SetStreamTypes(c, words).after;
            && (a.audio <==> c.audio || HasWord(words, "audio"))
            && (a.video <==> c.video || HasWord(words, "video"))
            && (a.text <==> c.text || HasWord(words, "text"))
            && a == c.(audio := a.audio, video := a.video, text := a.text)
  {
    hide EqualsLiteral, HasWord;
    if words == [] {
      NoWords();
    } else {
      var w := words[|words| - 1];
      StreamTypesSet(c, words[..|words| - 1]);
      HasWordSnoc(words, "audio");
      HasWordSnoc(words, "video");
      HasWordSnoc(words, "text");
      OneType(w);
    }
  }

  predicate IsList(key: nat) {
    key == BASIC || key == EVENT || key == READ || key == WRITE
  }

  predicate SameTypes(a: Config, b: Config) {
    a.audio == b.audio && a.video == b.video && a.text == b.text
  }

  predicate SameSize(a: Config, b: Config) {
    a.hasMaxSize == b.hasMaxSize && a.maxSize == b.maxSize
  }

  predicate SameRest(a: Config, b: Config) {
    a.capabilities == b.capabilities && a.services == b.services
  }

  predicate SameAll(a: Config, b: Config) {
    SameTypes(a, b) && SameSize(a, b) && SameRest(a, b)
  }

  lemma BasicFrame(c: Config, p: Property)
    ensures SameAll(AddBasic(c, p).after, c)
  {
    hide Words, NoDuplicate;
  }

  lemma EventFrame(c: Config, p: Property)
    ensures SameAll(AddEvent(c, p).after, c)
  {
    hide Words, NoDuplicate;
  }

  lemma WriteFrame(c: Config, p: Property)
    ensures SameAll(AddWrite(c, p).after, c)
  {
    hide Words, NoDuplicate;
  }

  lemma ReadFrame(c: Config, p: Property)
    ensures SameAll(AddRead(c, p).after, c)
  {
    hide Words, NoDuplicate;
  }

  /** Entries with one list change nothing that is described here. */
  lemma ListFrame(c: Config, p: Property)
    requires |p| >= 1 && IsList(KeyOf(p[0]))
    ensures SameAll(Apply(c, p).after, c)
  {
    hide KeyOf, AddStream, AddFramed, AddCapability, AddRelated, AddBasic, AddEvent, AddRead, AddWrite, SameAll;
    BasicFrame(c, p);
    EventFrame(c, p);
    WriteFrame(c, p);
    ReadFrame(c, p);
  }

  lemma FramedFrame(c: Config, p: Property)
    ensures var a := AddFramed(c, p).after; SameTypes(a, c) && SameRest(a, c)
    ensures AddFramed(c, p).ok ==>
              && |p| == 3
              && var a := AddFramed(c, p).after;
                 var size := if p[2].Empty() then None else Q.ToUInt32(p[2].Bytes());
                 a.hasMaxSize == size.Some? && a.maxSize == if size == None then 0 else size.value
  {
    hide Words, NoDuplicate, Q.ToUInt32;
  }

  lemma StreamFrame(c: Config, p: Property)
    ensures var a := AddStream(c, p).after; SameSize(a, c) && SameRest(a, c)
    ensures AddStream(c, p).ok ==>
              && |p| == 2
              && var a := AddStream(c, p).after;
                 && (a.audio <==> c.audio || HasWord(ListIn(p), "audio"))
                 && (a.video <==> c.video || HasWord(ListIn(p), "video"))
                 && (a.text <==> c.text || HasWord(ListIn(p), "text"))
  {
    hide Words, NoDuplicate, SetStreamTypes, HasWord;
    if |p| == 2 {
      StreamTypesIff(c.(stream := true), ListIn(p));
      if SetStreamTypes(c.(stream := true), ListIn(p)).ok {
        StreamTypesSet(c.(stream := true), ListIn(p));
      }
    }
  }

  /** Which handler an entry goes to. */
  lemma ApplyKey(c: Config, p: Property)
    requires |p| >= 1
    ensures KeyOf(p[0]) == STREAM ==> Apply(c, p) == AddStream(c, p)
    ensures KeyOf(p[0]) == FRAMED ==> Apply(c, p) == AddFramed(c, p)
    ensures KeyOf(p[0]) == CAP ==> Apply(c, p) == AddCapability(c, p)
    ensures IsRelated(KeyOf(p[0])) ==> Apply(c, p) == AddRelated(c, p)
    ensures !(KeyOf(p[0]) in {STREAM, FRAMED, CAP}) && !IsRelated(KeyOf(p[0])) && !IsList(KeyOf(p[0])) ==>
              Apply(c, p).after == c
  {
    hide KeyOf, AddStream, AddFramed, AddCapability, AddRelated, AddBasic, AddEvent, AddRead, AddWrite;
  }

  lemma CapabilityFrame(c: Config, p: Property)
    ensures var a := AddCapability(c, p).after; SameTypes(a, c) && SameSize(a, c) && a.services == c.services
  {
    hide AddFields, SectorOf, MessageOf;
    if |p| >= 3 {
      FieldsIff(c, SectorOf(p[1]), MessageOf(p[2]), p[3..]);
    }
  }

  lemma RelatedFrame(c: Config, p: Property)
    requires |p| >= 1
    ensures var a := AddRelated(c, p).after; SameTypes(a, c) && SameSize(a, c) && a.capabilities == c.capabilities
  {
    hide AddToService, FindService;
  }

  lemma StepMedia(c: Config, r: Registry, n: nat)
    requires n < |r| && |r[n]| >= 1 && Media(c, r, n) && Apply(c, r[n]).ok
    ensures Media(Apply(c, r[n]).after, r, n + 1)
  {
    hide KeyOf, Words, NoDuplicate, Q.ToUInt32, Streams, HasWord, Apply;
    hide AddStream, AddFramed, AddCapability, AddRelated;
    StreamsSnoc(r, n, "audio");
    StreamsSnoc(r, n, "video");
    StreamsSnoc(r, n, "text");
    var p := r[n];
    ApplyKey(c, p);
    if KeyOf(p[0]) == STREAM {
      StreamFrame(c, p);
    } else if KeyOf(p[0]) == FRAMED {
      FramedFrame(c, p);
    } else if KeyOf(p[0]) == CAP {
      CapabilityFrame(c, p);
    } else if IsRelated(KeyOf(p[0])) {
      RelatedFrame(c, p);
    } else if IsList(KeyOf(p[0])) {
      ListFrame(c, p);
    }
  }

  // ---- capabilities -----------------------------------------------------------------------------

  /** The key under which a Cap entry files its fields. */
  function KeyIn(p: Property): nat
    requires |p| >= 3
  {
    CapKey(SectorOf(p[1]), MessageOf(p[2]))
  }

  predicate DistinctKeys(caps: seq<Capability>) {
    forall i, j :: 0 <= i < j < |caps| ==>
      CapKey(caps[i].sector, caps[i].message) != CapKey(caps[j].sector, caps[j].message)
  }

  lemma FindAt(caps: seq<Capability>, k: nat)
    requires DistinctKeys(caps) && k < |caps|
    ensures FindCapability(caps, CapKey(caps[k].sector, caps[k].message)) == k
  {
    hide CapKey, FindCapability;
  }

  lemma SameSectorIff(a: AString, b: AString)
    requires SpellsSector(a) && SpellsSector(b)
    ensures SectorOf(a) == SectorOf(b) <==> CStr(a.Bytes()) == CStr(b.Bytes())
  {
    hide CStr;
    assert |"Framed"| != |"Session"| && |"StreamAudio"| == |"StreamVideo"| && "StreamAudio"[6] != "StreamVideo"[6];
  }

  lemma SameMessageIff(a: AString, b: AString)
    requires SpellsMessage(a) && SpellsMessage(b)
    ensures MessageOf(a) == MessageOf(b) <==> CStr(a.Bytes()) == CStr(b.Bytes())
  {
    hide CStr;
  }

  /** Two Cap entries file their fields together exactly if sector and message type agree, or if both are
      for request and response: then the sectors do not matter. */
  lemma SharedCapabilityIff(p: Property, q: Property)
    requires ValidCapability(p) && ValidCapability(q)
    ensures KeyIn(p) == KeyIn(q) <==>
            || (CStr(p[1].Bytes()) == CStr(q[1].Bytes()) && CStr(p[2].Bytes()) == CStr(q[2].Bytes()))
            || (CStr(p[2].Bytes()) == "Req_Resp" && CStr(q[2].Bytes()) == "Req_Resp")
  {
    hide SectorOf, MessageOf, CStr;
    SameSectorIff(p[1], q[1]);
    SameMessageIff(p[2], q[2]);
    SectorIff(p[1]);
    SectorIff(q[1]);
    MessageIff(p[2]);
    MessageIff(q[2]);
  }

  /** Fields for request and response of two sectors end up in the capability of the first. */
  lemma SectorsFallTogether(first: AString, second: AString)
    ensures var c := AddCapabilitySdp(EMPTY, 1, REQUEST_RESPONSE, first);
            AddCapabilitySdp(c, 2, REQUEST_RESPONSE, second).capabilities ==
            [Capability(1, REQUEST_RESPONSE, [first, second])]
  {
    var c := AddCapabilitySdp(EMPTY, 1, REQUEST_RESPONSE, first);
    assert c.capabilities == [Capability(1, REQUEST_RESPONSE, [first])];
    FindAt(c.capabilities, 0);
    assert [first] + [second] == [first, second];
  }

  /** The fields that Cap entries among the first n file under a key, in order. */
  function FieldsFor(r: Registry, n: nat, key: nat): seq<AString>
    requires n <= |r|
  {
    if n == 0 then []
    else
      var p := r[n - 1];
      FieldsFor(r, n - 1, key) + if HasKey(p, CAP) && |p| >= 3 && KeyIn(p) == key then p[3..] else []
  }

  function FieldsUnder(caps: seq<Capability>, key: nat): seq<AString> {
    var k := FindCapability(caps, key);
    if k < 0 then [] else caps[k].fields
  }

  /** Fields are grouped by key, one capability per key. */
  ghost predicate Capabilities(c: Config, r: Registry, n: nat)
    requires n <= |r|
  {
    DistinctKeys(c.capabilities) && forall key :: FieldsUnder(c.capabilities, key) == FieldsFor(r, n, key)
  }

  /** Adding a field lengthens the list of its key and no other. */
  lemma AddSdpGroups(c: Config, sector: nat, message: nat, field: AString, key: nat)
    requires DistinctKeys(c.capabilities)
    ensures var a := AddCapabilitySdp(c, sector, message, field).capabilities;
            && DistinctKeys(a)
            && FieldsUnder(a, key) ==
               FieldsUnder(c.capabilities, key) + if key == CapKey(sector, message) then [field] else []
  {
    hide CapKey, FindCapability;
    var caps, a := c.capabilities, AddCapabilitySdp(c, sector, message, field).capabilities;
    var k := FindCapability(caps, CapKey(sector, message));
    if k >= 0 {
      assert forall i :: 0 <= i < |caps| ==> a[i].sector == caps[i].sector && a[i].message == caps[i].message;
      FindAt(a, k);
    } else {
      assert forall i :: 0 <= i < |caps| ==> a[i] == caps[i];
      FindAt(a, |caps|);
    }
    var i := FindCapability(caps, key);
    if i >= 0 {
      FindAt(caps, i);
      FindAt(a, i);
    }
    var j := FindCapability(a, key);
    if j >= 0 {
      FindAt(a, j);
    }
  }

  lemma {:induction false} AddFieldsGroups(c: Config, sector: nat, message: nat, fields: seq<AString>, key: nat)
    requires DistinctKeys(c.capabilities) && AddFields(c, sector, message, fields).ok
    ensures var a := AddFields(c, sector, message, fields).after.capabilities;
            && DistinctKeys(a)
            && FieldsUnder(a, key) ==
               FieldsUnder(c.capabilities, key) + if key == CapKey(sector, message) then fields else []
  {
    hide IsSdpField, CapKey, FieldsUnder, DistinctKeys, AddCapabilitySdp;
    if fields == [] {
      assert FieldsUnder(c.capabilities, key) + [] == FieldsUnder(c.capabilities, key);
    } else {
      var init, f := fields[..|fields| - 1], fields[|fields| - 1];
      AddFieldsGroups(c, sector, message, init, key);
      AddSdpGroups(AddFields(c, sector, message, init).after, sector, message, f, key);
      assert init + [f] == fields;
      assert FieldsUnder(c.capabilities, key) + init + [f] == FieldsUnder(c.capabilities, key) + fields;
    }
  }

  lemma ApplyCapability(c: Config, p: Property)
    requires |p| >= 1 && KeyOf(p[0]) == CAP && Apply(c, p).ok
    ensures |p| >= 3 && Apply(c, p) == AddFields(c, SectorOf(p[1]), MessageOf(p[2]), p[3..])
  {
    hide KeyOf, AddFields, SectorOf, MessageOf;
  }

  /** Only Cap entries change capabilities. */
  lemma OtherFrame(c: Config, p: Property)
    requires |p| >= 1 && KeyOf(p[0]) != CAP
    ensures Apply(c, p).after.capabilities == c.capabilities
  {
    hide KeyOf, Apply, AddStream, AddFramed, AddCapability, AddRelated;
    ApplyKey(c, p);
    if KeyOf(p[0]) == STREAM {
      StreamFrame(c, p);
    } else if KeyOf(p[0]) == FRAMED {
      FramedFrame(c, p);
    } else if IsList(KeyOf(p[0])) {
      ListFrame(c, p);
    } else if IsRelated(KeyOf(p[0])) {
      RelatedFrame(c, p);
    }
  }

  lemma StepCapabilities(c: Config, r: Registry, n: nat)
    requires n < |r| && |r[n]| >= 1 && Capabilities(c, r, n) && Apply(c, r[n]).ok
    ensures Capabilities(Apply(c, r[n]).after, r, n + 1)
  {
    hide KeyOf, SectorOf, MessageOf, AddFields, FieldsUnder, DistinctKeys, CapKey, Apply;
    var p := r[n];
    var after := Apply(c, p).after.capabilities;
    if KeyOf(p[0]) == CAP {
      ApplyCapability(c, p);
      forall key
        ensures DistinctKeys(after) && FieldsUnder(after, key) == FieldsFor(r, n + 1, key)
      {
        AddFieldsGroups(c, SectorOf(p[1]), MessageOf(p[2]), p[3..], key);
      }
      AddFieldsGroups(c, SectorOf(p[1]), MessageOf(p[2]), p[3..], 0);
    } else {
      OtherFrame(c, p);
      assert forall key :: FieldsFor(r, n + 1, key) == FieldsFor(r, n, key) + [];
    }
  }

  // ---- services ---------------------------------------------------------------------------------

  /** An entry of a kind about services that names `id`. */
  predicate About(p: Property, key: nat, id: AString) {
    HasKey(p, key) && |p| >= 2 && EqualIgnoreCase(id, p[1])
  }

  /** A flow holds what its text says, and zeros if the text says nothing. */
  lemma FlowIs(contentType: AString, text: AString)
    ensures FlowOf(contentType, text).contentType == contentType
    ensures Q.Parse(text).Some? ==> FlowOf(contentType, text).qos == Q.Parse(text).value
    ensures Q.Parse(text) == None ==> forall i :: 0 <= i < 7 ==> FlowOf(contentType, text).qos.Fields()[i] == 0
  {
    hide Q.Parse;
  }

  /** The flow specifications that Qos entries among the first n give to a service, in order. */
  function FlowsOf(r: Registry, n: nat, id: AString): seq<FlowSpec>
    requires n <= |r|
  {
    if n == 0 then []
    else
      var p := r[n - 1];
      FlowsOf(r, n - 1, id) + if About(p, QOS, id) && |p| == 5 then [FlowOf(p[2], p[3])] else []
  }

  /** The profile in the last Mprof entry among the first n that names a service. */
  function ProfileOf(r: Registry, n: nat, id: AString): AString
    requires n <= |r|
  {
    if n == 0 then Null
    else if About(r[n - 1], MPROF, id) && |r[n - 1]| == 3 then r[n - 1][2]
    else ProfileOf(r, n - 1, id)
  }

  predicate Connects(r: Registry, n: nat, id: AString)
    requires n <= |r|
  {
    n > 0 && (About(r[n - 1], CONNECTION, id) || Connects(r, n - 1, id))
  }

  /** One identifier per word, in order, each as parsing the word gives it. */
  predicate Identifies(ids: seq<S.ServiceIdentifier>, words: seq<string>) {
    |ids| == |words| && forall i :: 0 <= i < |words| ==> ids[i] == S.Parse(words[i])
  }

  /** What the five elements of a CoreService entry say: the id, perhaps an IARI without flags, the ICSIs and the
      feature tags. */
  predicate DefinedBy(s: Service, definition: Property) {
    && |definition| == 5
    && s.id == definition[1]
    && (if definition[2].Empty() then s.iari == None else s.iari == Some(S.Parse(definition[2].Bytes())))
    && (s.iari.Some? ==> !s.iari.value.isExplicit && !s.iari.value.isRequire)
    && Identifies(s.icsis, Words(definition[3].Bytes()))
    && Identifies(s.featureTags, Words(definition[4].Bytes()))
  }

  /** A service as its own CoreService entry and the entries that name it make it. Both lists of flows
      hold the sending ones. */
  predicate ServiceFrom(s: Service, definition: Property, r: Registry, n: nat)
    requires n <= |r|
  {
    && DefinedBy(s, definition)
    && s.sends == FlowsOf(r, n, s.id) && s.receives == FlowsOf(r, n, s.id)
    && s.profile == ProfileOf(r, n, s.id)
    && (s.connection <==> Connects(r, n, s.id))
  }

  predicate AllServices(services: seq<Service>, definitions: Registry, r: Registry, n: nat)
    requires n <= |r|
  {
    && |services| == |definitions|
    && forall k :: 0 <= k < |services| ==> ServiceFrom(services[k], definitions[k], r, n)
  }

  lemma NewServiceFrom(p: Property, whole: Registry)
    requires |p| == 5 && NewService(p).Some?
    ensures ServiceFrom(NewService(p).value, p, whole, 0)
  {
    hide Words, S.Parse;
  }

  /** The first pass makes one service per CoreService entry, in their order. */
  lemma {:induction false} DefinedServices(r: Registry, n: nat, whole: Registry)
    requires n <= |r| && DefineServices(EMPTY, r[..n]).ok
    ensures AllServices(DefineServices(EMPTY, r[..n]).after.services, O.CoreEntries(r[..n]), whole, 0)
  {
    hide IsCore, NewService, FindService, FlowsOf, ProfileOf, Connects, ServiceFrom, DefinedBy;
    if n == 0 {
      assert r[..0] == [];
    } else {
      assert r[..n][..n - 1] == r[..n - 1];
      DefinedServices(r, n - 1, whole);
      if IsCore(r[n - 1]) {
        NewServiceFrom(r[n - 1], whole);
      }
    }
  }

  /** An entry that does not name a service leaves its description as it is. */
  lemma Unnamed(s: Service, d: Property, r: Registry, n: nat)
    requires n < |r| && ServiceFrom(s, d, r, n)
    requires !About(r[n], QOS, s.id) && !About(r[n], MPROF, s.id) && !About(r[n], CONNECTION, s.id)
    ensures ServiceFrom(s, d, r, n + 1)
  {
    hide About, Identifies, Words, FlowOf;
    assert FlowsOf(r, n, s.id) + [] == FlowsOf(r, n, s.id);
  }

  lemma RegistrationFrame(s: Service, p: Property)
    requires AddRegistrationHeaders(s, p).ok
    ensures var a := AddRegistrationHeaders(s, p).after; a == s.(headers := a.headers)
  {
    HeadersIff(s, p[2..]);
  }

  lemma Named(s: Service, d: Property, r: Registry, n: nat)
    requires n < |r| && |r[n]| >= 2 && ServiceFrom(s, d, r, n) && EqualIgnoreCase(s.id, r[n][1])
    requires AddToService(s, r[n]).ok
    ensures ServiceFrom(AddToService(s, r[n]).after, d, r, n + 1)
  {
    hide EqualIgnoreCase, Identifies, Words, FlowOf, KeyOf, AddRegistrationHeaders;
    var p := r[n];
    if KeyOf(p[0]) == REG {
      RegistrationFrame(s, p);
      assert FlowsOf(r, n, s.id) + [] == FlowsOf(r, n, s.id);
    } else if KeyOf(p[0]) != QOS {
      assert FlowsOf(r, n, s.id) + [] == FlowsOf(r, n, s.id);
    }
  }

  lemma AddedId(s: Service, p: Property)
    requires |p| >= 1 && AddToService(s, p).ok
    ensures AddToService(s, p).after.id == s.id
  {
    hide KeyOf, AddRegistrationHeaders, FlowOf;
    if KeyOf(p[0]) == REG {
      RegistrationFrame(s, p);
    }
  }

  lemma ApplyRelated(c: Config, p: Property)
    requires |p| >= 1 && IsRelated(KeyOf(p[0])) && Apply(c, p).ok
    ensures |p| >= 2 && FindService(c.services, p[1]) >= 0
    ensures var k := FindService(c.services, p[1]);
            && AddToService(c.services[k], p).ok
            && Apply(c, p).after.services == c.services[k := AddToService(c.services[k], p).after]
  {
    hide KeyOf, FindService, AddToService;
  }

  /** Only entries about services change services in the second pass. */
  lemma ServicesFrame(c: Config, p: Property)
    requires |p| >= 1 && !IsRelated(KeyOf(p[0])) && Apply(c, p).ok
    ensures Apply(c, p).after.services == c.services
  {
    hide KeyOf, Apply, AddStream, AddFramed, AddCapability, AddRelated;
    ApplyKey(c, p);
    if KeyOf(p[0]) == STREAM {
      StreamFrame(c, p);
    } else if KeyOf(p[0]) == FRAMED {
      FramedFrame(c, p);
    } else if IsList(KeyOf(p[0])) {
      ListFrame(c, p);
    } else if KeyOf(p[0]) == CAP {
      CapabilityFrame(c, p);
    }
  }

  lemma StepServices(c: Config, definitions: Registry, r: Registry, n: nat)
    requires n < |r| && |r[n]| >= 1 && AllServices(c.services, definitions, r, n) && DistinctIds(c.services)
    requires Apply(c, r[n]).ok
    ensures AllServices(Apply(c, r[n]).after.services, definitions, r, n + 1)
    ensures DistinctIds(Apply(c, r[n]).after.services)
  {
    hide KeyOf, ServiceFrom, FindService, AddToService, EqualIgnoreCase, Apply;
    var p := r[n];
    var services, after := c.services, Apply(c, p).after.services;
    if IsRelated(KeyOf(p[0])) {
      ApplyRelated(c, p);
      var k := FindService(services, p[1]);
      AddedId(services[k], p);
      Named(services[k], definitions[k], r, n);
      forall i | 0 <= i < |services| && i != k
        ensures ServiceFrom(after[i], definitions[i], r, n + 1)
      {
        OnlyOneNamed(services, i, k, p[1]);
        Unnamed(services[i], definitions[i], r, n);
      }
      assert forall i :: 0 <= i < |services| ==> after[i].id == services[i].id;
    } else {
      ServicesFrame(c, p);
      forall i | 0 <= i < |services|
        ensures ServiceFrom(services[i], definitions[i], r, n + 1)
      {
        Unnamed(services[i], definitions[i], r, n);
      }
    }
  }

  // ---- the whole configuration ------------------------------------------------------------------

  ghost predicate Contents(c: Config, definitions: Registry, r: Registry, n: nat)
    requires n <= |r|
  {
    && Media(c, r, n)
    && Capabilities(c, r, n)
    && AllServices(c.services, definitions, r, n)
    && DistinctIds(c.services)
  }

  lemma {:induction false} ApplyContents(c: Config, definitions: Registry, r: Registry, n: nat)
    requires Keyed(r) && n <= |r| && Contents(c, definitions, r, 0) && ApplyAll(c, r[..n]).ok
    ensures Contents(ApplyAll(c, r[..n]).after, definitions, r, n)
  {
    hide Apply, Media, Capabilities, AllServices, DistinctIds;
    if n == 0 {
      assert r[..0] == [];
    } else {
      assert r[..n][..n - 1] == r[..n - 1];
      ApplyContents(c, definitions, r, n - 1);
      var before := ApplyAll(c, r[..n - 1]).after;
      StepMedia(before, r, n - 1);
      StepCapabilities(before, r, n - 1);
      StepServices(before, definitions, r, n - 1);
    }
  }

  lemma StartsEmpty(c: Config, r: Registry)
    requires c == EMPTY.(services := c.services)
    ensures Media(c, r, 0) && Capabilities(c, r, 0)
  {
    hide EqualsLiteral;
  }

  lemma DefinedContents(t: Registry)
    requires DefineServices(EMPTY, t).ok
    ensures Contents(DefineServices(EMPTY, t).after, O.CoreEntries(t), t, 0)
  {
    hide DefineServices, Media, Capabilities, AllServices, DistinctIds;
    assert t[..|t|] == t;
    DefineIff(t, |t|);
    DefinedServices(t, |t|, t);
    StartsEmpty(DefineServices(EMPTY, t).after, t);
  }

  /** A configuration made by a successful Create holds what the registry says: the stream types listed, the
      size of the last Framed entry, capability fields grouped by key in the order of the entries, and one
      service per CoreService entry, in their order, with the flows, profile and connection model of the
      entries that name it. */
  lemma CreatedContents(r: Registry)
    ensures Create(EMPTY, r).ok ==>
              && AllFit(r)
              && var t := TrimmedAll(r);
                 Contents(Create(EMPTY, r).after, O.CoreEntries(t), t, |t|)
  {
    hide AllFit, Trimmed, Contents, DefineServices, ApplyAll;
    if Create(EMPTY, r).ok {
      FitIsKeyed(r);
      var t := TrimmedAll(r);
      assert t[..|t|] == t;
      DefinedContents(t);
      ApplyContents(DefineServices(EMPTY, t).after, O.CoreEntries(t), t, |t|);
    }
  }
}
