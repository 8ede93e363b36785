/** The application configuration that a registry describes, as values: what each kind of entry adds, and
    the two passes of Create. Follows AppConfig.cpp, CoreServiceConfig.cpp and CapProperty.cpp.
 */
module AppConfigModel {
  import opened AStrings
  import opened ImsProperties
  import Q = QosProperties
  import S = ServiceIdentifiers

  datatype FlowSpec = FlowSpec(contentType: AString, qos: Q.QualityOfService)

  datatype Service = Service(id: AString, iari: Option<S.ServiceIdentifier>, icsis: seq<S.ServiceIdentifier>,
    featureTags: seq<S.ServiceIdentifier>, sends: seq<FlowSpec>, receives: seq<FlowSpec>, headers: seq<AString>,
    profile: AString, connection: bool)

  datatype Capability = Capability(sector: nat, message: nat, fields: seq<AString>)

  datatype Config = Config(stream: bool, audio: bool, video: bool, text: bool, framed: bool,
    framedTypes: seq<string>, hasMaxSize: bool, maxSize: nat, basic: bool, basicTypes: seq<string>,
    events: seq<string>, services: seq<Service>, writeHeaders: seq<string>, readHeaders: seq<string>,
    capabilities: seq<Capability>)

  const EMPTY := Config(false, false, false, false, false, [], false, 0, false, [], [], [], [], [], [])

  /** The state after a call and what it returned. */
  datatype Outcome<T> = Outcome(after: T, ok: bool)

  // ---- entries about the application ----------------------------------------------------------

  predicate IsStreamType(w: string) {
    EqualsLiteral(w, "audio") || EqualsLiteral(w, "video") || EqualsLiteral(w, "text")
  }

  function SetStreamType(c: Config, w: string): Config {
    if EqualsLiteral(w, "audio") then c.(audio := true)
    else if EqualsLiteral(w, "video") then c.(video := true)
    else c.(text := true)
  }

  /** The types are taken over one by one up to the first unknown one. */
  function SetStreamTypes(c: Config, words: seq<string>): Outcome<Config> {
    if words == [] then Outcome(c, true)
    else
      var o := SetStreamTypes(c, words[..|words| - 1]);
      var w := words[|words| - 1];
      if !o.ok then o
      else if IsStreamType(w) then Outcome(SetStreamType(o.after, w), true)
      else Outcome(o.after, false)
  }

  function AddStream(c: Config, p: Property): Outcome<Config> {
    if |p| != 2 then Outcome(c, false)
    else
      var words := Words(p[1].Bytes());
      if !NoDuplicate(words, true) then Outcome(c.(stream := true), false)
      else SetStreamTypes(c.(stream := true), words)
  }

  /** A bad size empties the list of types but leaves framed media supported. */
  function AddFramed(c: Config, p: Property): Outcome<Config> {
    if |p| != 3 then Outcome(c, false)
    else
      var words := Words(p[1].Bytes());
      var c1 := c.(framedTypes := words);
      if !NoDuplicate(words, false) then Outcome(c1, false)
      else if p[2].Empty() then Outcome(c1.(framed := true, hasMaxSize := false, maxSize := 0), true)
      else
        match Q.ToUInt32(p[2].Bytes())
        case None => Outcome(c1.(framed := true, framedTypes := [], maxSize := 0), false)
        case Some(n) => Outcome(c1.(framed := true, hasMaxSize := true, maxSize := n), true)
  }

  function AddBasic(c: Config, p: Property): Outcome<Config> {
    if |p| != 2 then Outcome(c, false)
    else
      var words := Words(p[1].Bytes());
      if !NoDuplicate(words, false) then Outcome(c.(basicTypes := words), false)
      else Outcome(c.(basicTypes := words, basic := true), true)
  }

  function AddEvent(c: Config, p: Property): Outcome<Config> {
    if |p| != 2 then Outcome(c, false)
    else
      var words := Words(p[1].Bytes());
      Outcome(c.(events := words), NoDuplicate(words, true))
  }

  /** The list that is checked is the one for reading. */
  function AddWrite(c: Config, p: Property): Outcome<Config> {
    if |p| != 2 then Outcome(c, false)
    else Outcome(c.(writeHeaders := Words(p[1].Bytes())), NoDuplicate(c.readHeaders, false))
  }

  function AddRead(c: Config, p: Property): Outcome<Config> {
    if |p| != 2 then Outcome(c, false)
    else
      var words := Words(p[1].Bytes());
      Outcome(c.(readHeaders := words), NoDuplicate(words, false))
  }

  // ---- capabilities ---------------------------------------------------------------------------

  const REQUEST_RESPONSE := 3

  function SectorName(n: nat): string {
    if n == 1 then "Session" else if n == 2 then "Framed" else if n == 3 then "StreamAudio" else "StreamVideo"
  }

  function MessageName(n: nat): string {
    if n == 1 then "Req" else if n == 2 then "Resp" else "Req_Resp"
  }

  /** The sector or message type spelled by a text, 0 if none. */
  function SectorOf(text: AString): (n: nat)
    ensures n <= 4
  {
    var s := CStr(text.Bytes());
    if s == SectorName(1) then 1 else if s == SectorName(2) then 2
    else if s == SectorName(3) then 3 else if s == SectorName(4) then 4 else 0
  }

  function MessageOf(text: AString): (n: nat)
    ensures n <= REQUEST_RESPONSE
  {
    var s := CStr(text.Bytes());
    if s == MessageName(1) then 1 else if s == MessageName(2) then 2 else if s == MessageName(3) then 3 else 0
  }

  /** CreateCapKey: all capabilities for request and response share the null key, 0 here. */
  function CapKey(sector: nat, message: nat): nat {
    if sector == 0 || message == 0 || message == REQUEST_RESPONSE then 0 else sector + 16 * message
  }

  /** Index of the capability that fields of a sector and message type go to, or -1. */
  function FindCapability(caps: seq<Capability>, key: nat): (k: int)
    ensures -1 <= k < |caps|
    ensures k >= 0 ==> CapKey(caps[k].sector, caps[k].message) == key
    ensures forall i :: 0 <= i < (if k < 0 then |caps| else k) ==> CapKey(caps[i].sector, caps[i].message) != key
  {
    if caps == [] then -1
    else if CapKey(caps[0].sector, caps[0].message) == key then 0
    else
      var k := FindCapability(caps[1..], key);
      if k < 0 then -1 else k + 1
  }

  function AddCapabilitySdp(c: Config, sector: nat, message: nat, field: AString): Config {
    var k := FindCapability(c.capabilities, CapKey(sector, message));
    if k >= 0 then
      c.(capabilities := c.capabilities[k := c.capabilities[k].(fields := c.capabilities[k].fields + [field])])
    else c.(capabilities := c.capabilities + [Capability(sector, message, [field])])
  }

  function SdpTypes(sector: nat): string {
    if sector == 1 then "vosiuepcbtrzka" else "micbka"
  }

  predicate IsSdpField(field: AString, sector: nat) {
    var s := field.Bytes();
    |s| >= 2 && s[1] == '=' && s[0] in SdpTypes(sector)
  }

  function AddFields(c: Config, sector: nat, message: nat, fields: seq<AString>): Outcome<Config> {
    if fields == [] then Outcome(c, true)
    else
      var o := AddFields(c, sector, message, fields[..|fields| - 1]);
      var f := fields[|fields| - 1];
      if !o.ok then o
      else if IsSdpField(f, sector) then Outcome(AddCapabilitySdp(o.after, sector, message, f), true)
      else Outcome(o.after, false)
  }

  function AddCapability(c: Config, p: Property): Outcome<Config> {
    if |p| < 3 || SectorOf(p[1]) == 0 || MessageOf(p[2]) == 0 then Outcome(c, false)
    else AddFields(c, SectorOf(p[1]), MessageOf(p[2]), p[3..])
  }

  // ---- core services --------------------------------------------------------------------------

  function FindService(services: seq<Service>, id: AString): (k: int)
    ensures -1 <= k < |services|
    ensures k >= 0 ==> EqualIgnoreCase(services[k].id, id)
    ensures forall i :: 0 <= i < (if k < 0 then |services| else k) ==> !EqualIgnoreCase(services[i].id, id)
  {
    if services == [] then -1
    else if EqualIgnoreCase(services[0].id, id) then 0
    else
      var k := FindService(services[1..], id);
      if k < 0 then -1 else k + 1
  }

  function Identifiers(words: seq<string>): (ids: seq<S.ServiceIdentifier>)
    ensures |ids| == |words| && forall i :: 0 <= i < |ids| ==> ids[i] == S.Parse(words[i])
  {
    seq(|words|, i requires 0 <= i < |words| => S.Parse(words[i]))
  }

  predicate HasFlags(id: S.ServiceIdentifier) {
    id.isExplicit || id.isRequire
  }

  /** The service that a CoreService entry of five elements defines; its IARI may not carry a flag. */
  function NewService(p: Property): Option<Service>
    requires |p| == 5
  {
    if !p[2].Empty() && HasFlags(S.Parse(p[2].Bytes())) then None
    else
      Some(Service(p[1], if p[2].Empty() then None else Some(S.Parse(p[2].Bytes())),
                   Identifiers(Words(p[3].Bytes())), Identifiers(Words(p[4].Bytes())), [], [], [], Null, false))
  }

  function AddCoreService(c: Config, p: Property): Outcome<Config> {
    if |p| != 5 || FindService(c.services, p[1]) >= 0 || NewService(p) == None then Outcome(c, false)
    else Outcome(c.(services := c.services + [NewService(p).value]), true)
  }

  const NO_QOS := Q.QualityOfService(0, 0, 0, 0, 0, 0, 0)

  /** A flow specification that does not parse stays zero. */
  function FlowOf(contentType: AString, text: AString): FlowSpec {
    FlowSpec(contentType, match Q.Parse(text) case Some(q) => q case None => NO_QOS)
  }

  /** The receiving flow is parsed, but the sending one is stored twice. */
  function AddQos(s: Service, p: Property): Outcome<Service> {
    if |p| != 5 then Outcome(s, false)
    else
      var send := FlowOf(p[2], p[3]);
      Outcome(s.(sends := s.sends + [send], receives := s.receives + [send]), true)
  }

  function AddHeaders(s: Service, headers: seq<AString>): Outcome<Service> {
    if headers == [] then Outcome(s, true)
    else
      var o := AddHeaders(s, headers[..|headers| - 1]);
      var h := headers[|headers| - 1];
      if !o.ok then o
      else if ':' in h.Bytes() then Outcome(o.after.(headers := o.after.headers + [h]), true)
      else Outcome(o.after, false)
  }

  function AddRegistrationHeaders(s: Service, p: Property): Outcome<Service> {
    if s.headers != [] || |p| < 3 then Outcome(s, false) else AddHeaders(s, p[2..])
  }

  function AddToService(s: Service, p: Property): Outcome<Service>
    requires |p| >= 1
  {
    var key := KeyOf(p[0]);
    if key == QOS then AddQos(s, p)
    else if key == REG then AddRegistrationHeaders(s, p)
    else if key == MPROF then
      if |p| != 3 then Outcome(s, false) else Outcome(s.(profile := p[2]), true)
    else if key == CONNECTION then
      if |p| != 2 then Outcome(s, false) else Outcome(s.(connection := true), true)
    else Outcome(s, false)
  }

  function AddRelated(c: Config, p: Property): Outcome<Config>
    requires |p| >= 1
  {
    if |p| < 2 then Outcome(c, false)
    else
      var k := FindService(c.services, p[1]);
      if k < 0 then Outcome(c, false)
      else
        var o := AddToService(c.services[k], p);
        Outcome(c.(services := c.services[k := o.after]), o.ok)
  }

  predicate IsRelated(key: nat) {
    key == QOS || key == REG || key == MPROF || key == CONNECTION
  }

  // ---- Create -----------------------------------------------------------------------------------

  predicate IsCore(p: Property) {
    |p| >= 1 && KeyOf(p[0]) == CORE_SERVICE
  }

  /** The second pass on one entry. */
  function Apply(c: Config, p: Property): Outcome<Config>
    requires |p| >= 1
  {
    var key := KeyOf(p[0]);
    if key == STREAM then AddStream(c, p)
    else if key == FRAMED then AddFramed(c, p)
    else if key == BASIC then AddBasic(c, p)
    else if key == EVENT then AddEvent(c, p)
    else if key == READ then AddRead(c, p)
    else if key == WRITE then AddWrite(c, p)
    else if key == CAP then AddCapability(c, p)
    else if key == CORE_SERVICE then Outcome(c, true)
    else if IsRelated(key) then AddRelated(c, p)
    else Outcome(c, false)
  }

  predicate Keyed(r: Registry) {
    forall i :: 0 <= i < |r| ==> |r[i]| >= 1
  }

  function DefineServices(c: Config, r: Registry): Outcome<Config> {
    if r == [] then Outcome(c, true)
    else
      var o := DefineServices(c, r[..|r| - 1]);
      var p := r[|r| - 1];
      if !o.ok then o else if IsCore(p) then AddCoreService(o.after, p) else o
  }

  function ApplyAll(c: Config, r: Registry): Outcome<Config>
    requires Keyed(r)
  {
    if r == [] then Outcome(c, true)
    else
      var o := ApplyAll(c, r[..|r| - 1]);
      if !o.ok then o else Apply(o.after, r[|r| - 1])
  }

  predicate Mandatory(c: Config) {
    c.stream || c.framed || c.basic || c.events != [] || c.services != []
  }

  /** Create: check and trim, define the services, apply everything else, and ask for at least one
      property that makes a registry useful. */
  function Create(c: Config, r: Registry): Outcome<Config> {
    if !AllFit(r) then Outcome(c, false)
    else
      var t := TrimmedAll(r);
      var defined := DefineServices(c, t);
      if !defined.ok then defined
      else
        var applied := ApplyAll(defined.after, t);
        if !applied.ok then applied else Outcome(applied.after, Mandatory(applied.after))
  }
}
