/** Which registries Create accepts, and what a configuration made from an accepted one looks like. */
module AppConfigValid {
  import opened AStrings
  import opened ImsProperties
  import opened AppConfigModel

  // ---- the condition, entry by entry ----------------------------------------------------------

  /** A well-formed CoreService entry that defines the service `id`. */
  predicate Defines(p: Property, id: AString) {
    IsCore(p) && |p| == 5 && EqualIgnoreCase(p[1], id)
  }

  predicate HasService(r: Registry, id: AString) {
    exists i :: 0 <= i < |r| && Defines(r[i], id)
  }

  predicate Unflagged(id: S.ServiceIdentifier) {
    !id.isExplicit && !id.isRequire
  }

  /** A CoreService entry has five elements, no flag on its IARI, and an id of its own. */
  predicate ValidService(r: Registry, n: nat)
    requires n < |r|
  {
    var p := r[n];
    |p| == 5 && (p[2].Empty() || Unflagged(S.Parse(p[2].Bytes()))) && !HasService(r[..n], p[1])
  }

  predicate ValidServices(r: Registry) {
    forall i :: 0 <= i < |r| && IsCore(r[i]) ==> ValidService(r, i)
  }

  predicate HasKey(p: Property, key: nat) {
    |p| >= 1 && KeyOf(p[0]) == key
  }

  /** A Reg entry for the service `id`. */
  predicate RegistersFor(p: Property, id: AString) {
    HasKey(p, REG) && |p| >= 2 && EqualIgnoreCase(p[1], id)
  }

  /** The property lists of one entry. */
  function ListIn(p: Property): seq<string>
    requires |p| >= 2
  {
    Words(p[1].Bytes())
  }

  predicate ValidRegistration(r: Registry, n: nat)
    requires n < |r|
  {
    var p := r[n];
    && |p| >= 3
    && HasService(r, p[1])
    && (forall i :: 2 <= i < |p| ==> ':' in p[i].Bytes())
    && (forall i :: 0 <= i < n ==> !RegistersFor(r[i], p[1]))
  }

  predicate SpellsSector(text: AString) {
    CStr(text.Bytes()) in {"Session", "Framed", "StreamAudio", "StreamVideo"}
  }

  predicate SpellsMessage(text: AString) {
    CStr(text.Bytes()) in {"Req", "Resp", "Req_Resp"}
  }

  /** A line of a session description: a type, an equals sign, and what belongs to it. Some types describe a session
      as a whole and are for the session sector only; the media line itself is for the other sectors only. */
  predicate SdpLine(text: AString, session: bool) {
    var b := text.Bytes();
    && |b| >= 2 && b[1] == '='
    && (|| b[0] in {'i', 'c', 'b', 'k', 'a'}
        || (if session then b[0] in {'v', 'o', 's', 'u', 'e', 'p', 't', 'r', 'z'} else b[0] == 'm'))
  }

  predicate ValidCapability(p: Property) {
    && |p| >= 3 && SpellsSector(p[1]) && SpellsMessage(p[2])
    && forall i :: 3 <= i < |p| ==> SdpLine(p[i], CStr(p[1].Bytes()) == "Session")
  }

  predicate SpellsType(w: string) {
    EqualsLiteral(w, "audio") || EqualsLiteral(w, "video") || EqualsLiteral(w, "text")
  }

  /** Everything but CoreService entries. A Write entry needs two elements and no more than that. */
  predicate ValidEntry(r: Registry, n: nat)
    requires n < |r| && |r[n]| >= 1
  {
    var p := r[n];
    var key := KeyOf(p[0]);
    if key == STREAM then
      |p| == 2 && NoDuplicate(ListIn(p), true) && forall i :: 0 <= i < |ListIn(p)| ==> SpellsType(ListIn(p)[i])
    else if key == FRAMED then
      |p| == 3 && NoDuplicate(ListIn(p), false) && (p[2].Empty() || Q.ToUInt32(p[2].Bytes()).Some?)
    else if key == BASIC || key == READ then |p| == 2 && NoDuplicate(ListIn(p), false)
    else if key == EVENT then |p| == 2 && NoDuplicate(ListIn(p), true)
    else if key == WRITE then |p| == 2
    else if key == CAP then ValidCapability(p)
    else if key == CORE_SERVICE then true
    else if key == QOS then |p| == 5 && HasService(r, p[1])
    else if key == MPROF then |p| == 3 && HasService(r, p[1])
    else if key == CONNECTION then |p| == 2 && HasService(r, p[1])
    else if key == REG then ValidRegistration(r, n)
    else false
  }

  predicate ValidUpTo(r: Registry, n: nat)
    requires Keyed(r) && n <= |r|
  {
    forall i :: 0 <= i < n ==> ValidEntry(r, i)
  }

  // ---- what the entries say -------------------------------------------------------------------

  predicate Has(r: Registry, n: nat, key: nat)
    requires n <= |r|
  {
    exists i :: 0 <= i < n && HasKey(r[i], key)
  }

  /** The list of the last entry with a key among the first n. */
  function ListOf(r: Registry, n: nat, key: nat): seq<string>
    requires n <= |r|
  {
    if n == 0 then []
    else if HasKey(r[n - 1], key) && |r[n - 1]| >= 2 then ListIn(r[n - 1])
    else ListOf(r, n - 1, key)
  }

  /** The headers that Reg entries among the first n give to a service. */
  function HeadersOf(r: Registry, n: nat, id: AString): seq<AString>
    requires n <= |r|
  {
    if n == 0 then []
    else if RegistersFor(r[n - 1], id) then r[n - 1][2..]
    else HeadersOf(r, n - 1, id)
  }

  predicate UsefulRegistry(r: Registry) {
    || Has(r, |r|, STREAM) || Has(r, |r|, FRAMED) || Has(r, |r|, BASIC)
    || ListOf(r, |r|, EVENT) != []
    || Has(r, |r|, CORE_SERVICE)
  }

  /** The condition for success: it speaks of the entries alone. */
  predicate ValidRegistry(r: Registry) {
    && AllFit(r)
    && var t := TrimmedAll(r);
    && ValidServices(t)
    && ValidUpTo(t, |t|)
    && UsefulRegistry(t)
  }

  // ---- the first pass -------------------------------------------------------------------------

  predicate DistinctIds(services: seq<Service>) {
    forall i, j :: 0 <= i < j < |services| ==> !EqualIgnoreCase(services[i].id, services[j].id)
  }

  predicate NoHeaders(services: seq<Service>) {
    forall i :: 0 <= i < |services| ==> services[i].headers == []
  }

  lemma FindAppended(services: seq<Service>, s: Service, id: AString)
    ensures FindService(services + [s], id) >= 0 <==>
            FindService(services, id) >= 0 || EqualIgnoreCase(s.id, id)
  {
    hide EqualIgnoreCase, FindService;
    var all := services + [s];
    assert all[|services|] == s;
    assert forall i :: 0 <= i < |services| ==> all[i] == services[i];
    var k, j := FindService(services, id), FindService(all, id);
  }

  lemma HasServiceSnoc(r: Registry, n: nat, id: AString)
    requires n < |r|
    ensures HasService(r[..n + 1], id) <==> HasService(r[..n], id) || Defines(r[n], id)
  {
    hide Defines;
    var longer, shorter := r[..n + 1], r[..n];
    assert longer[n] == r[n] && forall i :: 0 <= i < n ==> longer[i] == shorter[i];
  }

  lemma EmptyServices()
    ensures DistinctIds([]) && NoHeaders([])
    ensures forall id :: FindService([], id) < 0 && !HasService([], id)
  {
  }

  lemma NotDefined(r: Registry, n: nat)
    requires n < |r| && !IsCore(r[n])
    ensures forall id :: HasService(r[..n + 1], id) <==> HasService(r[..n], id)
  {
    forall id ensures HasService(r[..n + 1], id) <==> HasService(r[..n], id) {
      HasServiceSnoc(r, n, id);
    }
  }

  lemma DefineOne(r: Registry, n: nat, c: Config)
    requires n < |r| && IsCore(r[n])
    requires c == EMPTY.(services := c.services) && DistinctIds(c.services) && NoHeaders(c.services)
    requires forall id :: FindService(c.services, id) >= 0 <==> HasService(r[..n], id)
    ensures
      var o := AddCoreService(c, r[n]);
      && (o.ok <==> ValidService(r, n))
      && (o.ok ==>
            && o.after == EMPTY.(services := o.after.services)
            && DistinctIds(o.after.services) && NoHeaders(o.after.services)
            && (forall id :: FindService(o.after.services, id) >= 0 <==> HasService(r[..n + 1], id)))
  {
    hide IsCore, FindService, EqualIgnoreCase, HasService;
    var p := r[n];
    var o := AddCoreService(c, p);
    if o.ok {
      var s := NewService(p).value;
      var k := FindService(c.services, p[1]);
      assert s.id == p[1] && s.headers == [];
      forall id ensures FindService(o.after.services, id) >= 0 <==> HasService(r[..n + 1], id) {
        FindAppended(c.services, s, id);
        HasServiceSnoc(r, n, id);
      }
    }
  }

  /** The first pass accepts exactly the valid CoreService entries, and defines exactly their services. */
  lemma {:induction false} DefineIff(r: Registry, n: nat)
    requires n <= |r|
    ensures
      var o := DefineServices(EMPTY, r[..n]);
      && (o.ok <==> forall i :: 0 <= i < n && IsCore(r[i]) ==> ValidService(r, i))
      && (o.ok ==>
            && o.after == EMPTY.(services := o.after.services)
            && DistinctIds(o.after.services) && NoHeaders(o.after.services)
            && (forall id :: FindService(o.after.services, id) >= 0 <==> HasService(r[..n], id)))
  {
    hide IsCore, FindService, NewService, HasService, DistinctIds, NoHeaders, ValidService, AddCoreService;
    if n == 0 {
      EmptyServices();
      assert r[..0] == [];
    } else {
      DefineIff(r, n - 1);
      assert r[..n][..n - 1] == r[..n - 1];
      var o := DefineServices(EMPTY, r[..n - 1]);
      if o.ok {
        if IsCore(r[n - 1]) {
          DefineOne(r, n - 1, o.after);
        } else {
          NotDefined(r, n - 1);
        }
      }
    }
  }

  // ---- the second pass ------------------------------------------------------------------------

  /** What the configuration holds after the first n entries, all valid. */
  predicate Lists(c: Config, r: Registry, n: nat)
    requires n <= |r|
  {
    && (c.stream <==> Has(r, n, STREAM)) && (c.framed <==> Has(r, n, FRAMED)) && (c.basic <==> Has(r, n, BASIC))
    && c.framedTypes == ListOf(r, n, FRAMED) && c.basicTypes == ListOf(r, n, BASIC)
    && c.events == ListOf(r, n, EVENT)
    && c.writeHeaders == ListOf(r, n, WRITE) && c.readHeaders == ListOf(r, n, READ)
    && NoDuplicate(c.framedTypes, false) && NoDuplicate(c.basicTypes, false)
    && NoDuplicate(c.events, true) && NoDuplicate(c.readHeaders, false)
  }

  predicate Headers(services: seq<Service>, r: Registry, n: nat)
    requires n <= |r|
  {
    forall i :: 0 <= i < |services| ==> services[i].headers == HeadersOf(r, n, services[i].id)
  }

  /** The services are those of the first pass, with the headers of the first n entries. */
  ghost predicate Services(c: Config, r: Registry, n: nat)
    requires n <= |r|
  {
    && DistinctIds(c.services)
    && (forall id :: FindService(c.services, id) >= 0 <==> HasService(r, id))
    && Headers(c.services, r, n)
  }

  lemma OneTypeSet(c: Config, w: string)
    ensures var a := SetStreamType(c, w); a == c.(audio := true) || a == c.(video := true) || a == c.(text := true)
  {
    hide EqualsLiteral;
  }

  lemma SetStreamTypeFrame(c: Config, w: string)
    ensures var a := SetStreamType(c, w); a == c.(audio := a.audio, video := a.video, text := a.text)
  {
    hide EqualsLiteral, SetStreamType;
    OneTypeSet(c, w);
  }

  lemma TypeIff(w: string)
    ensures IsStreamType(w) <==> SpellsType(w)
  {
    hide EqualsLiteral;
  }

  lemma {:induction false} StreamTypesIff(c: Config, words: seq<string>)
    ensures SetStreamTypes(c, words).ok <==> forall i :: 0 <= i < |words| ==> SpellsType(words[i])
    ensures var a := SetStreamTypes(c, words).after;
            a == c.(audio := a.audio, video := a.video, text := a.text)
  {
    hide IsStreamType, SetStreamType, SpellsType;
    if words != [] {
      TypeIff(words[|words| - 1]);
      StreamTypesIff(c, words[..|words| - 1]);
      SetStreamTypeFrame(SetStreamTypes(c, words[..|words| - 1]).after, words[|words| - 1]);
    }
  }

  lemma SectorIff(text: AString)
    ensures SectorOf(text) != 0 <==> SpellsSector(text)
    ensures SectorOf(text) == 1 <==> CStr(text.Bytes()) == "Session"
  {
    hide CStr;
  }

  lemma MessageIff(text: AString)
    ensures MessageOf(text) != 0 <==> SpellsMessage(text)
    ensures MessageOf(text) == REQUEST_RESPONSE <==> CStr(text.Bytes()) == "Req_Resp"
  {
    hide CStr;
  }

  lemma MediaTypes(c: char)
    ensures c in SdpTypes(2) <==> c in {'m', 'i', 'c', 'b', 'k', 'a'}
  {
    var s := SdpTypes(2);
    assert |s| == 6 && s[0] == 'm' && s[1] == 'i' && s[2] == 'c' && s[3] == 'b' && s[4] == 'k' && s[5] == 'a';
  }

  lemma SessionTypes(c: char)
    ensures c in SdpTypes(1) <==>
            || c in {'v', 'o', 's', 'u', 'e', 'p', 't', 'r', 'z'}
            || c in {'i', 'c', 'b', 'k', 'a'}
  {
    var s := SdpTypes(1);
    assert |s| == 14 && s[0] == 'v' && s[1] == 'o' && s[2] == 's' && s[3] == 'i' && s[4] == 'u' && s[5] == 'e';
    assert s[6] == 'p' && s[7] == 'c' && s[8] == 'b' && s[9] == 't' && s[10] == 'r' && s[11] == 'z';
    assert s[12] == 'k' && s[13] == 'a';
  }

  lemma SdpLineIff(text: AString, sector: nat)
    ensures IsSdpField(text, sector) <==> SdpLine(text, sector == 1)
  {
    var b := text.Bytes();
    if |b| >= 2 {
      MediaTypes(b[0]);
      SessionTypes(b[0]);
      assert sector != 1 ==> SdpTypes(sector) == SdpTypes(2);
    }
  }

  /** The model accepts a Cap entry by numbers for sectors and types, and strings of line types. */
  lemma CapabilityIff(p: Property)
    ensures ValidCapability(p) <==>
            && |p| >= 3 && SectorOf(p[1]) != 0 && MessageOf(p[2]) != 0
            && forall i :: 3 <= i < |p| ==> IsSdpField(p[i], SectorOf(p[1]))
  {
    hide SectorOf, MessageOf, SpellsSector, SpellsMessage, SdpLine, IsSdpField;
    if |p| >= 3 {
      SectorIff(p[1]);
      MessageIff(p[2]);
      forall i | 3 <= i < |p|
        ensures IsSdpField(p[i], SectorOf(p[1])) <==> SdpLine(p[i], CStr(p[1].Bytes()) == "Session")
      {
        SdpLineIff(p[i], SectorOf(p[1]));
      }
    }
  }

  lemma SdpFrame(c: Config, sector: nat, message: nat, field: AString)
    ensures var a := AddCapabilitySdp(c, sector, message, field); a == c.(capabilities := a.capabilities)
  {
    hide FindCapability, CapKey;
  }

  lemma {:induction false} FieldsIff(c: Config, sector: nat, message: nat, fields: seq<AString>)
    ensures AddFields(c, sector, message, fields).ok <==>
            forall i :: 0 <= i < |fields| ==> IsSdpField(fields[i], sector)
    ensures var a := AddFields(c, sector, message, fields).after;
            a == c.(capabilities := a.capabilities)
  {
    hide IsSdpField, AddCapabilitySdp;
    if fields != [] {
      var init, f := fields[..|fields| - 1], fields[|fields| - 1];
      FieldsIff(c, sector, message, init);
      SdpFrame(AddFields(c, sector, message, init).after, sector, message, f);
      assert forall i :: 0 <= i < |init| ==> fields[i] == init[i];
    }
  }

  lemma {:induction false} HeadersIff(s: Service, headers: seq<AString>)
    ensures AddHeaders(s, headers).ok <==> forall i :: 0 <= i < |headers| ==> ':' in headers[i].Bytes()
    ensures AddHeaders(s, headers).ok ==> AddHeaders(s, headers).after == s.(headers := s.headers + headers)
    ensures AddHeaders(s, headers).after.id == s.id
  {
    if headers == [] {
      assert s.headers + headers == s.headers;
    } else {
      var init, h := headers[..|headers| - 1], headers[|headers| - 1];
      HeadersIff(s, init);
      assert s.headers + init + [h] == s.headers + headers;
    }
  }

  lemma HasSnoc(r: Registry, n: nat, key: nat)
    requires n < |r|
    ensures Has(r, n + 1, key) <==> Has(r, n, key) || HasKey(r[n], key)
  {
    hide HasKey;
  }

  /** An entry that is no Reg entry changes no headers. */
  lemma HeadersKept(services: seq<Service>, r: Registry, n: nat)
    requires n < |r| && Headers(services, r, n) && !HasKey(r[n], REG)
    ensures Headers(services, r, n + 1)
  {
    hide EqualIgnoreCase;
  }

  lemma ListSnoc(r: Registry, n: nat, key: nat)
    requires n < |r|
    ensures ListOf(r, n + 1, key) ==
            if HasKey(r[n], key) && |r[n]| >= 2 then ListIn(r[n]) else ListOf(r, n, key)
  {
  }

  /** What one more entry changes in the lists. */
  lemma ListsSnoc(r: Registry, n: nat)
    requires n < |r| && |r[n]| >= 1
    ensures forall key | key in {STREAM, FRAMED, BASIC} ::
              Has(r, n + 1, key) <==> Has(r, n, key) || KeyOf(r[n][0]) == key
    ensures forall key | key in {FRAMED, BASIC, EVENT, WRITE, READ} ::
              ListOf(r, n + 1, key) ==
              if KeyOf(r[n][0]) == key && |r[n]| >= 2 then ListIn(r[n]) else ListOf(r, n, key)
  {
    hide KeyOf, Has, ListOf, ListIn;
    HasSnoc(r, n, STREAM);
    HasSnoc(r, n, FRAMED);
    HasSnoc(r, n, BASIC);
    ListSnoc(r, n, FRAMED);
    ListSnoc(r, n, BASIC);
    ListSnoc(r, n, EVENT);
    ListSnoc(r, n, WRITE);
    ListSnoc(r, n, READ);
  }

  /** Entries about the application. */
  lemma StepLists(c: Config, r: Registry, n: nat)
    requires n < |r| && |r[n]| >= 1 && Lists(c, r, n)
    requires var key := KeyOf(r[n][0]); key == BASIC || key == EVENT || key == WRITE || key == READ
    ensures var o := Apply(c, r[n]);
            && (o.ok <==> ValidEntry(r, n))
            && (o.ok ==> Lists(o.after, r, n + 1) && o.after.services == c.services)
  {
    hide KeyOf, Words, NoDuplicate, Has, ListOf, AddRelated, AddFramed, AddStream, AddCapability, ValidRegistration,
         ValidCapability;
    ListsSnoc(r, n);
  }

  lemma FramedIff(c: Config, p: Property)
    ensures var o := AddFramed(c, p);
            && (o.ok <==> |p| == 3 && NoDuplicate(ListIn(p), false)
                          && (p[2].Empty() || Q.ToUInt32(p[2].Bytes()).Some?))
            && (o.ok ==> o.after == c.(framed := true, framedTypes := ListIn(p),
                                       hasMaxSize := o.after.hasMaxSize, maxSize := o.after.maxSize))
  {
    hide Words, NoDuplicate, Q.ToUInt32;
  }

  lemma StepFramed(c: Config, r: Registry, n: nat)
    requires n < |r| && |r[n]| >= 1 && Lists(c, r, n) && KeyOf(r[n][0]) == FRAMED
    ensures var o := Apply(c, r[n]);
            && (o.ok <==> ValidEntry(r, n))
            && (o.ok ==> Lists(o.after, r, n + 1) && o.after.services == c.services)
  {
    hide KeyOf, ListIn, NoDuplicate, Q.ToUInt32, Has, ListOf, AddFramed, AddRelated, AddStream, AddBasic, AddEvent,
         AddRead, AddWrite, AddCapability, ValidRegistration, ValidCapability;
    ListsSnoc(r, n);
    FramedIff(c, r[n]);
  }

  lemma StepOthers(c: Config, r: Registry, n: nat)
    requires n < |r| && |r[n]| >= 1 && Lists(c, r, n)
    requires var key := KeyOf(r[n][0]);
             key == STREAM || key == CAP || key == CORE_SERVICE || key == CUSTOM || key == KEY_MAX
    ensures var o := Apply(c, r[n]);
            && (o.ok <==> ValidEntry(r, n))
            && (o.ok ==> Lists(o.after, r, n + 1) && o.after.services == c.services)
  {
    hide KeyOf, Words, NoDuplicate, Has, ListOf, AddRelated, SpellsType, IsSdpField, SectorOf, MessageOf,
         SetStreamTypes, AddFields, ValidCapability;
    ListsSnoc(r, n);
    var p := r[n];
    if KeyOf(p[0]) == STREAM && |p| == 2 {
      StreamTypesIff(c.(stream := true), ListIn(p));
    } else if KeyOf(p[0]) == CAP {
      CapabilityIff(p);
    }
    if KeyOf(p[0]) == CAP && |p| >= 3 {
      FieldsIff(c, SectorOf(p[1]), MessageOf(p[2]), p[3..]);
      assert forall i :: 3 <= i < |p| ==> p[i] == p[3..][i - 3];
    }
  }

  lemma ListsKept(c: Config, r: Registry, n: nat)
    requires n < |r| && |r[n]| >= 1 && IsRelated(KeyOf(r[n][0])) && Lists(c, r, n)
    ensures forall services :: Lists(c.(services := services), r, n + 1)
  {
    hide KeyOf, Words, NoDuplicate, Has, ListOf;
    ListsSnoc(r, n);
  }

  lemma TooShort(r: Registry, n: nat)
    requires n < |r| && |r[n]| == 1 && IsRelated(KeyOf(r[n][0]))
    ensures !ValidEntry(r, n)
  {
    hide KeyOf;
  }

  lemma NotNamed(r: Registry, n: nat)
    requires n < |r| && |r[n]| >= 2 && IsRelated(KeyOf(r[n][0])) && !HasService(r, r[n][1])
    ensures !ValidEntry(r, n)
  {
    hide KeyOf, HasService;
  }

  lemma ServicesFind(c: Config, r: Registry, n: nat, id: AString)
    requires n <= |r| && Services(c, r, n)
    ensures FindService(c.services, id) >= 0 <==> HasService(r, id)
  {
    hide FindService, HasService;
  }

  lemma HeadersNow(services: seq<Service>, r: Registry, n: nat, k: nat)
    requires n <= |r| && k < |services| && Headers(services, r, n)
    ensures services[k].headers == HeadersOf(r, n, services[k].id)
  {
    hide HeadersOf;
  }

  lemma HeadersUnfold(r: Registry, n: nat, id: AString)
    requires 0 < n <= |r|
    ensures RegistersFor(r[n - 1], id) ==> |r[n - 1]| >= 2 && HeadersOf(r, n, id) == r[n - 1][2..]
    ensures !RegistersFor(r[n - 1], id) ==> HeadersOf(r, n, id) == HeadersOf(r, n - 1, id)
  {
    hide KeyOf, EqualIgnoreCase;
  }

  lemma HeadersSnoc(r: Registry, n: nat, id: AString)
    requires n < |r|
    ensures HeadersOf(r, n + 1, id) == if RegistersFor(r[n], id) then r[n][2..] else HeadersOf(r, n, id)
  {
    hide RegistersFor, HeadersOf;
    HeadersUnfold(r, n + 1, id);
  }

  lemma SameFor(a: AString, b: AString)
    requires EqualIgnoreCase(a, b)
    ensures forall p :: RegistersFor(p, a) <==> RegistersFor(p, b)
    ensures EqualIgnoreCase(b, a)
  {
    hide CStr, MakeLower;
  }

  lemma RegHasHeaders(r: Registry, n: nat, id: AString)
    requires n < |r| && |r[n]| >= 1 && ValidEntry(r, n) && RegistersFor(r[n], id)
    ensures |r[n]| >= 3
  {
    hide KeyOf, EqualIgnoreCase, HasService;
  }

  /** A service has headers exactly if some Reg entry named it. */
  lemma {:induction false} HeadersPresent(r: Registry, n: nat, id: AString, name: AString)
    requires Keyed(r) && n <= |r| && ValidUpTo(r, n) && EqualIgnoreCase(id, name)
    ensures HeadersOf(r, n, id) != [] <==> exists i :: 0 <= i < n && RegistersFor(r[i], name)
  {
    hide EqualIgnoreCase, RegistersFor, ValidEntry;
    SameFor(id, name);
    if n > 0 {
      HeadersPresent(r, n - 1, id, name);
      if RegistersFor(r[n - 1], id) {
        assert ValidEntry(r, n - 1);
        RegHasHeaders(r, n - 1, id);
      }
    }
  }

  lemma StepRegistration(s: Service, r: Registry, n: nat)
    requires Keyed(r) && n < |r| && ValidUpTo(r, n) && s.headers == HeadersOf(r, n, s.id)
    requires KeyOf(r[n][0]) == REG && |r[n]| >= 2 && HasService(r, r[n][1]) && EqualIgnoreCase(s.id, r[n][1])
    ensures var o := AddRegistrationHeaders(s, r[n]);
            && (o.ok <==> ValidRegistration(r, n))
            && o.after.id == s.id
            && (o.ok ==> o.after.headers == HeadersOf(r, n + 1, s.id))
  {
    hide KeyOf, HasService, EqualIgnoreCase, ValidUpTo, HeadersOf, AddHeaders;
    var p := r[n];
    HeadersPresent(r, n, s.id, p[1]);
    SameFor(s.id, p[1]);
    HeadersSnoc(r, n, s.id);
    if |p| >= 3 {
      HeadersIff(s, p[2..]);
      assert forall i :: 2 <= i < |p| ==> p[i] == p[2..][i - 2];
      assert s.headers == [] ==> s.headers + p[2..] == p[2..];
    }
  }

  /** Whether the service takes the entry over, and what its headers become. */
  lemma StepService(c: Config, r: Registry, n: nat, k: nat)
    requires Keyed(r) && n < |r| && Services(c, r, n) && ValidUpTo(r, n)
    requires IsRelated(KeyOf(r[n][0])) && |r[n]| >= 2 && HasService(r, r[n][1])
    requires k == FindService(c.services, r[n][1])
    ensures var o := AddToService(c.services[k], r[n]);
            && (o.ok <==> ValidEntry(r, n))
            && o.after.id == c.services[k].id
            && (o.ok ==> o.after.headers == HeadersOf(r, n + 1, o.after.id))
  {
    hide KeyOf, HasService, FindService, EqualIgnoreCase, ValidUpTo, Words, NoDuplicate, FlowOf, AddHeaders,
         HeadersOf, Headers;
    var s, p := c.services[k], r[n];
    HeadersNow(c.services, r, n, k);
    if KeyOf(p[0]) == REG {
      StepRegistration(s, r, n);
    } else {
      HeadersSnoc(r, n, s.id);
    }
  }

  lemma NamedBackwards(a: AString, b: AString)
    ensures EqualIgnoreCase(a, b) == EqualIgnoreCase(b, a)
  {
    hide CStr, MakeLower;
  }

  lemma OnlyOneNamed(services: seq<Service>, i: nat, k: nat, name: AString)
    requires DistinctIds(services) && i < |services| && k < |services| && i != k
    requires EqualIgnoreCase(services[k].id, name)
    ensures !EqualIgnoreCase(services[i].id, name)
  {
    hide CStr, MakeLower;
    assert !EqualIgnoreCase(services[if i < k then i else k].id, services[if i < k then k else i].id);
  }

  /** Other services than the one found do not have the name, so their headers stay. */
  lemma Replaced(c: Config, r: Registry, n: nat, k: nat, s: Service)
    requires n < |r| && |r[n]| >= 2 && Services(c, r, n) && k == FindService(c.services, r[n][1])
    requires s.id == c.services[k].id && s.headers == HeadersOf(r, n + 1, s.id)
    ensures Services(c.(services := c.services[k := s]), r, n + 1)
  {
    hide EqualIgnoreCase, FindService, HasService, HasKey;
    var after := c.services[k := s];
    assert forall i :: 0 <= i < |after| ==> after[i].id == c.services[i].id;
    forall id ensures FindService(after, id) >= 0 <==> FindService(c.services, id) >= 0 {
      var a, b := FindService(after, id), FindService(c.services, id);
    }
    forall i | 0 <= i < |after|
      ensures after[i].headers == HeadersOf(r, n + 1, after[i].id)
    {
      if i != k {
        OnlyOneNamed(c.services, i, k, r[n][1]);
        NamedBackwards(after[i].id, r[n][1]);
      }
    }
  }

  /** Entries about a service touch that service only. */
  lemma StepRelated(c: Config, r: Registry, n: nat)
    requires Keyed(r) && n < |r| && Lists(c, r, n) && Services(c, r, n)
    requires IsRelated(KeyOf(r[n][0])) && ValidUpTo(r, n)
    ensures var o := Apply(c, r[n]);
            && (o.ok <==> ValidEntry(r, n))
            && (o.ok ==> Lists(o.after, r, n + 1) && Services(o.after, r, n + 1))
  {
    hide KeyOf, Words, NoDuplicate, Has, EqualIgnoreCase, FindService, HasService, AddToService, Lists, Services,
         ValidEntry, ListOf, ValidUpTo, DistinctIds, Headers;
    var p := r[n];
    assert Apply(c, p) == AddRelated(c, p);
    ListsKept(c, r, n);
    if |p| < 2 {
      TooShort(r, n);
    } else {
      var k := FindService(c.services, p[1]);
      ServicesFind(c, r, n, p[1]);
      if k < 0 {
        NotNamed(r, n);
      } else {
        var o := AddToService(c.services[k], p);
        StepService(c, r, n, k);
        if o.ok {
          Replaced(c, r, n, k, o.after);
        }
      }
    }
  }

  /** One entry of the second pass: accepted exactly if valid, and then the facts carry over. */
  lemma StepIff(c: Config, r: Registry, n: nat)
    requires Keyed(r) && n < |r| && Lists(c, r, n) && Services(c, r, n) && ValidUpTo(r, n)
    ensures var o := Apply(c, r[n]);
            && (o.ok <==> ValidEntry(r, n))
            && (o.ok ==> Lists(o.after, r, n + 1) && Services(o.after, r, n + 1))
  {
    hide KeyOf, Lists, Apply, ValidEntry, FindService, HasService, Headers, ValidUpTo;
    var key := KeyOf(r[n][0]);
    if IsRelated(key) {
      StepRelated(c, r, n);
    } else {
      if key == FRAMED {
        StepFramed(c, r, n);
      } else if key == BASIC || key == EVENT || key == WRITE || key == READ {
        StepLists(c, r, n);
      } else {
        StepOthers(c, r, n);
      }
      HeadersKept(c.services, r, n);
    }
  }

  lemma {:induction false} ApplyIff(c: Config, r: Registry, n: nat)
    requires Keyed(r) && n <= |r| && Lists(c, r, 0) && Services(c, r, 0)
    ensures Keyed(r[..n])
    ensures var o := ApplyAll(c, r[..n]);
            && (o.ok <==> ValidUpTo(r, n))
            && (o.ok ==> Lists(o.after, r, n) && Services(o.after, r, n))
  {
    hide KeyOf, Lists, Services, Apply, ValidEntry;
    if n == 0 {
      assert r[..0] == [];
    } else {
      ApplyIff(c, r, n - 1);
      assert r[..n][..n - 1] == r[..n - 1];
      var o := ApplyAll(c, r[..n - 1]);
      if o.ok {
        StepIff(o.after, r, n - 1);
      }
    }
  }

  // ---- Create -----------------------------------------------------------------------------------

  lemma DefinedStarts(r: Registry)
    requires DefineServices(EMPTY, r).ok
    ensures var c := DefineServices(EMPTY, r).after; Lists(c, r, 0) && Services(c, r, 0)
  {
    hide FindService, HasService, DistinctIds;
    DefineIff(r, |r|);
    assert r[..|r|] == r;
  }

  lemma AnyService(r: Registry, c: Config)
    requires ValidServices(r) && forall id :: FindService(c.services, id) >= 0 <==> HasService(r, id)
    ensures c.services != [] <==> Has(r, |r|, CORE_SERVICE)
  {
    hide EqualIgnoreCase, KeyOf, FindService, NewService;
    if c.services != [] {
      var id := c.services[0].id;
      EqualToItself(id);
      assert FindService(c.services, id) >= 0;
      var i :| 0 <= i < |r| && Defines(r[i], id);
      assert HasKey(r[i], CORE_SERVICE);
    }
    if Has(r, |r|, CORE_SERVICE) {
      var i :| 0 <= i < |r| && HasKey(r[i], CORE_SERVICE);
      assert IsCore(r[i]) && ValidService(r, i);
      EqualToItself(r[i][1]);
      assert Defines(r[i], r[i][1]);
      assert FindService(c.services, r[i][1]) >= 0;
    }
  }

  lemma FitIsKeyed(r: Registry)
    requires AllFit(r)
    ensures Keyed(r) && Keyed(TrimmedAll(r))
  {
    hide Trimmed, KeyOf, Equal;
    forall i | 0 <= i < |r| ensures |r[i]| >= 1 {
      assert Fits(r[i], r[..i]);
    }
  }

  /** On a fresh configuration Create succeeds exactly on the valid registries. */
  lemma CreateSucceedsIff(r: Registry)
    ensures Create(EMPTY, r).ok <==> ValidRegistry(r)
  {
    hide AllFit, Trimmed, ValidEntry, IsCore, FindService, HasService, DistinctIds, Headers, KeyOf, Has, ListOf;
    if AllFit(r) {
      FitIsKeyed(r);
      var t := TrimmedAll(r);
      DefineIff(t, |t|);
      assert t[..|t|] == t;
      var defined := DefineServices(EMPTY, t);
      if defined.ok {
        DefinedStarts(t);
        ApplyIff(defined.after, t, |t|);
        var applied := ApplyAll(defined.after, t);
        if applied.ok {
          AnyService(t, applied.after);
        }
      }
    }
  }

  /** What success means: the ids are pairwise different ignoring case; the registry's lists are taken
      over and hold no duplicates; every service has exactly the headers of its Reg entry. */
  lemma CreatedConfig(r: Registry)
    requires Create(EMPTY, r).ok
    ensures AllFit(r)
    ensures var c, t := Create(EMPTY, r).after, TrimmedAll(r);
            && Lists(c, t, |t|) && Services(c, t, |t|) && ValidServices(t)
            && Keyed(t) && ValidUpTo(t, |t|)
  {
    hide AllFit, Trimmed, ValidEntry, IsCore, FindService, HasService, DistinctIds, Headers, KeyOf, Has, ListOf;
    FitIsKeyed(r);
    var t := TrimmedAll(r);
    DefineIff(t, |t|);
    assert t[..|t|] == t;
    DefinedStarts(t);
    ApplyIff(DefineServices(EMPTY, t).after, t, |t|);
  }

  /** Every entry about a service names one that is defined, wherever its definition stands. */
  lemma RelatedEntriesNameServices(r: Registry, n: nat)
    ensures Create(EMPTY, r).ok && n < |r| ==>
              && AllFit(r)
              && var t := TrimmedAll(r);
                 && |t[n]| >= 1
                 && (IsRelated(KeyOf(t[n][0])) ==>
                       |t[n]| >= 2 && FindService(Create(EMPTY, r).after.services, t[n][1]) >= 0)
  {
    hide AllFit, Trimmed, FindService, HasService, DistinctIds, Headers, KeyOf, Has, ListOf, Create, Lists;
    if Create(EMPTY, r).ok && n < |r| {
      CreatedConfig(r);
      var t := TrimmedAll(r);
      assert ValidEntry(t, n);
    }
  }

  /** The headers of one service, against all entries. */
  predicate HeadersFromOneEntry(s: Service, t: Registry) {
    && (forall i, j :: 0 <= i < j < |t| ==> !(RegistersFor(t[i], s.id) && RegistersFor(t[j], s.id)))
    && (forall i :: 0 <= i < |t| && RegistersFor(t[i], s.id) ==> s.headers == t[i][2..])
    && ((forall i :: 0 <= i < |t| ==> !RegistersFor(t[i], s.id)) ==> s.headers == [])
    && (forall i :: 0 <= i < |s.headers| ==> ':' in s.headers[i].Bytes())
  }

  lemma OnlyOneRegisters(r: Registry, i: nat, j: nat, id: AString)
    requires Keyed(r) && i < j < |r| && ValidEntry(r, j)
    ensures !(RegistersFor(r[i], id) && RegistersFor(r[j], id))
  {
    hide KeyOf, HasService, EqualIgnoreCase;
    if RegistersFor(r[j], id) {
      SameFor(r[j][1], id);
    }
  }

  lemma ColonsIn(r: Registry, n: nat)
    requires n < |r| && HasKey(r[n], REG) && ValidEntry(r, n)
    ensures |r[n]| >= 2 && forall i :: 0 <= i < |r[n][2..]| ==> ':' in r[n][2..][i].Bytes()
  {
    hide KeyOf, HasService;
    var p := r[n];
    assert forall i :: 0 <= i < |p[2..]| ==> p[2..][i] == p[i + 2];
  }

  lemma {:induction false} HeadersAt(r: Registry, n: nat, id: AString)
    requires Keyed(r) && n <= |r| && ValidUpTo(r, n)
    requires forall i, j :: 0 <= i < j < n ==> !(RegistersFor(r[i], id) && RegistersFor(r[j], id))
    ensures forall i :: 0 <= i < n && RegistersFor(r[i], id) ==> |r[i]| >= 2 && HeadersOf(r, n, id) == r[i][2..]
    ensures (forall i :: 0 <= i < n ==> !RegistersFor(r[i], id)) ==> HeadersOf(r, n, id) == []
    ensures forall i :: 0 <= i < |HeadersOf(r, n, id)| ==> ':' in HeadersOf(r, n, id)[i].Bytes()
  {
    hide EqualIgnoreCase, ValidEntry, KeyOf;
    if n > 0 {
      HeadersAt(r, n - 1, id);
      if RegistersFor(r[n - 1], id) {
        assert ValidEntry(r, n - 1);
        ColonsIn(r, n - 1);
      }
    }
  }

  lemma OneEntry(s: Service, t: Registry)
    requires Keyed(t) && ValidUpTo(t, |t|) && s.headers == HeadersOf(t, |t|, s.id)
    ensures HeadersFromOneEntry(s, t)
  {
    hide RegistersFor, ValidEntry, HeadersOf;
    forall i, j | 0 <= i < j < |t|
      ensures !(RegistersFor(t[i], s.id) && RegistersFor(t[j], s.id))
    {
      OnlyOneRegisters(t, i, j, s.id);
    }
    HeadersAt(t, |t|, s.id);
  }

  /** A service's headers come from one Reg entry, the only one that names it, and hold a colon each; a
      service that no Reg entry names has none. */
  lemma HeadersComeFromOneEntry(r: Registry)
    ensures Create(EMPTY, r).ok ==>
              && AllFit(r)
              && forall k :: 0 <= k < |Create(EMPTY, r).after.services| ==>
                   HeadersFromOneEntry(Create(EMPTY, r).after.services[k], TrimmedAll(r))
  {
    hide AllFit, Trimmed, FindService, HasService, DistinctIds, KeyOf, Has, ListOf, Create, Lists, EqualIgnoreCase;
    hide RegistersFor, ValidEntry, HeadersFromOneEntry;
    if Create(EMPTY, r).ok {
      CreatedConfig(r);
      var services, t := Create(EMPTY, r).after.services, TrimmedAll(r);
      forall k | 0 <= k < |services|
        ensures HeadersFromOneEntry(services[k], t)
      {
        OneEntry(services[k], t);
      }
    }
  }
}
