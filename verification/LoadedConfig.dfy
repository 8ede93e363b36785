/** The loader and the validator together: what the sections of a content become in the configuration, under the
    names the sections use.
 */
module LoadedConfigs {
  import opened AStrings
  import opened ImsProperties
  import opened RegistryLoader
  import opened AppConfigModel
  import opened AppConfigValid
  import opened AppConfigContents

  /** The registry that a content is loaded as. */
  function Loaded(s: Sections): Registry
    requires AllPresent(s, KEY_MAX - 1)
  {
    Emitted(s, KEY_MAX - 1)
  }

  // ---- entries and sections --------------------------------------------------------------------

  /** How many sections of a key are read. */
  function SectionsOf(s: Sections, key: nat): nat
    requires key < KEY_MAX
  {
    Positive(Declared(s, key))
  }

  lemma SectionIsThere(s: Sections, key: nat, k: nat)
    requires AllPresent(s, KEY_MAX - 1) && 1 <= key < KEY_MAX && k < SectionsOf(s, key)
    ensures NameOf(key, k) in s
  {
    hide Declared, NameOf;
    assert SectionsPresent(s, key, Positive(Declared(s, key)));
  }

  /** The entry that a section becomes. */
  function EntryFor(s: Sections, key: nat, k: nat): Property
    requires AllPresent(s, KEY_MAX - 1) && 1 <= key < KEY_MAX && k < SectionsOf(s, key)
  {
    SectionIsThere(s, key, k);
    EntryOf(key, s[NameOf(key, k)])
  }

  lemma EntryForKey(s: Sections, key: nat, k: nat)
    requires AllPresent(s, KEY_MAX - 1) && 1 <= key < KEY_MAX && k < SectionsOf(s, key)
    ensures var p := EntryFor(s, key, k); |p| >= 2 && KeyOf(p[0]) == key
  {
    hide KeyName, KeyOf, EntryOf, AllPresent, Declared;
    KeyOfName(key);
  }

  lemma BlockEntry(s: Sections, key: nat, k: nat)
    requires AllPresent(s, KEY_MAX - 1) && 1 <= key < KEY_MAX && k < SectionsOf(s, key)
    ensures SectionsPresent(s, key, SectionsOf(s, key))
    ensures Block(s, key, SectionsOf(s, key))[k] == EntryFor(s, key, k)
  {
    hide Declared, NameOf, EntryOf;
    assert SectionsPresent(s, key, Positive(Declared(s, key)));
  }

  lemma EmittedStep(s: Sections, last: nat)
    requires AllPresent(s, KEY_MAX - 1) && 1 <= last < KEY_MAX
    ensures AllPresent(s, last) && AllPresent(s, last - 1) && SectionsPresent(s, last, SectionsOf(s, last))
    ensures Emitted(s, last) == Emitted(s, last - 1) + Block(s, last, SectionsOf(s, last))
  {
    hide Declared, SectionsPresent, Block;
  }

  lemma EmittedPresent(s: Sections, last: nat)
    requires AllPresent(s, KEY_MAX - 1) && last < KEY_MAX
    ensures AllPresent(s, last)
  {
    hide Declared, SectionsPresent;
  }

  lemma EmittedNone(s: Sections)
    ensures AllPresent(s, 0) && Emitted(s, 0) == []
  {
  }

  /** Every entry comes from a section. */
  lemma {:induction false} EntryStems(s: Sections, last: nat, i: nat) returns (key: nat, k: nat)
    requires AllPresent(s, KEY_MAX - 1) && last < KEY_MAX && AllPresent(s, last) && i < |Emitted(s, last)|
    ensures 1 <= key <= last && k < SectionsOf(s, key) && Emitted(s, last)[i] == EntryFor(s, key, k)
  {
    hide Emitted, SectionsOf, AllPresent, EntryFor, Block;
    EmittedNone(s);
    EmittedStep(s, last);
    if i < |Emitted(s, last - 1)| {
      key, k := EntryStems(s, last - 1, i);
    } else {
      key, k := last, i - |Emitted(s, last - 1)|;
      BlockEntry(s, key, k);
    }
  }

  /** Every section is there as an entry. */
  lemma {:induction false} EntryPlace(s: Sections, last: nat, key: nat, k: nat) returns (i: nat)
    requires AllPresent(s, KEY_MAX - 1) && 1 <= key <= last < KEY_MAX && AllPresent(s, last) && k < SectionsOf(s, key)
    ensures i < |Emitted(s, last)| && Emitted(s, last)[i] == EntryFor(s, key, k)
  {
    hide Emitted, SectionsOf, AllPresent, EntryFor, Block;
    EmittedStep(s, last);
    if key < last {
      i := EntryPlace(s, last - 1, key, k);
    } else {
      i := |Emitted(s, last - 1)| + k;
      BlockEntry(s, key, k);
    }
  }

  /** The registry as Create sees it. */
  function Seen(s: Sections): Registry
    requires AllPresent(s, KEY_MAX - 1) && Keyed(Loaded(s))
  {
    TrimmedAll(Loaded(s))
  }

  lemma LoadedIsKeyed(s: Sections)
    requires AllPresent(s, KEY_MAX - 1)
    ensures Keyed(Loaded(s))
  {
    hide Emitted, SectionsOf, AllPresent, EntryFor;
    forall i | 0 <= i < |Loaded(s)| ensures |Loaded(s)[i]| >= 1 {
      var key, k := EntryStems(s, KEY_MAX - 1, i);
      EntryForKey(s, key, k);
    }
  }

  lemma CountIs(s: Sections, appId: AString, key: nat)
    requires Accepted(s, appId) && 1 <= key < KEY_MAX
    ensures CountOf(Loaded(s), key) == SectionsOf(s, key)
  {
    hide Emitted, AllPresent, Declared, ValidCounts, Equal, CountOf, Ordered, AllFit;
    AcceptedIsWellFormed(s, appId);
  }

  lemma SingleCount(s: Sections, appId: AString, key: nat)
    requires Accepted(s, appId) && 1 <= key < KEY_MAX && IsSingle(key)
    ensures SectionsOf(s, key) <= 1
  {
    hide Declared, AllPresent, Equal;
  }

  /** A kind of entry that comes once at most: the only one is where its section puts it. */
  lemma OnlyEntry(s: Sections, appId: AString, key: nat) returns (i: nat)
    requires Accepted(s, appId) && 1 <= key < KEY_MAX && IsSingle(key)
    ensures Keyed(Loaded(s))
    ensures SectionsOf(s, key) == 0 ==> forall j :: 0 <= j < |Seen(s)| ==> !HasKey(Seen(s)[j], key)
    ensures SectionsOf(s, key) > 0 ==>
              && i < |Seen(s)| && Seen(s)[i] == Trimmed(EntryFor(s, key, 0)) && HasKey(Seen(s)[i], key)
              && forall j :: 0 <= j < |Seen(s)| && HasKey(Seen(s)[j], key) ==> j == i
  {
    hide Emitted, SectionsOf, AllPresent, EntryFor, Declared, ValidCounts, Equal, KeyOf, Trimmed, CountOf, Ordered;
    hide AllFit;
    LoadedIsKeyed(s);
    AcceptedIsWellFormed(s, appId);
    var r := Loaded(s);
    assert CountOf(r, key) == SectionsOf(s, key) by { CountIs(s, appId, key); }
    if SectionsOf(s, key) > 0 {
      i := EntryPlace(s, KEY_MAX - 1, key, 0);
      EntryForKey(s, key, 0);
    } else {
      i := 0;
    }
    forall j | 0 <= j < |r| && KeyOf(r[j][0]) == key
      ensures SectionsOf(s, key) > 0 && j == i
    {
      CountOne(r, j, key);
      if j != i && SectionsOf(s, key) > 0 {
        CountTwo(r, if i < j then i else j, if i < j then j else i, key);
        SingleCount(s, appId, key);
      }
    }
  }

  // ---- services ---------------------------------------------------------------------------------

  lemma {:induction false} CoreConcat(a: Registry, b: Registry)
    ensures O.CoreEntries(a + b) == O.CoreEntries(a) + O.CoreEntries(b)
  {
    hide IsCore;
    if b == [] {
      assert a + b == a;
    } else {
      assert (a + b)[..|a + b| - 1] == a + b[..|b| - 1];
      CoreConcat(a, b[..|b| - 1]);
    }
  }

  lemma {:induction false} AllCore(r: Registry)
    requires forall i :: 0 <= i < |r| ==> IsCore(r[i])
    ensures O.CoreEntries(r) == r
  {
    hide IsCore;
    if r != [] {
      AllCore(r[..|r| - 1]);
      assert r == r[..|r| - 1] + [r[|r| - 1]];
    }
  }

  lemma {:induction false} NoneCore(r: Registry)
    requires forall i :: 0 <= i < |r| ==> !IsCore(r[i])
    ensures O.CoreEntries(r) == []
  {
    hide IsCore;
    if r != [] {
      NoneCore(r[..|r| - 1]);
    }
  }

  lemma BlockKeyed(s: Sections, key: nat)
    requires AllPresent(s, KEY_MAX - 1) && 1 <= key < KEY_MAX
    ensures SectionsPresent(s, key, SectionsOf(s, key)) && Keyed(Block(s, key, SectionsOf(s, key)))
    ensures forall k :: 0 <= k < SectionsOf(s, key) ==>
              (IsCore(Trimmed(Block(s, key, SectionsOf(s, key))[k])) <==> key == CORE_SERVICE)
  {
    hide Declared, AllPresent, EntryFor, KeyOf, Block, SectionsPresent, Trimmed;
    assert SectionsPresent(s, key, SectionsOf(s, key)) by { EmittedStep(s, key); }
    forall k | 0 <= k < SectionsOf(s, key)
      ensures var p := Block(s, key, SectionsOf(s, key))[k];
              |p| >= 1 && (IsCore(Trimmed(p)) <==> key == CORE_SERVICE)
    {
      BlockEntry(s, key, k);
      EntryForKey(s, key, k);
    }
  }

  lemma TrimmedConcat(a: Registry, b: Registry)
    requires Keyed(a) && Keyed(b)
    ensures Keyed(a + b) && TrimmedAll(a + b) == TrimmedAll(a) + TrimmedAll(b)
  {
    hide Trimmed;
  }

  lemma CoreOfBlock(s: Sections, key: nat)
    requires AllPresent(s, KEY_MAX - 1) && 1 <= key < KEY_MAX
    ensures SectionsPresent(s, key, SectionsOf(s, key)) && Keyed(Block(s, key, SectionsOf(s, key)))
    ensures var block := TrimmedAll(Block(s, key, SectionsOf(s, key)));
            O.CoreEntries(block) == if key == CORE_SERVICE then block else []
  {
    hide SectionsOf, AllPresent, SectionsPresent, Block, IsCore, Trimmed;
    BlockKeyed(s, key);
    var block := TrimmedAll(Block(s, key, SectionsOf(s, key)));
    if key == CORE_SERVICE {
      AllCore(block);
    } else {
      NoneCore(block);
    }
  }

  lemma CoreOfBoth(a: Registry, b: Registry)
    requires Keyed(a) && Keyed(b)
    ensures Keyed(a + b)
    ensures O.CoreEntries(TrimmedAll(a + b)) == O.CoreEntries(TrimmedAll(a)) + O.CoreEntries(TrimmedAll(b))
  {
    hide O.CoreEntries;
    TrimmedConcat(a, b);
    CoreConcat(TrimmedAll(a), TrimmedAll(b));
  }

  lemma CoreOfNothing()
    ensures Keyed([]) && O.CoreEntries(TrimmedAll([])) == []
  {
  }

  /** The CoreService entries of a loaded registry are those of the sections, in their order. */
  lemma {:induction false} CoreOfEmitted(s: Sections, last: nat)
    requires AllPresent(s, KEY_MAX - 1) && last < KEY_MAX && AllPresent(s, last)
    ensures Keyed(Emitted(s, last))
    ensures SectionsPresent(s, CORE_SERVICE, SectionsOf(s, CORE_SERVICE))
    ensures Keyed(Block(s, CORE_SERVICE, SectionsOf(s, CORE_SERVICE)))
    ensures O.CoreEntries(TrimmedAll(Emitted(s, last))) ==
            if last < CORE_SERVICE then [] else TrimmedAll(Block(s, CORE_SERVICE, SectionsOf(s, CORE_SERVICE)))
  {
    hide Emitted, SectionsOf, AllPresent, SectionsPresent, Block, TrimmedAll, O.CoreEntries, Keyed;
    CoreOfBlock(s, CORE_SERVICE);
    if last == 0 {
      EmittedNone(s);
      CoreOfNothing();
    } else {
      EmittedStep(s, last);
      CoreOfBlock(s, last);
      CoreOfEmitted(s, last - 1);
      CoreOfBoth(Emitted(s, last - 1), Block(s, last, SectionsOf(s, last)));
    }
  }

  /** The service holds what its section says: its id, perhaps an IARI without flags, its ICSIs and its feature
      tags, each word parsed as an identifier. */
  predicate ServiceOf(v: Service, section: Section) {
    && v.id == TrimA(section.Value("service_id"))
    && (var iari := TrimA(section.Value("iari"));
        if iari.Empty() then v.iari == None else v.iari == Some(S.Parse(iari.Bytes())))
    && (v.iari.Some? ==> !v.iari.value.isExplicit && !v.iari.value.isRequire)
    && Identifies(v.icsis, Words(TrimA(section.Value("icsi")).Bytes()))
    && Identifies(v.featureTags, Words(TrimA(section.Value("feature_tag")).Bytes()))
  }

  lemma DefinedBySection(v: Service, section: Section)
    requires DefinedBy(v, Trimmed(EntryOf(CORE_SERVICE, section)))
    ensures ServiceOf(v, section)
  {
    hide Identifies, Words, S.Parse, Trim, EntryOf;
    var p := EntryOf(CORE_SERVICE, section);
    EntryHolds(CORE_SERVICE, section);
    assert p[1] == p[1..][0] && p[2] == p[1..][1] && p[3] == p[1..][2] && p[4] == p[1..][3];
  }

  lemma CoreSection(s: Sections, k: nat)
    requires AllPresent(s, KEY_MAX - 1) && k < SectionsOf(s, CORE_SERVICE)
    ensures Listed("CoreService", k) in s
    ensures EntryFor(s, CORE_SERVICE, k) == EntryOf(CORE_SERVICE, s[Listed("CoreService", k)])
  {
    hide AllPresent, Declared, EntryOf;
    SectionIsThere(s, CORE_SERVICE, k);
  }

  /** If a content is accepted and the registry loaded from it makes a configuration, this has one service for each
      CoreService section declared, in their order, and the service holds what the section says. */
  lemma LoadedServices(s: Sections, appId: AString)
    requires Accepted(s, appId) && Create(EMPTY, Loaded(s)).ok
    ensures var services := Create(EMPTY, Loaded(s)).after.services;
            && |services| == Declared(s, CORE_SERVICE)
            && forall k: nat | k < |services| ::
                 Listed("CoreService", k) in s && ServiceOf(services[k], s[Listed("CoreService", k)])
  {
    hide Create, Emitted, AllPresent, Declared, Equal, AllFit, Trimmed, Media, Capabilities, ServiceOf, DefinedBy;
    hide EntryFor, DistinctIds, FlowsOf, ProfileOf, Connects, Block, IsCore;
    var r := Loaded(s);
    CreatedContents(r);
    CoreOfEmitted(s, KEY_MAX - 1);
    var services := Create(EMPTY, r).after.services;
    var definitions := O.CoreEntries(TrimmedAll(r));
    assert AllServices(services, definitions, TrimmedAll(r), |r|);
    assert Declared(s, CORE_SERVICE) >= 1;
    forall k: nat | k < |services|
      ensures Listed("CoreService", k) in s && ServiceOf(services[k], s[Listed("CoreService", k)])
    {
      CoreSection(s, k);
      BlockEntry(s, CORE_SERVICE, k);
      assert ServiceFrom(services[k], definitions[k], TrimmedAll(r), |r|);
      DefinedBySection(services[k], s[Listed("CoreService", k)]);
    }
  }

  // ---- lists and media ----------------------------------------------------------------------------

  lemma {:induction false} ListOfNone(r: Registry, n: nat, key: nat)
    requires n <= |r| && forall j :: 0 <= j < n ==> !HasKey(r[j], key)
    ensures ListOf(r, n, key) == []
  {
    hide HasKey;
    if n > 0 {
      ListOfNone(r, n - 1, key);
    }
  }

  lemma {:induction false} ListOfOnly(r: Registry, n: nat, key: nat, i: nat)
    requires i < n <= |r| && HasKey(r[i], key) && |r[i]| >= 2
    requires forall j :: 0 <= j < |r| && HasKey(r[j], key) ==> j == i
    ensures ListOf(r, n, key) == ListIn(r[i])
  {
    hide HasKey, ListIn;
    if i < n - 1 {
      ListOfOnly(r, n - 1, key, i);
    }
  }

  /** The words that the section of a kind lists under a name, none if there is no such section. */
  function Listing(s: Sections, key: nat, section: string, name: string): seq<string>
    requires key < KEY_MAX
  {
    if SectionsOf(s, key) > 0 && Plain(section) in s then Words(TrimA(s[Plain(section)].Value(name)).Bytes()) else []
  }

  /** Kinds whose second element is a list, with the names of their section and of the list in it. */
  predicate ListKind(key: nat, section: string, name: string) {
    || (key == STREAM && section == "Stream" && name == "media_types")
    || (key == FRAMED && section == "Framed" && name == "media_types")
    || (key == BASIC && section == "Basic" && name == "media_types")
    || (key == EVENT && section == "Event" && name == "package_names")
    || (key == WRITE && section == "Write" && name == "header_names")
    || (key == READ && section == "Read" && name == "header_names")
  }

  lemma KindSection(s: Sections, key: nat, section: string, name: string)
    requires AllPresent(s, KEY_MAX - 1) && ListKind(key, section, name) && SectionsOf(s, key) > 0
    ensures Plain(section) in s && EntryFor(s, key, 0) == EntryOf(key, s[Plain(section)])
    ensures |EntryFor(s, key, 0)| >= 2 && EntryFor(s, key, 0)[1] == s[Plain(section)].Value(name)
  {
    hide AllPresent, Declared, EntryOf;
    SectionIsThere(s, key, 0);
    assert NameOf(key, 0) == Plain(section);
    EntryHolds(key, s[Plain(section)]);
    var p := EntryOf(key, s[Plain(section)]);
    assert p[1] == p[1..][0];
  }

  /** The entry of a kind with a list, and the list in it. */
  lemma KindEntry(s: Sections, appId: AString, key: nat, section: string, name: string) returns (i: nat)
    requires Accepted(s, appId) && ListKind(key, section, name)
    ensures Keyed(Loaded(s))
    ensures SectionsOf(s, key) == 0 ==> forall j :: 0 <= j < |Seen(s)| ==> !HasKey(Seen(s)[j], key)
    ensures SectionsOf(s, key) > 0 ==>
              && i < |Seen(s)| && HasKey(Seen(s)[i], key) && |Seen(s)[i]| >= 2
              && ListIn(Seen(s)[i]) == Listing(s, key, section, name)
              && forall j :: 0 <= j < |Seen(s)| && HasKey(Seen(s)[j], key) ==> j == i
  {
    hide Emitted, SectionsOf, AllPresent, EntryFor, ValidCounts, Equal, HasKey, Words, Trim;
    i := OnlyEntry(s, appId, key);
    if SectionsOf(s, key) > 0 {
      KindSection(s, key, section, name);
      assert Trimmed(EntryFor(s, key, 0))[1] == TrimA(EntryFor(s, key, 0)[1]);
    }
  }

  lemma LoadedList(s: Sections, appId: AString, key: nat, section: string, name: string)
    requires Accepted(s, appId) && ListKind(key, section, name)
    ensures Keyed(Loaded(s)) && ListOf(Seen(s), |Seen(s)|, key) == Listing(s, key, section, name)
  {
    hide Emitted, SectionsOf, AllPresent, ValidCounts, Equal, HasKey, Words, Trim, ListIn, Seen;
    var i := KindEntry(s, appId, key, section, name);
    if SectionsOf(s, key) > 0 {
      ListOfOnly(Seen(s), |Seen(s)|, key, i);
    } else {
      ListOfNone(Seen(s), |Seen(s)|, key);
    }
  }

  lemma LoadedStream(s: Sections, appId: AString, literal: string)
    requires Accepted(s, appId)
    ensures Keyed(Loaded(s))
    ensures Streams(Seen(s), |Seen(s)|, literal) <==> HasWord(Listing(s, STREAM, "Stream", "media_types"), literal)
  {
    hide Emitted, SectionsOf, AllPresent, ValidCounts, Equal, HasKey, Words, Trim, ListIn, Seen, EqualsLiteral;
    var i := KindEntry(s, appId, STREAM, "Stream", "media_types");
    if SectionsOf(s, STREAM) > 0 && HasWord(Listing(s, STREAM, "Stream", "media_types"), literal) {
      assert HasKey(Seen(s)[i], STREAM) && HasWord(ListIn(Seen(s)[i]), literal);
    }
  }

  /** If a content is accepted and the registry loaded from it makes a configuration, every list in this is the words
      that the section of its kind lists, and a stream type is supported exactly if the Stream section lists it. */
  lemma LoadedLists(s: Sections, appId: AString)
    requires Accepted(s, appId) && Create(EMPTY, Loaded(s)).ok
    ensures var c := Create(EMPTY, Loaded(s)).after;
            && c.framedTypes == Listing(s, FRAMED, "Framed", "media_types")
            && c.basicTypes == Listing(s, BASIC, "Basic", "media_types")
            && c.events == Listing(s, EVENT, "Event", "package_names")
            && c.writeHeaders == Listing(s, WRITE, "Write", "header_names")
            && c.readHeaders == Listing(s, READ, "Read", "header_names")
            && var types := Listing(s, STREAM, "Stream", "media_types");
               (c.audio <==> HasWord(types, "audio")) && (c.video <==> HasWord(types, "video"))
               && (c.text <==> HasWord(types, "text"))
  {
    hide Create, Emitted, AllPresent, Equal, AllFit, Trimmed, Capabilities, AllServices, DistinctIds, Listing;
    hide ListOf, Has, Streams, SizeOf, Services, ValidServices, ValidUpTo, NoDuplicate, ValidCounts;
    var r := Loaded(s);
    CreatedContents(r);
    CreatedConfig(r);
    LoadedList(s, appId, FRAMED, "Framed", "media_types");
    LoadedList(s, appId, BASIC, "Basic", "media_types");
    LoadedList(s, appId, EVENT, "Event", "package_names");
    LoadedList(s, appId, WRITE, "Write", "header_names");
    LoadedList(s, appId, READ, "Read", "header_names");
    LoadedStream(s, appId, "audio");
    LoadedStream(s, appId, "video");
    LoadedStream(s, appId, "text");
  }

  // ---- headers ------------------------------------------------------------------------------------

  /** The headers that a Reg section lists, trimmed. */
  predicate HeadersIn(headers: seq<AString>, section: Section) {
    && |headers| == (if section.Count("header") > 0 then section.Count("header") else 0)
    && forall i :: 0 <= i < |headers| ==> headers[i] == TrimA(section.ValueAt("header", i))
  }

  lemma TrimmedHeaders(p: Property, section: Section)
    requires |p| >= 2 && ListFrom(p[2..], section, "header")
    ensures HeadersIn(Trimmed(p)[2..], section)
  {
    hide Trim;
    forall i | 0 <= i < |p| - 2 ensures Trimmed(p)[2..][i] == TrimA(p[2..][i]) {
      assert Trimmed(p)[1 + (i + 1)] == TrimA(p[i + 2]);
    }
  }

  lemma RegEntry(s: Sections, k: nat)
    requires AllPresent(s, KEY_MAX - 1) && k < SectionsOf(s, REG)
    ensures Listed("Reg", k) in s
    ensures var p := EntryFor(s, REG, k);
            && |p| >= 2 && KeyOf(p[0]) == REG && p[1] == s[Listed("Reg", k)].Value("service_id")
            && HeadersIn(Trimmed(p)[2..], s[Listed("Reg", k)])
  {
    hide AllPresent, SectionsOf, EntryOf, KeyOf, HeadersIn, ListFrom;
    SectionIsThere(s, REG, k);
    EntryForKey(s, REG, k);
    EntryHolds(REG, s[Listed("Reg", k)]);
    TrimmedHeaders(EntryFor(s, REG, k), s[Listed("Reg", k)]);
  }

  /** Likewise a service has exactly the headers of the Reg section that names it. */
  lemma LoadedHeaders(s: Sections, appId: AString, j: nat, k: nat)
    requires Accepted(s, appId) && Create(EMPTY, Loaded(s)).ok && k < SectionsOf(s, REG)
    requires j < |Create(EMPTY, Loaded(s)).after.services|
    ensures Listed("Reg", k) in s
    ensures var v, section := Create(EMPTY, Loaded(s)).after.services[j], s[Listed("Reg", k)];
            EqualIgnoreCase(TrimA(section.Value("service_id")), v.id) ==> HeadersIn(v.headers, section)
  {
    hide Create, Emitted, AllPresent, Equal, AllFit, EntryFor, ValidCounts, SectionsOf, HeadersIn, EqualIgnoreCase;
    hide KeyOf;
    var r := Loaded(s);
    LoadedIsKeyed(s);
    HeadersComeFromOneEntry(r);
    RegEntry(s, k);
    var i := EntryPlace(s, KEY_MAX - 1, REG, k);
    var t := TrimmedAll(r);
    assert t[i] == Trimmed(EntryFor(s, REG, k));
    var v := Create(EMPTY, r).after.services[j];
    assert HeadersFromOneEntry(v, t);
  }
}
