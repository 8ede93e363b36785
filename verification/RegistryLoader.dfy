/** Loading a registry from a configuration text that is split into sections. Follows
    ImsRegistryLoader.cpp; the buffer behind IConfigBuffer.h is a map of sections here.
 */
module RegistryLoader {
  import opened AStrings
  import opened ImsProperties
  import Q = QosProperties

  // ---- the buffer -----------------------------------------------------------------------------

  datatype SectionName = Plain(name: string) | Listed(name: string, index: nat)

  datatype Section = Section(values: map<string, AString>, listed: map<(string, nat), AString>,
    counts: map<string, int>)
  {
    function Value(key: string): AString {
      if key in values then values[key] else Null
    }

    function ValueAt(key: string, index: nat): AString {
      if (key, index) in listed then listed[(key, index)] else Null
    }

    function Count(key: string): int {
      if key in counts then counts[key] else 0
    }
  }

  type Sections = map<SectionName, Section>

  /** Values are read from the one section captured at a time. */
  class ConfigBuffer {
    const sections: Sections
    var captured: Option<Section>

    constructor (sections: Sections)
      ensures this.sections == sections && captured == None
    {
      this.sections := sections;
      captured := None;
    }

    method CaptureSection(name: SectionName) returns (ok: bool)
      modifies this
      ensures ok == (name in sections)
      ensures captured == if ok then Some(sections[name]) else old(captured)
    {
      ok := name in sections;
      if ok {
        captured := Some(sections[name]);
      }
    }

    method ReleaseSection()
      modifies this
      ensures captured == None
    {
      captured := None;
    }

    function ReadValue(key: string): AString
      reads this
    {
      if captured.Some? then captured.value.Value(key) else Null
    }

    function ReadValueAt(key: string, index: nat): AString
      reads this
    {
      if captured.Some? then captured.value.ValueAt(key, index) else Null
    }

    function ReadKeyCount(key: string): int
      reads this
    {
      if captured.Some? then captured.value.Count(key) else 0
    }
  }

  // ---- what a content declares and emits ------------------------------------------------------

  const UNIQUENESS := "Uniqueness"
  const IMS_REGISTRY := "IMSRegistry"

  /** ToInt32 in base 10: like ToUInt32 with an optional minus sign; whatever is refused is zero. */
  function ToInt32(text: AString): (n: int)
    ensures Q.IsInt32(n)
  {
    var t := Q.SkipSpace(CStr(text.Bytes()));
    var signed := t != "" && (t[0] == '-' || t[0] == '+');
    var digits := if signed then t[1..] else t;
    if digits == "" || !Q.AllDigits(digits) then 0
    else
      var v: int := Q.Value(digits);
      var n := if t[0] == '-' then -v else v;
      if Q.IsInt32(n) then n else 0
  }

  function Numbered(sign: string, n: int): int {
    if sign == "-" then -n else n
  }

  /** A numeral is read as its number if that is a signed 32-bit one, and as zero if not. */
  lemma ToInt32Reads(blank: string, sign: string, digits: string, tail: string)
    requires Q.Numeral(blank, sign, digits, tail)
    ensures var n := Numbered(sign, Q.Read(digits));
            ToInt32(Text(blank + sign + digits + tail)) == if -0x8000_0000 <= n < 0x8000_0000 then n else 0
  {
    hide CStr, Q.SkipSpace, Q.Value, Q.Read;
    Q.NumeralParts(blank, sign, digits, tail);
    var t := sign + digits;
    assert sign != "" ==> t[1..] == digits && t[0] == sign[0];
    assert sign == "" ==> t == digits;
  }

  function SignOf(t: string): string {
    if t == "" then "" else if t[0] == '-' then "-" else if t[0] == '+' then "+" else ""
  }

  lemma NotZero(text: AString)
    requires ToInt32(text) != 0
    ensures var t := Q.SkipSpace(CStr(text.Bytes()));
            var digits := t[|SignOf(t)|..];
            digits != "" && Q.AllDigits(digits) && t == SignOf(t) + digits
  {
    hide Q.SkipSpace, Q.Value, Q.AllDigits, CStr;
    var t := Q.SkipSpace(CStr(text.Bytes()));
    assert t[0..] == t;
  }

  /** Whatever is not read as zero is such a numeral. */
  lemma ToInt32OnlyNumerals(text: AString) returns (blank: string, sign: string, digits: string, tail: string)
    requires ToInt32(text) != 0
    ensures Q.Numeral(blank, sign, digits, tail) && text.Bytes() == blank + sign + digits + tail
  {
    hide ToInt32, Q.SkipSpace, Q.Numeral, Q.AllDigits, CStr;
    var s := text.Bytes();
    blank, tail := Q.TextParts(s);
    var t := Q.SkipSpace(CStr(s));
    NotZero(text);
    sign := SignOf(t);
    digits := t[|sign|..];
    Q.SignedDigits(blank, sign, digits, tail);
    assert blank + sign + digits == blank + (sign + digits);
  }

  lemma DecimalIsNumeral(n: nat)
    ensures Q.Numeral("", "", Q.Decimal(n), "") && Q.Numeral("", "-", Q.Decimal(n), "")
    ensures Q.Read(Q.Decimal(n)) == n
  {
    hide Q.Decimal, Q.Value;
    var s := Q.Decimal(n);
    assert forall i :: 0 <= i < |s| ==> IsDigit(s[i]);
    Q.ValueIsRead(s);
  }

  /** Printed numbers below 2^31 are read as what they are, behind a minus sign as its negative. */
  lemma ToInt32Decimal(n: nat)
    requires n < 0x8000_0000
    ensures ToInt32(Text(Q.Decimal(n))) == n && ToInt32(Text("-" + Q.Decimal(n))) == 0 - n
  {
    hide ToInt32, Q.Decimal, Q.Read;
    DecimalIsNumeral(n);
    ToInt32Reads("", "", Q.Decimal(n), "");
    ToInt32Reads("", "-", Q.Decimal(n), "");
    assert "" + "" + Q.Decimal(n) + "" == Q.Decimal(n);
    assert "" + "-" + Q.Decimal(n) + "" == "-" + Q.Decimal(n);
  }

  /** How many entries of a key the content declares. */
  function Declared(s: Sections, key: nat): int
    requires key < KEY_MAX
  {
    if Plain(UNIQUENESS) in s then ToInt32(s[Plain(UNIQUENESS)].Value(KeyName(key))) else 0
  }

  function Positive(n: int): nat {
    if n > 0 then n else 0
  }

  function ReadAll(section: Section, key: string, count: int): (r: seq<AString>)
    ensures |r| == Positive(count)
  {
    seq(Positive(count), i requires 0 <= i < Positive(count) => section.ValueAt(key, i))
  }

  /** The entry that a section of a key becomes. */
  function EntryOf(key: nat, s: Section): (p: Property)
    requires 1 <= key < KEY_MAX
    ensures |p| >= 2 && p[0] == Text(KeyName(key))
  {
    var name := Text(KeyName(key));
    match key
    case 1 => [name, s.Value("media_types")]
    case 2 => [name, s.Value("media_types"), if s.Value("max_size").Null? then Text("") else s.Value("max_size")]
    case 3 => [name, s.Value("media_types")]
    case 4 => [name, s.Value("package_names")]
    case 5 => [name, s.Value("service_id"), s.Value("iari"), s.Value("icsi"), s.Value("feature_tag")]
    case 6 =>
      [name, s.Value("service_id"), s.Value("media_types"), s.Value("send_flow_spec"), s.Value("receive_flow_spec")]
    case 7 => [name, s.Value("service_id")] + ReadAll(s, "header", s.Count("header"))
    case 8 => [name, s.Value("header_names")]
    case 9 => [name, s.Value("header_names")]
    case 10 => [name, s.Value("sector_id"), s.Value("message_type")] + ReadAll(s, "sdp", s.Count("sdp"))
    case 11 => [name, s.Value("service_id"), s.Value("profile")]
    case _ => [name, s.Value("service_id")]
  }

  /** Keys with one section each; the others have a list of sections. */
  predicate IsSingle(key: nat) {
    !Repeatable(key)
  }

  function NameOf(key: nat, index: nat): SectionName
    requires key < KEY_MAX
  {
    if IsSingle(key) then Plain(KeyName(key)) else Listed(KeyName(key), index)
  }

  /** A key with one section may be declared once at most; at least one service is needed. */
  predicate ValidCounts(s: Sections) {
    && (forall key :: 1 <= key < KEY_MAX && IsSingle(key) ==> Declared(s, key) <= 1)
    && Declared(s, CORE_SERVICE) >= 1
  }

  predicate SectionsPresent(s: Sections, key: nat, count: nat)
    requires key < KEY_MAX
  {
    forall i :: 0 <= i < count ==> NameOf(key, i) in s
  }

  /** The first `count` entries of a key. */
  function Block(s: Sections, key: nat, count: nat): (r: Registry)
    requires 1 <= key < KEY_MAX && SectionsPresent(s, key, count)
    ensures |r| == count
  {
    seq(count, i requires 0 <= i < count => EntryOf(key, s[NameOf(key, i)]))
  }

  predicate AllPresent(s: Sections, last: nat)
    requires last < KEY_MAX
  {
    forall key :: 1 <= key <= last ==> SectionsPresent(s, key, Positive(Declared(s, key)))
  }

  /** All entries, key after key in the fixed order. */
  function Emitted(s: Sections, last: nat): Registry
    requires last < KEY_MAX && AllPresent(s, last)
  {
    if last == 0 then []
    else
      assert SectionsPresent(s, last, Positive(Declared(s, last)));
      Emitted(s, last - 1) + Block(s, last, Positive(Declared(s, last)))
  }

  /** The condition for acceptance. */
  predicate Accepted(s: Sections, appId: AString) {
    && Plain(UNIQUENESS) in s
    && Plain(IMS_REGISTRY) in s
    && Equal(s[Plain(IMS_REGISTRY)].Value(IMS_REGISTRY), appId)
    && ValidCounts(s)
    && AllPresent(s, KEY_MAX - 1)
  }

  // ---- the loader -----------------------------------------------------------------------------

  method ReadList(buffer: ConfigBuffer, key: string) returns (values: seq<AString>)
    requires buffer.captured.Some?
    ensures values == ReadAll(buffer.captured.value, key, buffer.captured.value.Count(key))
  {
    var count := buffer.ReadKeyCount(key);
    values := [];
    var i := 0;
    while i < count
      invariant 0 <= i <= Positive(count)
      invariant values == ReadAll(buffer.captured.value, key, i)
    {
      values := values + [buffer.ReadValueAt(key, i)];
      i := i + 1;
    }
  }

  /** The Add...Property functions: one entry from the captured section. */
  method AddProperty(buffer: ConfigBuffer, key: nat, before: Registry) returns (after: Registry)
    requires 1 <= key < KEY_MAX && buffer.captured.Some?
    ensures after == before + [EntryOf(key, buffer.captured.value)]
  {
    hide KeyName, ReadAll;
    var p := [Text(KeyName(key))];
    if key == STREAM || key == BASIC {
      p := p + [buffer.ReadValue("media_types")];
    } else if key == FRAMED {
      var size := buffer.ReadValue("max_size");
      p := p + [buffer.ReadValue("media_types")];
      p := p + [if size.Null? then Text("") else size];
    } else if key == EVENT {
      p := p + [buffer.ReadValue("package_names")];
    } else if key == CORE_SERVICE {
      p := p + [buffer.ReadValue("service_id"), buffer.ReadValue("iari"), buffer.ReadValue("icsi"),
                buffer.ReadValue("feature_tag")];
    } else if key == QOS {
      p := p + [buffer.ReadValue("service_id"), buffer.ReadValue("media_types"),
                buffer.ReadValue("send_flow_spec"), buffer.ReadValue("receive_flow_spec")];
    } else if key == REG {
      p := p + [buffer.ReadValue("service_id")];
      var headers := ReadList(buffer, "header");
      p := p + headers;
    } else if key == WRITE || key == READ {
      p := p + [buffer.ReadValue("header_names")];
    } else if key == CAP {
      p := p + [buffer.ReadValue("sector_id"), buffer.ReadValue("message_type")];
      var sdps := ReadList(buffer, "sdp");
      p := p + sdps;
    } else if key == MPROF {
      p := p + [buffer.ReadValue("service_id"), buffer.ReadValue("profile")];
    } else {
      p := p + [buffer.ReadValue("service_id")];
    }
    assert p == EntryOf(key, buffer.captured.value);
    after := before + [p];
  }

  /** The sections of one key, one after the other; a missing one stops the loading. */
  method LoadKey(buffer: ConfigBuffer, key: nat, count: int, before: Registry) returns (ok: bool, after: Registry)
    requires 1 <= key < KEY_MAX && (IsSingle(key) ==> count <= 1)
    modifies buffer
    ensures ok <==> SectionsPresent(buffer.sections, key, Positive(count))
    ensures ok ==> after == before + Block(buffer.sections, key, Positive(count))
    ensures before <= after
  {
    hide KeyName, EntryOf;
    after := before;
    var i := 0;
    while i < count
      invariant 0 <= i <= Positive(count) && before <= after
      invariant SectionsPresent(buffer.sections, key, i)
      invariant after == before + Block(buffer.sections, key, i)
    {
      var captured := buffer.CaptureSection(NameOf(key, i));
      if !captured {
        return false, after;
      }
      after := AddProperty(buffer, key, after);
      buffer.ReleaseSection();
      assert Block(buffer.sections, key, i + 1) ==
             Block(buffer.sections, key, i) + [EntryOf(key, buffer.sections[NameOf(key, i)])];
      i := i + 1;
    }
    ok := true;
  }

  method ValidateUniqueness(counts: array<int>) returns (ok: bool)
    requires counts.Length == KEY_MAX
    ensures ok <==>
            (forall key :: 1 <= key < KEY_MAX && IsSingle(key) ==> counts[key] <= 1) && counts[CORE_SERVICE] >= 1
  {
    if counts[STREAM] > 1 || counts[FRAMED] > 1 || counts[BASIC] > 1 || counts[EVENT] > 1 {
      return false;
    }
    if counts[CORE_SERVICE] < 1 {
      return false;
    }
    if counts[WRITE] > 1 || counts[READ] > 1 {
      return false;
    }
    ok := true;
  }

  /** The declared counts, from the captured section. */
  method ReadCounts(buffer: ConfigBuffer) returns (counts: array<int>)
    requires Plain(UNIQUENESS) in buffer.sections
    requires buffer.captured == Some(buffer.sections[Plain(UNIQUENESS)])
    ensures fresh(counts) && counts.Length == KEY_MAX
    ensures forall k :: 1 <= k < KEY_MAX ==> counts[k] == Declared(buffer.sections, k)
  {
    hide KeyName, ToInt32;
    counts := new int[KEY_MAX](_ => 0);
    var key := STREAM;
    while key < KEY_MAX
      invariant 1 <= key <= KEY_MAX
      invariant forall k :: 1 <= k < key ==> counts[k] == Declared(buffer.sections, k)
    {
      counts[key] := ToInt32(buffer.ReadValue(KeyName(key)));
      key := key + 1;
    }
  }

  /** The blocks for the keys, in the order of the keys. */
  method LoadAll(buffer: ConfigBuffer, counts: array<int>, before: Registry) returns (ok: bool, after: Registry)
    requires counts.Length == KEY_MAX && ValidCounts(buffer.sections)
    requires forall k :: 1 <= k < KEY_MAX ==> counts[k] == Declared(buffer.sections, k)
    modifies buffer
    ensures ok <==> AllPresent(buffer.sections, KEY_MAX - 1)
    ensures ok ==> after == before + Emitted(buffer.sections, KEY_MAX - 1)
    ensures before <= after
  {
    hide KeyName, Declared, SectionsPresent, Block;
    var s := buffer.sections;
    after := before;
    var key := STREAM;
    while key < KEY_MAX
      invariant 1 <= key <= KEY_MAX && before <= after
      invariant AllPresent(s, key - 1) && after == before + Emitted(s, key - 1)
    {
      var loaded;
      loaded, after := LoadKey(buffer, key, counts[key], after);
      if !loaded {
        return false, after;
      }
      key := key + 1;
    }
    ok := true;
  }

  /** GetRegistryFromContent: accepts exactly when the content is complete and consistent, and appends
      exactly the declared entries. */
  method GetRegistryFromContent(buffer: ConfigBuffer?, appId: AString, before: Registry)
    returns (ok: bool, after: Registry)
    modifies buffer
    ensures ok <==> buffer != null && Accepted(buffer.sections, appId)
    ensures ok ==> after == before + Emitted(buffer.sections, KEY_MAX - 1)
    ensures before <= after
  {
    hide Declared, Equal, AllPresent, Emitted;
    after := before;
    if buffer == null {
      return false, after;
    }
    var s := buffer.sections;
    var captured := buffer.CaptureSection(Plain(UNIQUENESS));
    if !captured {
      return false, after;
    }
    var counts := ReadCounts(buffer);
    buffer.ReleaseSection();
    captured := buffer.CaptureSection(Plain(IMS_REGISTRY));
    if !captured {
      return false, after;
    }
    if !Equal(buffer.ReadValue(IMS_REGISTRY), appId) {
      return false, after;
    }
    buffer.ReleaseSection();
    var unique := ValidateUniqueness(counts);
    if !unique {
      return false, after;
    }
    assert ValidCounts(s);
    ok, after := LoadAll(buffer, counts, before);
  }

  // ---- what an accepted registry looks like ---------------------------------------------------

  function CountOf(r: Registry, key: nat): nat {
    if r == [] then 0
    else CountOf(r[..|r| - 1], key) + if |r[|r| - 1]| >= 1 && KeyOf(r[|r| - 1][0]) == key then 1 else 0
  }

  lemma {:induction false} CountBlock(s: Sections, key: nat, count: nat, before: Registry, other: nat)
    requires 1 <= key < KEY_MAX && SectionsPresent(s, key, count)
    ensures CountOf(before + Block(s, key, count), other) ==
            CountOf(before, other) + if key == other then count else 0
  {
    hide KeyName, KeyOf, EntryOf, NameOf;
    var block := Block(s, key, count);
    if count == 0 {
      assert before + block == before;
    } else {
      CountBlock(s, key, count - 1, before, other);
      var r := before + block;
      KeyOfName(key);
      assert r[..|r| - 1] == before + Block(s, key, count - 1);
      assert r[|r| - 1] == EntryOf(key, s[NameOf(key, count - 1)]);
    }
  }

  lemma {:induction false} CountEmitted(s: Sections, last: nat, key: nat)
    requires last < KEY_MAX && AllPresent(s, last) && 1 <= key < KEY_MAX
    ensures CountOf(Emitted(s, last), key) == if key <= last then Positive(Declared(s, key)) else 0
  {
    hide KeyName, KeyOf, EntryOf, NameOf, SectionsPresent, Block;
    if last > 0 {
      CountEmitted(s, last - 1, key);
      assert SectionsPresent(s, last, Positive(Declared(s, last)));
      CountBlock(s, last, Positive(Declared(s, last)), Emitted(s, last - 1), key);
    }
  }

  /** The keys of the entries never decrease, and each is a known key no later than `last`. */
  predicate Ordered(r: Registry, last: nat) {
    && (forall i :: 0 <= i < |r| ==> |r[i]| >= 2 && 1 <= KeyOf(r[i][0]) <= last)
    && (forall i, j :: 0 <= i < j < |r| ==> KeyOf(r[i][0]) <= KeyOf(r[j][0]))
  }

  lemma BlockKeys(s: Sections, key: nat, count: nat)
    requires 1 <= key < KEY_MAX && SectionsPresent(s, key, count)
    ensures forall i :: 0 <= i < count ==>
              |Block(s, key, count)[i]| >= 2 && KeyOf(Block(s, key, count)[i][0]) == key
  {
    hide KeyName, KeyOf, EntryOf, NameOf;
    KeyOfName(key);
  }

  lemma {:induction false} EmittedOrdered(s: Sections, last: nat)
    requires last < KEY_MAX && AllPresent(s, last)
    ensures Ordered(Emitted(s, last), last)
  {
    hide KeyName, KeyOf, EntryOf, NameOf, SectionsPresent;
    if last > 0 {
      EmittedOrdered(s, last - 1);
      assert SectionsPresent(s, last, Positive(Declared(s, last)));
      BlockKeys(s, last, Positive(Declared(s, last)));
    }
  }

  lemma {:induction false} CountOne(r: Registry, i: nat, key: nat)
    requires i < |r| && |r[i]| >= 1 && KeyOf(r[i][0]) == key
    ensures CountOf(r, key) >= 1
  {
    hide KeyOf;
    if i < |r| - 1 {
      CountOne(r[..|r| - 1], i, key);
    }
  }

  lemma {:induction false} CountTwo(r: Registry, i: nat, j: nat, key: nat)
    requires i < j < |r| && |r[i]| >= 1 && |r[j]| >= 1 && KeyOf(r[i][0]) == KeyOf(r[j][0]) == key
    ensures CountOf(r, key) >= 2
  {
    hide KeyOf;
    if j < |r| - 1 {
      CountTwo(r[..|r| - 1], i, j, key);
    } else {
      CountOne(r[..|r| - 1], i, key);
    }
  }

  /** In an ordered registry in which every single key occurs at most once, all entries fit. */
  lemma {:induction false} OrderedFits(r: Registry, last: nat)
    requires last < KEY_MAX && Ordered(r, last)
    requires forall key :: 1 <= key < KEY_MAX && IsSingle(key) ==> CountOf(r, key) <= 1
    ensures AllFit(r)
  {
    hide KeyOf, Equal;
    forall n | 0 <= n < |r|
      ensures Fits(r[n], r[..n])
    {
      var key := KeyOf(r[n][0]);
      if IsSingle(key) {
        forall i | 0 <= i < n
          ensures !Equal(r[i][0], r[n][0])
        {
          if Equal(r[i][0], r[n][0]) {
            EqualKeys(r[i][0], r[n][0]);
            CountTwo(r, i, n, key);
          }
        }
      }
    }
  }

  /** Whatever the loader accepts has exactly the declared number of entries per key, keys in the fixed
      order, and passes the first check of the registry. */
  lemma AcceptedIsWellFormed(s: Sections, appId: AString)
    requires Accepted(s, appId)
    ensures
      var r := Emitted(s, KEY_MAX - 1);
      && (forall key :: 1 <= key < KEY_MAX ==> CountOf(r, key) == Positive(Declared(s, key)))
      && Ordered(r, KEY_MAX - 1)
      && AllFit(r)
  {
    hide KeyName, KeyOf, EntryOf, NameOf, SectionsPresent, Declared, Equal;
    var r := Emitted(s, KEY_MAX - 1);
    forall key | 1 <= key < KEY_MAX
      ensures CountOf(r, key) == Positive(Declared(s, key))
    {
      CountEmitted(s, KEY_MAX - 1, key);
    }
    EmittedOrdered(s, KEY_MAX - 1);
    OrderedFits(r, KEY_MAX - 1);
  }

  // ---- contents that declare decimal numbers ---------------------------------------------------

  /** The content declares these counts, as decimal texts. */
  predicate Declares(s: Sections, counts: seq<nat>)
    requires |counts| == KEY_MAX
  {
    && Plain("Uniqueness") in s
    && forall key :: 1 <= key < KEY_MAX ==>
         counts[key] < 0x8000_0000 && s[Plain("Uniqueness")].Value(KeyName(key)) == Text(Q.Decimal(counts[key]))
  }

  /** One service at least, and at most one of each of six kinds. */
  predicate ConsistentCounts(counts: seq<nat>)
    requires |counts| == KEY_MAX
  {
    && counts[CORE_SERVICE] >= 1
    && counts[STREAM] <= 1 && counts[FRAMED] <= 1 && counts[BASIC] <= 1 && counts[EVENT] <= 1
    && counts[WRITE] <= 1 && counts[READ] <= 1
  }

  /** The sections of the counted entries are there, those of the six kinds under their name alone. */
  predicate Complete(s: Sections, counts: seq<nat>)
    requires |counts| == KEY_MAX
  {
    && (forall key | key in {STREAM, FRAMED, BASIC, EVENT, WRITE, READ} ::
          counts[key] >= 1 ==> Plain(KeyName(key)) in s)
    && (forall key, i: nat | key in {CORE_SERVICE, QOS, REG, CAP, MPROF, CONNECTION} && i < counts[key] ::
          Listed(KeyName(key), i) in s)
  }

  lemma DeclaredIs(s: Sections, counts: seq<nat>, key: nat)
    requires |counts| == KEY_MAX && Declares(s, counts) && 1 <= key < KEY_MAX
    ensures Declared(s, key) == counts[key] && Positive(Declared(s, key)) == counts[key]
  {
    hide ToInt32, Q.Decimal, KeyName;
    ToInt32Decimal(counts[key]);
  }

  lemma SectionsIff(s: Sections, counts: seq<nat>, key: nat)
    requires |counts| == KEY_MAX && 1 <= key < KEY_MAX && (IsSingle(key) ==> counts[key] <= 1)
    ensures SectionsPresent(s, key, counts[key]) <==>
            if IsSingle(key) then counts[key] >= 1 ==> Plain(KeyName(key)) in s
            else forall i: nat | i < counts[key] :: Listed(KeyName(key), i) in s
  {
    hide KeyName;
    if IsSingle(key) {
      assert counts[key] >= 1 ==> NameOf(key, 0) == Plain(KeyName(key));
    } else {
      assert forall i: nat | i < counts[key] :: NameOf(key, i) == Listed(KeyName(key), i);
    }
  }

  lemma CountsIff(s: Sections, counts: seq<nat>)
    requires |counts| == KEY_MAX && Declares(s, counts)
    ensures ValidCounts(s) <==> ConsistentCounts(counts)
  {
    hide Declares, Declared, KeyName;
    forall key | 1 <= key < KEY_MAX ensures Declared(s, key) == counts[key] {
      DeclaredIs(s, counts, key);
    }
  }

  lemma CompleteIff(s: Sections, counts: seq<nat>)
    requires |counts| == KEY_MAX && Declares(s, counts) && ConsistentCounts(counts)
    ensures AllPresent(s, KEY_MAX - 1) <==> Complete(s, counts)
  {
    hide Declares, Declared, KeyName, SectionsPresent;
    forall key | 1 <= key < KEY_MAX
      ensures SectionsPresent(s, key, Positive(Declared(s, key))) <==>
              if IsSingle(key) then counts[key] >= 1 ==> Plain(KeyName(key)) in s
              else forall i: nat | i < counts[key] :: Listed(KeyName(key), i) in s
    {
      DeclaredIs(s, counts, key);
      SectionsIff(s, counts, key);
    }
  }

  /** A content that declares its counts in decimal is accepted exactly if it is of this application, the counts are
      consistent and all sections are there; and then it makes exactly as many entries of each key. */
  lemma DecimalContentIff(s: Sections, counts: seq<nat>, appId: AString)
    requires |counts| == KEY_MAX && Declares(s, counts)
    ensures Accepted(s, appId) <==>
            && Plain("IMSRegistry") in s && Equal(s[Plain("IMSRegistry")].Value("IMSRegistry"), appId)
            && ConsistentCounts(counts) && Complete(s, counts)
    ensures Accepted(s, appId) ==>
              forall key :: 1 <= key < KEY_MAX ==> CountOf(Emitted(s, KEY_MAX - 1), key) == counts[key]
  {
    hide Declared, KeyName, Equal, AllPresent, ValidCounts, ConsistentCounts, Complete, Emitted, CountOf;
    CountsIff(s, counts);
    if ConsistentCounts(counts) {
      CompleteIff(s, counts);
    }
    if Accepted(s, appId) {
      AcceptedIsWellFormed(s, appId);
      forall key | 1 <= key < KEY_MAX ensures Positive(Declared(s, key)) == counts[key] {
        DeclaredIs(s, counts, key);
      }
    }
  }

  // ---- what the entries hold -------------------------------------------------------------------

  /** The values of a list are taken in order, as many as the section counts. */
  predicate ListFrom(values: seq<AString>, s: Section, name: string) {
    && |values| == (if s.Count(name) > 0 then s.Count(name) else 0)
    && forall i :: 0 <= i < |values| ==> values[i] == s.ValueAt(name, i)
  }

  /** The elements of an entry, kind by kind: its name and the values of its section under these names. */
  lemma EntryHolds(key: nat, s: Section)
    requires 1 <= key < KEY_MAX
    ensures
      var p := EntryOf(key, s);
      && p[0] == Text(KeyName(key))
      && (key == STREAM || key == BASIC ==> p[1..] == [s.Value("media_types")])
      && (key == FRAMED ==>
            && |p| == 3 && p[1] == s.Value("media_types")
            && p[2] == if s.Value("max_size").Null? then Text("") else s.Value("max_size"))
      && (key == EVENT ==> p[1..] == [s.Value("package_names")])
      && (key == CORE_SERVICE ==>
            p[1..] == [s.Value("service_id"), s.Value("iari"), s.Value("icsi"), s.Value("feature_tag")])
      && (key == QOS ==>
            p[1..] == [s.Value("service_id"), s.Value("media_types"), s.Value("send_flow_spec"),
                       s.Value("receive_flow_spec")])
      && (key == REG ==> p[1] == s.Value("service_id") && ListFrom(p[2..], s, "header"))
      && (key == WRITE || key == READ ==> p[1..] == [s.Value("header_names")])
      && (key == CAP ==>
            |p| >= 3 && p[1] == s.Value("sector_id") && p[2] == s.Value("message_type") && ListFrom(p[3..], s, "sdp"))
      && (key == MPROF ==> p[1..] == [s.Value("service_id"), s.Value("profile")])
      && (key == CONNECTION ==> p[1..] == [s.Value("service_id")])
  {
    hide KeyName;
  }
}
