/** Printing a feature set and reading one back from a service identifier (Feature.cpp, the ToString and
    FromServiceIdentifier of FeatureSet).
 */
module FeatureSetText {
  import opened AStrings
  import opened PercentCodec
  import opened Features
  import opened FeatureSetModel
  import S = ServiceIdentifiers

  predicate Printable(entries: seq<Entry>) {
    forall i :: 0 <= i < |entries| ==> IsBytes(entries[i].feature.value.Bytes())
  }

  /** The value texts of all entries, joined by commas. */
  function Values(entries: seq<Entry>): seq<string>
    requires Printable(entries)
  {
    seq(|entries|, i requires 0 <= i < |entries| => ValueText(entries[i].feature))
  }

  function Join(texts: seq<string>): string
    requires texts != []
  {
    if |texts| == 1 then texts[0] else texts[0] + "," + Join(texts[1..])
  }

  /** ToString: one feature prints as itself; several print under the first one's tag. */
  function Print(s: FSet): AString
    requires Printable(s.entries)
  {
    if s.entries == [] then Null
    else if |s.entries| == 1 then ToString(s.entries[0].feature)
    else Text(s.entries[0].feature.tag.Bytes() + "=" + "\"" + Join(Values(s.entries)) + "\"")
  }

  function AddAll(s: FSet, tag: AString, values: seq<string>): FSet {
    if values == [] then s
    else Add(AddAll(s, tag, values[..|values| - 1]), ParseTagValue(tag, Text(values[|values| - 1]))).0
  }

  /** FromServiceIdentifier, from the name: `tag=value`, with optional quotes and commas, or a bare tag. A
      default identifier has the null name. */
  function FromServiceIdentifier(name: AString): FSet {
    var k := IndexOf(name.Bytes(), '=');
    if k < 0 then Add(FSet(name, []), Parse(name)).0
    else
      var tag := UpTo(name, k);
      var value := TrimDquot(From(name, k + 1));
      if ',' in value.Bytes() then AddAll(FSet(tag, []), tag, Split(value.Bytes(), ','))
      else Add(FSet(tag, []), ParseTagValue(tag, value)).0
  }

  // ---- IARI and ICSI sets ------------------------------------------------------------------------

  function RefTag(kind: Kind): string {
    if kind == Iari then IARI_REF else ICSI_REF
  }

  predicate ReferenceFeature(f: Feature, kind: Kind) {
    && f.kind == kind
    && f.tag.Text? && |f.tag.bytes| == |RefTag(kind)| && EqualsLiteral(f.tag.bytes, RefTag(kind))
    && (f.value.Empty() ==> f.value.Null?)
    && IsBytes(f.value.Bytes())
  }

  /** A non-empty set of IARI features, or of ICSI features, as parsing and adding make it: values are
      null or not empty. Some may be raw.
   */
  predicate ReferenceSet(s: FSet, kind: Kind) {
    && (kind == Iari || kind == Icsi)
    && s.entries != []
    && (forall i :: 0 <= i < |s.entries| ==> ReferenceFeature(s.entries[i].feature, kind))
  }

  /** The values of the first n entries differ pairwise ignoring case. */
  predicate ValuesDiffer(entries: seq<Entry>, n: nat)
    requires n <= |entries|
  {
    forall i, j :: 0 <= i < j < n ==> !EqualIgnoreCase(entries[i].feature.value, entries[j].feature.value)
  }

  lemma {:induction false} LowerAt(s: string, i: nat)
    requires i < |s| && '\0' !in s
    ensures MakeLower(s)[i] == Lower(s[i])
  {
    if i > 0 {
      LowerAt(s[1..], i - 1);
      assert MakeLower(s)[i] == MakeLower(s[1..])[i - 1];
    }
  }

  predicate CleanChar(c: char) {
    c != '=' && c != ';' && c != ',' && c != '"' && c != '<' && !IsSpace(c)
  }

  /** A text without a separator of any of the grammars involved. */
  predicate Clean(s: string) {
    forall c :: c in s ==> CleanChar(c)
  }

  lemma IariClean()
    ensures Clean(IARI_REF)
  {
  }

  lemma IcsiClean()
    ensures Clean(ICSI_REF)
  {
  }

  lemma LiteralsClean()
    ensures Clean(IARI_REF) && Clean(ICSI_REF) && |IARI_REF| == 16 && |ICSI_REF| == 16
    ensures IARI_REF[0] == '+' && ICSI_REF[0] == '+' && IARI_REF != ICSI_REF
  {
    hide Clean;
    IariClean();
    IcsiClean();
    assert IARI_REF[9] != ICSI_REF[9];
  }

  lemma CleanOmits(s: string, c: char)
    requires Clean(s) && !CleanChar(c)
    ensures c !in s
  {
    hide CleanChar;
  }

  lemma CleanStarts(s: string)
    requires Clean(s) && s != ""
    ensures CleanChar(s[0]) && CleanChar(s[|s| - 1])
  {
    hide CleanChar;
    assert s[0] in s && s[|s| - 1] in s;
  }

  lemma {:induction false} CStrHasNoNul(s: string)
    ensures '\0' !in CStr(s)
  {
    if s != "" && s[0] != '\0' {
      CStrHasNoNul(s[1..]);
    }
  }

  lemma TagClean(tag: string, literal: string)
    requires |tag| == |literal| && EqualsLiteral(tag, literal)
    requires Clean(literal) && literal != "" && literal[0] == '+'
    ensures Clean(tag) && tag[0] == '+' && CStr(tag) == tag
  {
    CStrWhole(tag);
    CStrHasNoNul(tag);
    forall c | c in tag ensures CleanChar(c) {
      var i :| 0 <= i < |tag| && tag[i] == c;
      LowerAt(tag, i);
      assert literal[i] in literal;
    }
    LowerAt(tag, 0);
  }

  lemma CleanIsTrimmed(s: string)
    requires Clean(s)
    ensures Trim(s) == s
  {
    hide Clean;
    if s != "" {
      CleanStarts(s);
    }
  }

  lemma PlainIsClean(c: char)
    requires IsPlain(c) || c == '%'
    ensures CleanChar(c)
  {
  }

  lemma EncodedClean(v: string)
    requires IsBytes(v)
    ensures Clean(Encode(v)) && (v == "" <==> Encode(v) == "")
  {
    EncodeShape(v);
    forall c | c in Encode(v) ensures CleanChar(c) {
      PlainIsClean(c);
    }
  }

  lemma ParsePlain(tag: string, code: string)
    requires Clean(tag) && tag != "" && Trim(code) == code && (code != "" ==> code[0] != '"')
    ensures Parse(Text(tag)) == Classify(Text(tag), Null, Boolean, false)
    ensures code != "" ==>
              Parse(Text(tag + "=" + code)) ==
              Classify(Text(tag), Text(code), KindOfValue(Text(code)), IsRaw(Text(code)))
  {
    hide Trim, Classify, KindOfValue, Clean, IsRaw;
    CleanIsTrimmed(tag);
    CleanOmits(tag, '=');
    if code != "" {
      var text := tag + "=" + code;
      assert text[|tag|] == '=' && text[..|tag|] == tag && text[|tag| + 1..] == code;
      IndexOfIs(text, '=', |tag|);
    }
  }

  lemma ClassifyReference(tag: string, kind: Kind)
    requires kind == Iari || kind == Icsi
    requires |tag| == |RefTag(kind)| && EqualsLiteral(tag, RefTag(kind)) && tag[0] == '+'
    ensures !IsBaseTag(Text(tag))
    ensures EqualsLiteral(tag, IARI_REF) <==> kind == Iari
    ensures EqualsLiteral(tag, ICSI_REF) <==> kind == Icsi
  {
    LiteralsClean();
    assert MakeLower(tag)[0] == '+';
    assert "+" <= MakeLower(tag);
  }

  /** Parsing a tag of the reference kind, alone or with a coded value, gives back the feature. */
  lemma ParseReference(tag: string, v: AString, kind: Kind)
    requires kind == Iari || kind == Icsi
    requires |tag| == |RefTag(kind)| && EqualsLiteral(tag, RefTag(kind))
    requires (v.Empty() ==> v.Null?) && IsBytes(v.Bytes())
    ensures ParseTagValue(Text(tag), Text(Encode(v.Bytes()))) == Feature(kind, false, Text(tag), v)
    ensures v.Null? ==> Parse(Text(tag)) == Feature(kind, false, Text(tag), v)
  {
    hide EqualsLiteral, IsBaseTag, Trim, Encode, Decode, Parse, Clean, KindOfValue;
    LiteralsClean();
    TagClean(tag, RefTag(kind));
    var code := Encode(v.Bytes());
    EncodedClean(v.Bytes());
    ClassifyReference(tag, kind);
    CleanIsTrimmed(code);
    if code != "" {
      CleanStarts(code);
    }
    ParsePlain(tag, code);
    if code != "" {
      DecodeEncode(v.Bytes());
    }
  }

  /** What reading back makes of an entry: the tag is spelled as the first one's, the raw mark is gone and
      the count is one. */
  function Reread(e: Entry, tag: AString): Entry {
    Entry(e.feature.(tag := tag, caseSensitive := false), 1)
  }

  function RereadAll(s: FSet): FSet
    requires s.entries != []
  {
    var tag := s.entries[0].feature.tag;
    FSet(tag, seq(|s.entries|, i requires 0 <= i < |s.entries| => Reread(s.entries[i], tag)))
  }

  lemma {:induction false} JoinSnoc(texts: seq<string>, last: string)
    requires texts != []
    ensures Join(texts + [last]) == Join(texts) + "," + last
  {
    if |texts| > 1 {
      JoinSnoc(texts[1..], last);
      assert (texts + [last])[1..] == texts[1..] + [last];
    }
  }

  lemma {:induction false} SplitJoin(texts: seq<string>)
    requires texts != [] && forall i :: 0 <= i < |texts| ==> Clean(texts[i])
    ensures Split(Join(texts), ',') == texts
    ensures |texts| > 1 <==> ',' in Join(texts)
  {
    hide Split, Trim, Clean;
    var head := texts[0];
    CleanOmits(head, ',');
    CleanIsTrimmed(head);
    if |texts| == 1 {
      SplitNoSeparator(head, ',');
      assert texts == [head];
    } else {
      var rest := texts[1..];
      SplitJoin(rest);
      SplitHead(head, ',', Join(rest));
      assert texts == [head] + rest;
      assert Join(texts)[|head|] == ',';
    }
  }

  /** No text of the joined values ends an identifier's name early. */
  lemma {:induction false} JoinSafe(texts: seq<string>)
    requires texts != [] && forall i :: 0 <= i < |texts| ==> Clean(texts[i])
    ensures ';' !in Join(texts)
  {
    hide Clean;
    CleanOmits(texts[0], ';');
    if |texts| > 1 {
      JoinSafe(texts[1..]);
    }
  }

  lemma AddAllStep(s: FSet, tag: AString, values: seq<string>, n: nat)
    requires 0 < n <= |values|
    ensures AddAll(s, tag, values[..n]) ==
            Add(AddAll(s, tag, values[..n - 1]), ParseTagValue(tag, Text(values[n - 1]))).0
  {
    hide Add, ParseTagValue;
    assert values[..n][..n - 1] == values[..n - 1];
  }

  lemma AddAllNone(s: FSet, tag: AString)
    ensures AddAll(s, tag, []) == s
  {
  }

  lemma RereadShape(s: FSet)
    requires s.entries != [] && Printable(s.entries)
    ensures |RereadAll(s).entries| == |s.entries| == |Values(s.entries)|
    ensures forall i :: 0 <= i < |s.entries| ==> RereadAll(s).entries[i].refs == 1
  {
  }

  lemma RereadParses(s: FSet, kind: Kind, i: nat)
    requires ReferenceSet(s, kind) && Printable(s.entries) && i < |s.entries|
    ensures
      var tag := s.entries[0].feature.tag;
      && ParseTagValue(tag, Text(Values(s.entries)[i])) == RereadAll(s).entries[i].feature
      && RereadAll(s).entries[i].feature.tag == tag
  {
    hide EqualsLiteral, EqualIgnoreCase, ParseTagValue, Encode;
    assert ReferenceFeature(s.entries[0].feature, kind) && ReferenceFeature(s.entries[i].feature, kind);
    ParseReference(s.entries[0].feature.tag.bytes, s.entries[i].feature.value, kind);
  }

  lemma AddNew(s: FSet, f: Feature)
    requires s.tag == f.tag && Lookup(s.entries, f) == -1
    ensures Add(s, f).0 == FSet(s.tag, s.entries + [Entry(f, 1)])
  {
    hide EqualIgnoreCase, Lookup;
    EqualToItself(s.tag);
  }

  lemma KindOfReference(f: Feature, kind: Kind)
    requires ReferenceFeature(f, kind)
    ensures f.kind == kind
  {
  }

  lemma NoneMatches(s: FSet, kind: Kind, n: nat)
    requires ReferenceSet(s, kind) && n < |s.entries| && ValuesDiffer(s.entries, n + 1)
    ensures Lookup(RereadAll(s).entries[..n], RereadAll(s).entries[n].feature) == -1
  {
    hide EqualIgnoreCase, ReferenceFeature, Lookup;
    var reread := RereadAll(s).entries;
    forall i | 0 <= i < n
      ensures !Equals(reread[..n][i].feature, reread[n].feature)
    {
      assert ReferenceFeature(s.entries[i].feature, kind) && ReferenceFeature(s.entries[n].feature, kind);
      KindOfReference(s.entries[i].feature, kind);
      KindOfReference(s.entries[n].feature, kind);
      assert !EqualIgnoreCase(s.entries[i].feature.value, s.entries[n].feature.value);
    }
  }

  /** Adding the coded values one by one rebuilds the entries in order, each once. */
  lemma {:induction false} AddAllRereads(s: FSet, kind: Kind, n: nat)
    requires ReferenceSet(s, kind) && Printable(s.entries) && n <= |s.entries| && ValuesDiffer(s.entries, n)
    ensures
      var tag := s.entries[0].feature.tag;
      AddAll(FSet(tag, []), tag, Values(s.entries)[..n]) == FSet(tag, RereadAll(s).entries[..n])
  {
    hide EqualsLiteral, EqualIgnoreCase, ParseTagValue, Encode, Add, Lookup, Values, RereadAll, AddAll, Printable;
    hide ReferenceFeature;
    var tag := s.entries[0].feature.tag;
    var values := Values(s.entries);
    var reread := RereadAll(s).entries;
    RereadShape(s);
    if n > 0 {
      AddAllRereads(s, kind, n - 1);
      AddAllStep(FSet(tag, []), tag, values, n);
      RereadParses(s, kind, n - 1);
      NoneMatches(s, kind, n - 1);
      AddNew(FSet(tag, reread[..n - 1]), reread[n - 1].feature);
      assert reread[..n] == reread[..n - 1] + [reread[n - 1]];
    } else {
      assert values[..0] == [] && reread[..0] == [];
      AddAllNone(FSet(tag, []), tag);
    }
  }

  lemma AddGrows(s: FSet, f: Feature)
    ensures |Add(s, f).0.entries| <= |s.entries| + 1
    ensures Lookup(s.entries, f) >= 0 ==> |Add(s, f).0.entries| == |s.entries|
  {
    hide EqualIgnoreCase, Lookup;
  }

  lemma OneMatches(s: FSet, kind: Kind, n: nat)
    requires ReferenceSet(s, kind) && n < |s.entries|
    requires ValuesDiffer(s.entries, n) && !ValuesDiffer(s.entries, n + 1)
    ensures Lookup(RereadAll(s).entries[..n], RereadAll(s).entries[n].feature) >= 0
  {
    hide EqualIgnoreCase, ReferenceFeature, Lookup;
    var reread := RereadAll(s).entries;
    var i :| 0 <= i < n && EqualIgnoreCase(s.entries[i].feature.value, s.entries[n].feature.value);
    assert ReferenceFeature(s.entries[i].feature, kind) && ReferenceFeature(s.entries[n].feature, kind);
    KindOfReference(s.entries[i].feature, kind);
    KindOfReference(s.entries[n].feature, kind);
    EqualToItself(s.entries[0].feature.tag);
    assert Equals(reread[..n][i].feature, reread[n].feature);
  }

  /** Two values that differ in case only fall together. */
  lemma {:induction false} AddAllLoses(s: FSet, kind: Kind, n: nat)
    requires ReferenceSet(s, kind) && Printable(s.entries) && n <= |s.entries|
    ensures
      var tag := s.entries[0].feature.tag;
      var all := AddAll(FSet(tag, []), tag, Values(s.entries)[..n]);
      |all.entries| <= n && (!ValuesDiffer(s.entries, n) ==> |all.entries| < n)
  {
    hide EqualsLiteral, EqualIgnoreCase, ParseTagValue, Encode, Add, Lookup, Values, RereadAll, AddAll, Printable;
    hide ReferenceFeature;
    var tag := s.entries[0].feature.tag;
    var values := Values(s.entries);
    RereadShape(s);
    if n > 0 {
      AddAllLoses(s, kind, n - 1);
      AddAllStep(FSet(tag, []), tag, values, n);
      AddGrows(AddAll(FSet(tag, []), tag, values[..n - 1]), ParseTagValue(tag, Text(values[n - 1])));
      if ValuesDiffer(s.entries, n - 1) && !ValuesDiffer(s.entries, n) {
        AddAllRereads(s, kind, n - 1);
        RereadParses(s, kind, n - 1);
        OneMatches(s, kind, n - 1);
      }
    } else {
      assert values[..0] == [];
      AddAllNone(FSet(tag, []), tag);
    }
  }

  /** A set of several features, or of one with a value, prints as a tag and a quoted text. */
  function Quoted(tag: string, joined: string): string {
    tag + "=" + "\"" + joined + "\""
  }

  lemma QuotedParts(tag: string, joined: string)
    requires Clean(tag) && tag != "" && joined != ""
    ensures
      var text := Quoted(tag, joined);
      && IndexOf(text, '=') == |tag| < |text|
      && UpTo(Text(text), |tag|) == Text(tag)
      && From(Text(text), |tag| + 1) == Text("\"" + joined + "\"")
  {
    CleanOmits(tag, '=');
    hide IndexOf, Clean;
    var text := Quoted(tag, joined);
    assert text[..|tag|] == tag && text[|tag| + 1..] == "\"" + joined + "\"";
    IndexOfIs(text, '=', |tag|);
  }

  lemma QuotedName(tag: string, joined: string)
    requires Clean(tag) && tag != "" && ';' !in joined
    ensures S.Parse(Quoted(tag, joined)).name == Quoted(tag, joined)
  {
    CleanOmits(tag, ';');
    CleanStarts(tag);
    hide Trim, Clean;
    var text := Quoted(tag, joined);
    assert text[0] == tag[0] && text[|text| - 1] == '"';
    S.ParseName(text);
  }

  lemma FromParts(name: string, k: nat, tag: AString, value: AString)
    requires IndexOf(name, '=') == k < |name|
    requires UpTo(Text(name), k) == tag && TrimDquot(From(Text(name), k + 1)) == value
    ensures FromServiceIdentifier(Text(name)) ==
            if ',' in value.Bytes() then AddAll(FSet(tag, []), tag, Split(value.Bytes(), ','))
            else Add(FSet(tag, []), ParseTagValue(tag, value)).0
  {
    hide Split, AddAll, Add, ParseTagValue, IndexOf, TrimDquot, From, UpTo;
  }

  lemma TrimQuotes(joined: string)
    ensures TrimDquot(Text("\"" + joined + "\"")) == Text(joined)
  {
    var quoted := "\"" + joined + "\"";
    assert quoted[1..|quoted| - 1] == joined;
  }

  /** Reading the quoted form back adds the comma-separated values one by one. */
  lemma FromQuoted(tag: string, joined: string)
    requires Clean(tag) && tag != "" && ';' !in joined && joined != ""
    ensures FromServiceIdentifier(Text(S.Parse(Quoted(tag, joined)).name)) ==
            if ',' in joined then AddAll(FSet(Text(tag), []), Text(tag), Split(joined, ','))
            else Add(FSet(Text(tag), []), ParseTagValue(Text(tag), Text(joined))).0
  {
    hide Clean, Split, AddAll, Add, ParseTagValue, Parse, Quoted, IndexOf, S.Parse, TrimDquot, From, UpTo;
    hide FromServiceIdentifier;
    QuotedParts(tag, joined);
    QuotedName(tag, joined);
    TrimQuotes(joined);
    FromParts(Quoted(tag, joined), |tag|, Text(tag), Text(joined));
  }

  /** What comes back when the printed set is parsed as a service identifier. */
  function RereadPrint(s: FSet): FSet
    requires Printable(s.entries) && Print(s).Text?
  {
    FromServiceIdentifier(Text(S.Parse(Print(s).bytes).name))
  }

  lemma FromBare(tag: string)
    requires Clean(tag)
    ensures FromServiceIdentifier(Text(S.Parse(tag).name)) == Add(FSet(Text(tag), []), Parse(Text(tag))).0
  {
    CleanOmits(tag, ';');
    CleanOmits(tag, '=');
    CleanIsTrimmed(tag);
    hide Trim, Clean, S.Parse, Parse, Add;
    S.ParseName(tag);
  }

  lemma RereadOne(s: FSet, kind: Kind)
    requires ReferenceSet(s, kind) && Printable(s.entries) && |s.entries| == 1
    ensures Print(s).Text? && RereadPrint(s) == RereadAll(s)
  {
    hide EqualsLiteral, EqualIgnoreCase, Parse, ParseTagValue, Encode, Clean, FromServiceIdentifier, S.Parse;
    var f := s.entries[0].feature;
    assert ReferenceFeature(f, kind);
    var tag := f.tag.bytes;
    LiteralsClean();
    TagClean(tag, RefTag(kind));
    ParseReference(tag, f.value, kind);
    EqualToItself(f.tag);
    assert RereadAll(s).entries == [Entry(Feature(kind, false, f.tag, f.value), 1)];
    if f.value.Null? {
      FromBare(tag);
    } else {
      var code := Encode(f.value.Bytes());
      EncodedClean(f.value.Bytes());
      CleanOmits(code, ';');
      CleanOmits(code, ',');
      FromQuoted(tag, code);
      assert Print(s) == Text(Quoted(tag, code));
    }
  }

  lemma ValuesClean(s: FSet, kind: Kind)
    requires ReferenceSet(s, kind) && Printable(s.entries)
    ensures forall i :: 0 <= i < |s.entries| ==> Clean(Values(s.entries)[i])
  {
    hide EqualsLiteral, EqualIgnoreCase, Encode, Clean;
    forall i | 0 <= i < |s.entries| ensures Clean(Values(s.entries)[i]) {
      assert ReferenceFeature(s.entries[i].feature, kind);
      EncodedClean(s.entries[i].feature.value.Bytes());
    }
  }

  lemma RereadMany(s: FSet, kind: Kind)
    requires ReferenceSet(s, kind) && Printable(s.entries) && |s.entries| > 1
    ensures Print(s).Text? && (RereadPrint(s) == RereadAll(s) <==> ValuesDiffer(s.entries, |s.entries|))
  {
    hide EqualsLiteral, EqualIgnoreCase, Encode, Split, Join, Clean, FromServiceIdentifier, S.Parse, AddAll, ValueText;
    var f := s.entries[0].feature;
    assert ReferenceFeature(f, kind);
    var tag := f.tag.bytes;
    LiteralsClean();
    TagClean(tag, RefTag(kind));
    var values := Values(s.entries);
    ValuesClean(s, kind);
    SplitJoin(values);
    JoinSafe(values);
    FromQuoted(tag, Join(values));
    assert Print(s) == Text(Quoted(tag, Join(values)));
    RereadShape(s);
    assert values[..|s.entries|] == values;
    assert RereadAll(s).entries[..|s.entries|] == RereadAll(s).entries;
    if ValuesDiffer(s.entries, |s.entries|) {
      AddAllRereads(s, kind, |s.entries|);
    } else {
      AddAllLoses(s, kind, |s.entries|);
    }
  }

  /** Printing an IARI or ICSI set, parsing the text as a service identifier and reading that back gives
      the same values in the same order, each counted once, if and only if no two values differ in case
      only. This holds for any number of values of any bytes, raw ones included. */
  lemma RereadPrinted(s: FSet, kind: Kind)
    requires ReferenceSet(s, kind) && Printable(s.entries)
    ensures Print(s).Text? && (RereadPrint(s) == RereadAll(s) <==> ValuesDiffer(s.entries, |s.entries|))
  {
    hide ReferenceFeature, Printable, Values, Print, RereadPrint, RereadAll;
    if |s.entries| == 1 {
      RereadOne(s, kind);
    } else {
      RereadMany(s, kind);
    }
  }

  // ---- what a run makes --------------------------------------------------------------------------

  predicate ReferenceOp(f: Feature, kind: Kind) {
    Parsed(f) && f.kind == kind && IsBytes(f.value.Bytes())
  }

  /** Operations on parsed IARI features, or on ICSI features, whose values are bytes. */
  predicate ReferenceOps(ops: seq<Op>, kind: Kind) {
    forall i :: 0 <= i < |ops| ==> ReferenceOp(ops[i].feature, kind)
  }

  predicate NoneRaw(ops: seq<Op>) {
    forall i :: 0 <= i < |ops| ==> !ops[i].feature.caseSensitive
  }

  predicate NoRawEntry(entries: seq<Entry>) {
    forall i :: 0 <= i < |entries| ==> !entries[i].feature.caseSensitive
  }

  predicate ReferenceEntries(entries: seq<Entry>, tag: AString, kind: Kind) {
    forall i :: 0 <= i < |entries| ==>
      ReferenceOp(entries[i].feature, kind) && EqualIgnoreCase(tag, entries[i].feature.tag)
  }

  lemma StepEntries(s: FSet, op: Op, kind: Kind)
    requires ReferenceEntries(s.entries, s.tag, kind) && ReferenceOp(op.feature, kind)
    ensures Step(s, op).0.tag == s.tag && ReferenceEntries(Step(s, op).0.entries, s.tag, kind)
  {
    hide EqualIgnoreCase, ReferenceOp, Lookup;
  }

  lemma StepRaw(s: FSet, op: Op)
    requires NoRawEntry(s.entries) && !op.feature.caseSensitive
    ensures NoRawEntry(Step(s, op).0.entries)
  {
    hide EqualIgnoreCase, Lookup;
  }

  lemma NoEntries(tag: AString, kind: Kind)
    ensures ReferenceEntries([], tag, kind) && NoRawEntry([])
  {
  }

  lemma {:induction false} RunEntries(tag: AString, ops: seq<Op>, kind: Kind)
    requires ReferenceOps(ops, kind)
    ensures Run(tag, ops).tag == tag && ReferenceEntries(Run(tag, ops).entries, tag, kind)
    ensures NoneRaw(ops) ==> NoRawEntry(Run(tag, ops).entries)
  {
    hide ReferenceEntries, NoRawEntry, ReferenceOp, Step;
    if ops != [] {
      var before, op := ops[..|ops| - 1], ops[|ops| - 1];
      RunEntries(tag, before, kind);
      StepEntries(Run(tag, before), op, kind);
      if NoneRaw(ops) {
        StepRaw(Run(tag, before), op);
      }
    } else {
      NoEntries(tag, kind);
    }
  }

  lemma EntryIsReference(tag: string, f: Feature, kind: Kind)
    requires (kind == Iari || kind == Icsi) && |tag| == |RefTag(kind)| && EqualsLiteral(tag, RefTag(kind))
    requires ReferenceOp(f, kind) && EqualIgnoreCase(Text(tag), f.tag)
    ensures ReferenceFeature(f, kind)
  {
  }

  lemma UnequalValues(tag: AString, f: Feature, g: Feature, kind: Kind)
    requires (kind == Iari || kind == Icsi) && f.kind == kind && g.kind == kind && !f.caseSensitive
    requires EqualIgnoreCase(tag, f.tag) && EqualIgnoreCase(tag, g.tag) && !Equals(f, g)
    ensures !EqualIgnoreCase(f.value, g.value)
  {
    hide CStr, MakeLower;
  }

  /** Whatever a run of adds and removes of such features leaves behind survives printing and reading back
      exactly if no two values left differ in case only, which is so whenever none was raw. */
  lemma RereadRun(tag: string, ops: seq<Op>, kind: Kind)
    requires (kind == Iari || kind == Icsi) && |tag| == |RefTag(kind)| && EqualsLiteral(tag, RefTag(kind))
    requires ReferenceOps(ops, kind) && Run(Text(tag), ops).entries != []
    ensures var s := Run(Text(tag), ops);
            && Printable(s.entries) && Print(s).Text?
            && (RereadPrint(s) == RereadAll(s) <==> ValuesDiffer(s.entries, |s.entries|))
            && (NoneRaw(ops) ==> ValuesDiffer(s.entries, |s.entries|))
  {
    hide Run, RereadPrint, RereadAll, EqualIgnoreCase, Equals, EqualsLiteral;
    var s := Run(Text(tag), ops);
    RunEntries(Text(tag), ops, kind);
    RunKeepsOrder(Text(tag), ops);
    forall i | 0 <= i < |s.entries| ensures ReferenceFeature(s.entries[i].feature, kind) {
      EntryIsReference(tag, s.entries[i].feature, kind);
    }
    if NoneRaw(ops) {
      forall i, j | 0 <= i < j < |s.entries|
        ensures !EqualIgnoreCase(s.entries[i].feature.value, s.entries[j].feature.value)
      {
        UnequalValues(Text(tag), s.entries[i].feature, s.entries[j].feature, kind);
      }
    }
    RereadPrinted(s, kind);
  }

  lemma OwnLiteral()
    ensures EqualsLiteral(IARI_REF, IARI_REF)
  {
    hide CStr, MakeLower;
    LowerFixed(IARI_REF);
  }

  lemma RawText()
    ensures Decode("<A>") == "<A>" && Trim("<A>") == "<A>"
  {
    DecodeShape("<A>");
    assert Escapes("<A>") == 0 by {
      assert Escapes("<A>") == Escapes("A>") == Escapes(">") == 0;
    }
  }

  /** The two features that break symmetry come from parsing. */
  lemma RawParses()
    ensures Parse(Text(IARI_REF + "=" + "<A>")) == RAW
  {
    hide EqualsLiteral, IsBaseTag, Trim, Encode, Decode, Parse, ParseTagValue, Clean, KindOfValue;
    LiteralsClean();
    OwnLiteral();
    RawText();
    ParsePlain(IARI_REF, "<A>");
    ClassifyReference(IARI_REF, Iari);
  }

  lemma CodedParses()
    ensures IsBytes("<a>") && ParseTagValue(Text(IARI_REF), Text(Encode("<a>"))) == CODED
  {
    hide EqualsLiteral, Encode, Parse, ParseTagValue;
    OwnLiteral();
    ParseReference(IARI_REF, Text("<a>"), Iari);
  }

  /** And so does the middle of the chain that breaks. */
  lemma CodedSameParses()
    ensures IsBytes("<A>") && ParseTagValue(Text(IARI_REF), Text(Encode("<A>"))) == CODED_SAME
  {
    hide EqualsLiteral, Encode, Parse, ParseTagValue;
    OwnLiteral();
    ParseReference(IARI_REF, Text("<A>"), Iari);
  }

  lemma CaseOnly()
    ensures EqualIgnoreCase(RAW.value, CODED.value)
  {
    assert CStr("<a>") == "<a>" && CStr("<A>") == "<A>";
    assert MakeLower("<a>") == "<a>" && MakeLower("<A>") == "<a>";
  }

  /** What adding a raw value and then the same in another case makes, and does not survive. */
  const CASES := FSet(RAW.tag, [Entry(RAW, 1), Entry(CODED, 1)])

  lemma CasesAreAdded()
    ensures Run(RAW.tag, [AddOp(RAW), AddOp(CODED)]) == CASES
  {
    hide Equals, EqualIgnoreCase, Run, EqualsLiteral;
    RawValueBreaksSymmetry();
    EqualToItself(RAW.tag);
    AddTwo(RAW.tag, RAW, CODED);
    RunKeepsOrder(RAW.tag, [AddOp(RAW), AddOp(CODED)]);
  }

  lemma CaseIsLost()
    ensures Printable(CASES.entries) && Print(CASES).Text? && RereadPrint(CASES) != RereadAll(CASES)
  {
    hide EqualsLiteral, Print, RereadPrint, RereadAll, EqualIgnoreCase;
    OwnLiteral();
    CaseOnly();
    var entries := CASES.entries;
    assert EqualIgnoreCase(entries[0].feature.value, entries[1].feature.value);
    RereadPrinted(CASES, Iari);
  }
}
