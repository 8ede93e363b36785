/** Feature tags (section 9 of RFC 3840): parsing one, comparing two and printing. Follows the class
    Feature of Feature.cpp.
 */
module Features {
  import opened AStrings
  import opened PercentCodec

  datatype Kind = NoKind | Boolean | Numeric | TokenNoBang | StringValue | Iari | Icsi

  datatype Feature = Feature(kind: Kind, caseSensitive: bool, tag: AString, value: AString) {
    predicate IsReference() {
      kind == Iari || kind == Icsi
    }
  }

  const BASE_TAGS: seq<string> := [
    "audio", "application", "data", "control", "video", "text", "automata", "class", "duplex", "mobility",
    "description", "events", "priority", "methods", "extensions", "schemes", "actor", "isfocus", "language",
    "type"]

  const IARI_REF := "+g.3gpp.iari-ref"
  const ICSI_REF := "+g.3gpp.icsi-ref"

  predicate EndsWith(s: string, end: string) {
    |end| <= |s| && s[|s| - |end|..] == end
  }

  /** A tag of RFC 3840, bare or under "sip."; only the end of a prefixed one is looked at. */
  predicate IsBaseTag(tag: AString) {
    var lower := MakeLower(tag.Bytes());
    && !("+" <= lower)
    && if "sip." <= lower then exists i :: 0 <= i < |BASE_TAGS| && EndsWith(lower, BASE_TAGS[i])
       else exists i :: 0 <= i < |BASE_TAGS| && CStr(lower) == BASE_TAGS[i]
  }

  function StripPrefix(tag: AString): AString {
    var dot := IndexOf(tag.Bytes(), '.');
    if dot < 0 then tag else From(tag, dot + 1)
  }

  function DecodeValue(value: AString): AString {
    if value.Empty() then Null else Text(Decode(value.Bytes()))
  }

  predicate IsRaw(value: AString) {
    var v := value.Bytes();
    v != "" && v[0] == '<' && v[|v| - 1] == '>'
  }

  /** The value between `<` and `>` is a string, one after `#` a number, TRUE and FALSE are booleans,
      and the rest tokens. */
  function KindOfValue(value: AString): Kind {
    var v := value.Bytes();
    if EqualsLiteral(v, "true") || EqualsLiteral(v, "false") then Boolean
    else if IsRaw(value) then StringValue
    else if "!#" <= v || "#" <= v then Numeric
    else TokenNoBang
  }

  /** What the tag adds: base tags lose their prefix, IARI and ICSI values are decoded, and "methods"
      is compared in a case-sensitive way. */
  function Classify(tag: AString, value: AString, kind: Kind, raw: bool): Feature {
    if IsBaseTag(tag) then
      var t := StripPrefix(tag);
      Feature(kind, raw || EqualsLiteral(t.Bytes(), "methods"), t, value)
    else if EqualsLiteral(tag.Bytes(), IARI_REF) then
      Feature(Iari, raw, tag, DecodeValue(value))
    else if EqualsLiteral(tag.Bytes(), ICSI_REF) then
      Feature(Icsi, raw, tag, DecodeValue(value))
    else
      Feature(kind, raw || EqualsLiteral(tag.Bytes(), "methods"), tag, value)
  }

  /** ExtractProperties: `tag`, or `tag=value` with optional quotes. */
  function Parse(text: AString): Feature {
    if text.Empty() then Feature(NoKind, false, Null, Null)
    else
      var k := IndexOf(text.bytes, '=');
      if k < 0 then Classify(TrimA(text), Null, Boolean, false)
      else
        var value := TrimDquot(TrimA(From(text, k + 1)));
        Classify(TrimA(UpTo(text, k)), value, KindOfValue(value), IsRaw(value))
  }

  /** The constructor from a tag and a value. */
  function ParseTagValue(tag: AString, value: AString): Feature {
    if value.Empty() then Parse(tag) else Parse(Text(tag.Bytes() + "=" + value.Bytes()))
  }

  // ---- printing -------------------------------------------------------------------------------

  /** ToStringValueOnly: IARI and ICSI values are percent-encoded. */
  function ValueText(f: Feature): string
    requires IsBytes(f.value.Bytes())
  {
    if f.IsReference() then Encode(f.value.Bytes()) else f.value.Bytes()
  }

  /** ToString of one feature. */
  function ToString(f: Feature): AString
    requires IsBytes(f.value.Bytes())
  {
    if f.kind == Boolean || f.value.Empty() then f.tag
    else Text(f.tag.Bytes() + "=" + "\"" + ValueText(f) + "\"")
  }

  /** What stands in the text: the tag alone for a boolean or without a value, otherwise the tag, an equals sign and
      the value in quotes, coded for an IARI or ICSI. */
  lemma ToStringIs(f: Feature, value: string)
    requires f.value == Text(value) && IsBytes(value)
    ensures f.kind != Boolean && value != "" && f.kind != Iari && f.kind != Icsi ==>
              ToString(f) == Text(f.tag.Bytes() + "=\"" + value + "\"")
    ensures (f.kind == Iari || f.kind == Icsi) && value != "" ==>
              ToString(f) == Text(f.tag.Bytes() + "=\"" + Encode(value) + "\"")
    ensures f.kind == Boolean || value == "" ==> ToString(f) == f.tag
  {
    hide Encode;
    assert "=\"" == "=" + "\"";
    assert f.tag.Bytes() + "=" + "\"" == f.tag.Bytes() + ("=" + "\"");
  }

  // ---- comparing -----------------------------------------------------------------------------

  predicate Equals(a: Feature, b: Feature) {
    if a.kind != b.kind || !EqualIgnoreCase(a.tag, b.tag) then false
    else if a.kind == Boolean then
      if a.value.Empty() && b.value.Empty() then true
      else if a.caseSensitive && b.caseSensitive then
        || (a.value.Empty() && CStr(b.value.Bytes()) == "TRUE")
        || (b.value.Empty() && CStr(a.value.Bytes()) == "TRUE")
        || Equal(a.value, b.value)
      else
        || (a.value.Empty() && EqualsLiteral(b.value.Bytes(), "true"))
        || (b.value.Empty() && EqualsLiteral(a.value.Bytes(), "true"))
        || EqualIgnoreCase(a.value, b.value)
    else if a.caseSensitive then Equal(a.value, b.value)
    else EqualIgnoreCase(a.value, b.value)
  }

  /** What parsing guarantees: the case flag is a function of kind and tag, except that IARI and ICSI
      features keep the flag of a raw `<...>` value; boolean values are absent, TRUE or FALSE; a
      decoded value is never empty without being null.
   */
  predicate Parsed(f: Feature) {
    && (!f.IsReference() ==> (f.caseSensitive <==> f.kind == StringValue || EqualsLiteral(f.tag.Bytes(), "methods")))
    && (f.kind == Boolean && !f.value.Empty() ==>
          EqualsLiteral(f.value.Bytes(), "true") || EqualsLiteral(f.value.Bytes(), "false"))
    && (f.IsReference() && f.value.Empty() ==> f.value.Null?)
  }

  lemma RawIsNoBoolean(v: string)
    requires v != "" && v[0] == '<'
    ensures !EqualsLiteral(v, "true") && !EqualsLiteral(v, "false")
  {
    assert MakeLower(CStr(v))[0] == '<';
  }

  lemma KindFacts(value: AString)
    ensures
      var kind := KindOfValue(value);
      var v := value.Bytes();
      && (kind == Boolean <==> EqualsLiteral(v, "true") || EqualsLiteral(v, "false"))
      && (kind == StringValue <==> IsRaw(value))
      && kind != Iari && kind != Icsi
  {
    hide MakeLower, CStr;
    if IsRaw(value) {
      RawIsNoBoolean(value.Bytes());
    }
  }

  lemma DecodedIsNullOrText(value: AString)
    ensures DecodeValue(value).Empty() ==> DecodeValue(value).Null?
  {
    DecodeShape(value.Bytes());
    if !value.Empty() {
      assert |DecodeChunk(value.Bytes())| >= 1;
    }
  }

  lemma ClassifyParsed(tag: AString, value: AString, kind: Kind, raw: bool)
    requires (kind == Boolean && value == Null && !raw) || (kind == KindOfValue(value) && raw == IsRaw(value))
    ensures Parsed(Classify(tag, value, kind, raw))
  {
    hide EqualsLiteral, IsBaseTag, DecodeValue, KindOfValue, IsRaw, StripPrefix;
    KindFacts(value);
    DecodedIsNullOrText(value);
  }

  lemma ParseTextParsed(text: AString)
    ensures Parsed(Parse(text))
  {
    hide Classify, KindOfValue, IsRaw, TrimDquot, Trim;
    if text.Empty() {
      assert !EqualsLiteral("", "methods");
    } else {
      var k := IndexOf(text.bytes, '=');
      if k < 0 {
        ClassifyParsed(TrimA(text), Null, Boolean, false);
      } else {
        var value := TrimDquot(TrimA(From(text, k + 1)));
        ClassifyParsed(TrimA(UpTo(text, k)), value, KindOfValue(value), IsRaw(value));
      }
    }
  }

  /** Parsing makes the case flag a function of kind and tag. */
  lemma ParseParsed(text: AString, tag: AString, value: AString)
    ensures Parsed(Parse(text)) && Parsed(ParseTagValue(tag, value))
  {
    ParseTextParsed(text);
    ParseTextParsed(if value.Empty() then tag else Text(tag.Bytes() + "=" + value.Bytes()));
  }

  // ---- what parsing makes of a text, field by field ------------------------------------------------

  /** The tags of section 9 of RFC 3840. */
  lemma BaseTagsOfRfc3840(tag: string)
    ensures tag in BASE_TAGS <==>
            tag in {"audio", "automata", "class", "duplex", "data", "control", "mobility", "description", "events",
                    "priority", "methods", "schemes", "application", "video", "language", "type", "isfocus", "actor",
                    "text", "extensions"}
  {
    assert BASE_TAGS[..10] + BASE_TAGS[10..] == BASE_TAGS;
  }

  lemma NoPlus(s: string)
    requires "+" <= s
    ensures s !in BASE_TAGS && !("sip." <= s)
  {
    assert s[0] == '+';
    assert forall i :: 0 <= i < |BASE_TAGS| ==> BASE_TAGS[i][0] != '+';
  }

  /** A tag is a base tag if it is one of them in any case, or stands under "sip." and ends in one of them. */
  lemma BaseTagIff(tag: string)
    requires '\0' !in tag
    ensures var lower := MakeLower(tag);
            IsBaseTag(Text(tag)) <==>
            if |lower| >= 4 && lower[..4] == "sip." then exists base :: base in BASE_TAGS && EndsWith(lower, base)
            else lower in BASE_TAGS
  {
    var lower := MakeLower(tag);
    CStrWhole(tag);
    CStrMakeLower(tag);
    hide MakeLower, CStr;
    assert "sip." <= lower <==> |lower| >= 4 && lower[..4] == "sip.";
    if "+" <= lower {
      NoPlus(lower);
    }
    if i :| 0 <= i < |BASE_TAGS| && EndsWith(lower, BASE_TAGS[i]) {
      assert BASE_TAGS[i] in BASE_TAGS;
    }
  }

  lemma BooleanStarts(v: string)
    requires EqualsLiteral(v, "true") || EqualsLiteral(v, "false")
    ensures v != "" && v[0] in {'t', 'T', 'f', 'F'}
  {
    assert MakeLower(CStr(v))[0] == Lower(v[0]);
    assert "true"[0] == 't' && "false"[0] == 'f';
  }

  /** The kind of a value: TRUE and FALSE in any case, `<...>`, a number sign at the front, perhaps negated, or none
      of these. */
  lemma KindIs(value: AString)
    ensures
      var kind, v := KindOfValue(value), value.Bytes();
      var isBoolean := EqualsLiteral(v, "true") || EqualsLiteral(v, "false");
      var isString := |v| >= 2 && v[0] == '<' && v[|v| - 1] == '>';
      var isNumber := (|v| >= 1 && v[0] == '#') || (|v| >= 2 && v[0] == '!' && v[1] == '#');
      && (kind == Boolean <==> isBoolean)
      && (kind == StringValue <==> isString)
      && (kind == Numeric <==> isNumber)
      && (kind == TokenNoBang <==> !isBoolean && !isString && !isNumber)
  {
    hide MakeLower, CStr;
    var v := value.Bytes();
    if v != "" && (EqualsLiteral(v, "true") || EqualsLiteral(v, "false")) {
      BooleanStarts(v);
    }
  }

  /** The text before the first equals sign, or all of it. */
  function TagPart(text: string): string {
    if '=' in text then Trim(text[..IndexOf(text, '=')]) else Trim(text)
  }

  /** The text behind the first equals sign, without one pair of quotes. */
  function ValuePart(text: string): AString {
    if '=' in text then TrimDquot(TrimA(From(Text(text), IndexOf(text, '=') + 1))) else Null
  }

  lemma NullIsNotRaw()
    ensures !IsRaw(Null)
  {
  }

  lemma PlusIsNoMethods(tag: string)
    ensures EqualsLiteral(tag, IARI_REF) || EqualsLiteral(tag, ICSI_REF) ==> !EqualsLiteral(tag, "methods")
  {
    hide MakeLower, CStr;
    assert |IARI_REF| == |ICSI_REF| == 16 && |"methods"| == 7;
  }

  lemma BaseOrReference(tag: string)
    ensures IsBaseTag(Text(tag)) ==> !EqualsLiteral(tag, IARI_REF) && !EqualsLiteral(tag, ICSI_REF)
  {
    if EqualsLiteral(tag, IARI_REF) || EqualsLiteral(tag, ICSI_REF) {
      assert MakeLower(CStr(tag))[0] == '+';
      assert "+" <= MakeLower(tag);
    }
  }

  lemma ClassifyIs(tag: string, value: AString, kind: Kind, raw: bool)
    ensures
      var f := Classify(Text(tag), value, kind, raw);
      var isIari, isIcsi := EqualsLiteral(tag, IARI_REF), EqualsLiteral(tag, ICSI_REF);
      && f.tag == (if IsBaseTag(Text(tag)) && '.' in tag then From(Text(tag), IndexOf(tag, '.') + 1) else Text(tag))
      && f.kind == (if isIari then Iari else if isIcsi then Icsi else kind)
      && f.value == (if !isIari && !isIcsi then value else if value.Empty() then Null else Text(Decode(value.Bytes())))
      && (f.caseSensitive <==> raw || EqualsLiteral(f.tag.Bytes(), "methods"))
  {
    hide From, IsBaseTag, EqualsLiteral, Decode;
    BaseOrReference(tag);
    PlusIsNoMethods(tag);
  }

  /** A feature parsed from a text: a base tag loses what stands before its first dot; IARI and ICSI values are
      decoded; the kind is that of the reference, or of the value, or boolean without one; and comparing minds the
      case for `<...>` and for "methods". */
  lemma ParseIs(text: string)
    requires text != ""
    ensures
      var f, tag, value := Parse(Text(text)), TagPart(text), ValuePart(text);
      var isIari, isIcsi := EqualsLiteral(tag, "+g.3gpp.iari-ref"), EqualsLiteral(tag, "+g.3gpp.icsi-ref");
      && f.tag == (if IsBaseTag(Text(tag)) && '.' in tag then From(Text(tag), IndexOf(tag, '.') + 1) else Text(tag))
      && f.kind == (if isIari then Iari else if isIcsi then Icsi
                    else if '=' in text then KindOfValue(value) else Boolean)
      && f.value == (if !isIari && !isIcsi then value else if value.Empty() then Null else Text(Decode(value.Bytes())))
      && (f.caseSensitive <==> IsRaw(value) || EqualsLiteral(f.tag.Bytes(), "methods"))
  {
    hide Classify, KindOfValue, IsRaw, TrimDquot, Trim, From, IsBaseTag, EqualsLiteral, Decode;
    var tag, value := TagPart(text), ValuePart(text);
    NullIsNotRaw();
    ClassifyIs(tag, value, if '=' in text then KindOfValue(value) else Boolean, IsRaw(value));
  }

  // ---- comparison is an equivalence, up to two families ----------------------------------------

  /** A feature outside the two families on which comparing depends on the order of its arguments or on
      the path taken: IARI and ICSI features written with a raw `<...>` value, and booleans whose value
      holds a NUL byte.
   */
  predicate Regular(f: Feature) {
    && Parsed(f)
    && (f.IsReference() ==> !f.caseSensitive)
    && (f.kind == Boolean ==> '\0' !in f.value.Bytes())
  }

  /** What comparing sees of a text: whether it is null, how long it is, and its C string. */
  datatype Folded = Folded(isNull: bool, length: nat, text: string)

  function FoldCase(a: AString): Folded {
    Folded(a.Null?, |a.Bytes()|, MakeLower(CStr(a.Bytes())))
  }

  function Exact(a: AString): Folded {
    Folded(a.Null?, |a.Bytes()|, CStr(a.Bytes()))
  }

  /** The class of a feature under comparison. An absent boolean value stands for TRUE. */
  datatype Class = Class(kind: Kind, tag: Folded, value: Folded)

  function ClassOf(f: Feature): Class {
    Class(f.kind, FoldCase(f.tag),
          if f.kind == Boolean && f.value.Empty() then Folded(false, 4, if f.caseSensitive then "TRUE" else "true")
          else if f.caseSensitive then Exact(f.value)
          else FoldCase(f.value))
  }

  lemma BooleanIsClass(a: Feature, b: Feature)
    requires Regular(a) && Regular(b) && a.kind == b.kind == Boolean
    requires FoldCase(a.tag) == FoldCase(b.tag) && a.caseSensitive == b.caseSensitive
    ensures Equals(a, b) <==> ClassOf(a) == ClassOf(b)
  {
    var x, y := a.value.Bytes(), b.value.Bytes();
    CStrWhole(x);
    CStrWhole(y);
    hide CStr, MakeLower;
    assert |MakeLower(CStr(x))| == |x| && |MakeLower(CStr(y))| == |y|;
  }

  /** On regular features comparing is the kernel of ClassOf, hence an equivalence relation, although it
      reads the case flag of one side only. */
  lemma EqualsIsClass(a: Feature, b: Feature)
    requires Regular(a) && Regular(b)
    ensures Equals(a, b) <==> ClassOf(a) == ClassOf(b)
  {
    hide CStr, MakeLower;
    if a.kind == b.kind && FoldCase(a.tag) == FoldCase(b.tag) {
      assert a.caseSensitive == b.caseSensitive;
      CStrWhole(a.value.Bytes());
      CStrWhole(b.value.Bytes());
      if a.kind == Boolean {
        BooleanIsClass(a, b);
      }
    }
  }

  /** IARI or ICSI features of one tag, one of them raw, whose values differ in case only. */
  predicate OrderMatters(a: Feature, b: Feature) {
    && a.kind == b.kind && a.IsReference() && EqualIgnoreCase(a.tag, b.tag)
    && a.caseSensitive != b.caseSensitive
    && EqualIgnoreCase(a.value, b.value) && !Equal(a.value, b.value)
  }

  /** Exactly when the order of two parsed features matters. */
  lemma OrderMattersIff(a: Feature, b: Feature)
    requires Parsed(a) && Parsed(b)
    ensures Equals(a, b) != Equals(b, a) <==> OrderMatters(a, b)
  {
    hide CStr, MakeLower;
  }

  /** Exactly when two comparisons in a row do not compose, for all parsed features. */
  lemma TransitiveIff(a: Feature, b: Feature, c: Feature)
    requires Parsed(a) && Parsed(b) && Parsed(c)
    requires Equals(a, b) && Equals(b, c)
    ensures !Equals(a, c) <==>
            || (a.IsReference() && a.caseSensitive && !b.caseSensitive && !Equal(b.value, c.value))
            || (a.kind == Boolean && b.value.Empty() && !a.value.Empty() && !c.value.Empty()
                && |a.value.Bytes()| != |c.value.Bytes()|)
  {
    hide CStr, MakeLower;
  }

  // ---- on which features comparing is an equivalence ---------------------------------------------

  /** A value that reads TRUE as a C string, whatever follows its first NUL. */
  predicate SaysTrue(f: Feature) {
    && !f.value.Empty()
    && if f.caseSensitive then CStr(f.value.Bytes()) == "TRUE" else EqualsLiteral(f.value.Bytes(), "true")
  }

  /** Booleans of one tag: one without a value, and two TRUE values of different length around it. */
  predicate MeetAtAbsent(a: Feature, b: Feature, c: Feature) {
    && a.kind == b.kind == c.kind == Boolean
    && EqualIgnoreCase(a.tag, b.tag) && EqualIgnoreCase(b.tag, c.tag)
    && b.value.Empty() && SaysTrue(a) && SaysTrue(c)
    && |a.value.Bytes()| != |c.value.Bytes()|
  }

  ghost predicate AllParsed(fs: iset<Feature>) {
    forall f :: f in fs ==> Parsed(f)
  }

  /** Comparing is symmetric and transitive on these features; it is always reflexive. */
  ghost predicate IsEquivalence(fs: iset<Feature>) {
    && (forall a, b :: a in fs && b in fs && Equals(a, b) ==> Equals(b, a))
    && (forall a, b, c :: a in fs && b in fs && c in fs && Equals(a, b) && Equals(b, c) ==> Equals(a, c))
  }

  /** Two features clash by order, or three around an absent boolean. */
  ghost predicate Clashes(fs: iset<Feature>) {
    || (exists a, b :: a in fs && b in fs && OrderMatters(a, b))
    || (exists a, b, c :: a in fs && b in fs && c in fs && MeetAtAbsent(a, b, c))
  }

  lemma EqualsItself(f: Feature)
    ensures Equals(f, f)
  {
    hide CStr, MakeLower;
  }

  /** The features around an absent value equal it both ways, but not each other. */
  lemma MeetAtAbsentBreaks(a: Feature, b: Feature, c: Feature)
    requires Parsed(a) && Parsed(b) && Parsed(c) && MeetAtAbsent(a, b, c)
    ensures Equals(a, b) && Equals(b, a) && Equals(b, c) && Equals(c, b) && !Equals(a, c)
  {
    hide CStr, MakeLower;
  }

  /** A chain that breaks holds a clash: of two of its features, or of all three. */
  lemma BrokenChainClashes(a: Feature, b: Feature, c: Feature)
    requires Parsed(a) && Parsed(b) && Parsed(c)
    requires Equals(a, b) && Equals(b, c) && !Equals(a, c)
    ensures OrderMatters(a, c) || OrderMatters(b, c) || MeetAtAbsent(a, b, c)
  {
    hide CStr, MakeLower;
  }

  /** Comparing is an equivalence on a set of parsed features if and only if none of them clash. */
  lemma EquivalenceIff(fs: iset<Feature>)
    requires AllParsed(fs)
    ensures IsEquivalence(fs) <==> !Clashes(fs)
  {
    hide Equals, OrderMatters, MeetAtAbsent, Parsed;
    forall a, b | a in fs && b in fs
      ensures Equals(a, b) != Equals(b, a) <==> OrderMatters(a, b)
    {
      OrderMattersIff(a, b);
    }
    forall a, b, c | a in fs && b in fs && c in fs && Equals(a, b) && Equals(b, c) && !Equals(a, c)
      ensures Clashes(fs)
    {
      BrokenChainClashes(a, b, c);
    }
    forall a, b, c | a in fs && b in fs && c in fs && MeetAtAbsent(a, b, c)
      ensures !IsEquivalence(fs)
    {
      MeetAtAbsentBreaks(a, b, c);
    }
  }

  /** Regular features never clash. */
  lemma RegularNeverClash(fs: iset<Feature>)
    requires forall f :: f in fs ==> Regular(f)
    ensures !Clashes(fs)
  {
    hide Equals, ClassOf, OrderMatters, MeetAtAbsent;
    forall a, b | a in fs && b in fs
      ensures Equals(a, b) <==> ClassOf(a) == ClassOf(b)
    {
      EqualsIsClass(a, b);
    }
    EquivalenceIff(fs);
  }

  /** A raw IARI value and the same value encoded, in another case. */
  const RAW := Feature(Iari, true, Text(IARI_REF), Text("<A>"))
  const CODED := Feature(Iari, false, Text(IARI_REF), Text("<a>"))

  lemma RawValueBreaksSymmetry()
    ensures Parsed(RAW) && Parsed(CODED)
    ensures Equals(CODED, RAW) && !Equals(RAW, CODED)
  {
    assert CStr("<a>") == "<a>" && CStr("<A>") == "<A>";
    assert MakeLower("<a>") == "<a>" && MakeLower("<A>") == "<a>";
  }

  /** The raw value, the same value encoded, and one in another case: a chain that breaks. */
  const CODED_SAME := Feature(Iari, false, Text(IARI_REF), Text("<A>"))

  lemma RawValueBreaksChain()
    ensures Parsed(CODED_SAME)
    ensures Equals(RAW, CODED_SAME) && Equals(CODED_SAME, CODED) && !Equals(RAW, CODED)
  {
    assert CStr("<a>") == "<a>" && CStr("<A>") == "<A>";
    assert MakeLower("<a>") == "<a>" && MakeLower("<A>") == "<a>";
  }

  const TRUE_TEXT := "TRUE"
  const LONG_TRUE_TEXT := "TRUE\0y"

  /** The tag `x`, with the value TRUE, without a value, and with a TRUE that goes on behind a NUL. */
  const SAID := Feature(Boolean, false, Text("x"), Text(TRUE_TEXT))
  const UNSAID := Feature(Boolean, false, Text("x"), Null)
  const SAID_LONGER := Feature(Boolean, false, Text("x"), Text(LONG_TRUE_TEXT))

  lemma {:induction false} CStrCut(head: string, rest: string)
    requires '\0' !in head
    ensures CStr(head + "\0" + rest) == head
  {
    if head == "" {
      assert (head + "\0" + rest)[0] == '\0';
    } else {
      CStrCut(head[1..], rest);
      assert (head + "\0" + rest)[1..] == head[1..] + "\0" + rest;
    }
  }

  lemma TrueTexts()
    ensures EqualsLiteral(TRUE_TEXT, "true") && EqualsLiteral(LONG_TRUE_TEXT, "true")
  {
    var head := "TRUE";
    assert LONG_TRUE_TEXT == head + "\0y";
    assert CStr(head) == head;
    CStrCut(head, "y");
    assert MakeLower(head) == "true";
  }

  lemma NulBreaksChain()
    ensures Equals(SAID, UNSAID) && Equals(UNSAID, SAID_LONGER) && !Equals(SAID, SAID_LONGER)
  {
    hide CStr, MakeLower, EqualsLiteral;
    TrueTexts();
    EqualToItself(Text("x"));
  }

  lemma BaseTagLong(i: nat)
    requires i < |BASE_TAGS|
    ensures |BASE_TAGS[i]| > 1
  {
  }

  lemma XIsNoTag()
    ensures !IsBaseTag(Text("x"))
    ensures !EqualsLiteral("x", IARI_REF) && !EqualsLiteral("x", ICSI_REF) && !EqualsLiteral("x", "methods")
  {
    assert MakeLower("x") == "x" && CStr("x") == "x";
    forall i | 0 <= i < |BASE_TAGS| ensures BASE_TAGS[i] != "x" {
      BaseTagLong(i);
    }
  }

  /** A tag that is neither a base tag nor a reference is kept as it is. */
  lemma ParseX(value: string)
    requires value != "" && Trim(value) == value && value[0] != '"' && !IsRaw(Text(value))
    ensures Parse(Text("x")) == UNSAID
    ensures Parse(Text("x=" + value)) == Feature(KindOfValue(Text(value)), false, Text("x"), Text(value))
  {
    hide KindOfValue, IsRaw, Trim, IsBaseTag, EqualsLiteral, MakeLower, CStr;
    XIsNoTag();
    assert Trim("x") == "x";
    assert '=' !in "x";
    var text := "x=" + value;
    assert text[1] == '=' && text[..1] == "x" && text[2..] == value;
    IndexOfIs(text, '=', 1);
  }

  /** The three booleans come from parsing `x=TRUE`, `x` and `x=TRUE` with a NUL and more behind it. */
  lemma BooleansParse()
    ensures Parse(Text("x=" + TRUE_TEXT)) == SAID
    ensures Parse(Text("x")) == UNSAID
    ensures Parse(Text("x=" + LONG_TRUE_TEXT)) == SAID_LONGER
  {
    hide Parse, EqualsLiteral, CStr, MakeLower;
    TrueTexts();
    ParseX(TRUE_TEXT);
    ParseX(LONG_TRUE_TEXT);
  }
}
