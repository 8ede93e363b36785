/** Printing a single feature and parsing the text again: exactly when nothing is lost. */
module FeatureReparse {
  import opened AStrings
  import opened Features

  /** A tag that parsing leaves as it is: a trimmed text, no dot in front of a base tag, not IARI or ICSI. */
  predicate IsStable(tag: AString) {
    && tag.Text? && Trim(tag.bytes) == tag.bytes
    && (IsBaseTag(tag) ==> '.' !in tag.Bytes())
    && !EqualsLiteral(tag.Bytes(), IARI_REF) && !EqualsLiteral(tag.Bytes(), ICSI_REF)
  }

  /** A feature with a value that is neither a boolean nor a reference. */
  predicate HasPlainValue(f: Feature) {
    f.kind != NoKind && f.kind != Boolean && !f.IsReference() && !f.value.Empty()
  }

  /** What parsing says of a feature with a plain value: a tag without an equals sign, and kind and
      case flag as the value and the final tag give them. */
  predicate PlainShape(f: Feature) {
    && '=' !in f.tag.Bytes() && f.value.Text?
    && f.kind == KindOfValue(f.value)
    && f.caseSensitive == (IsRaw(f.value) || EqualsLiteral(f.tag.Bytes(), "methods"))
  }

  lemma ClassifyPlain(tag: string, value: AString)
    requires '=' !in tag && value.Text? && value.bytes != ""
    ensures var f := Classify(Text(tag), value, KindOfValue(value), IsRaw(value));
            HasPlainValue(f) ==> PlainShape(f) && f.value == value
  {
    hide IsBaseTag, EqualsLiteral, KindOfValue, IsRaw, DecodeValue;
  }

  lemma BareIsNoPlain(tag: AString)
    ensures !HasPlainValue(Classify(tag, Null, Boolean, false))
  {
    hide IsBaseTag, EqualsLiteral;
  }

  lemma EmptyIsNoPlain(tag: AString, value: AString)
    requires value.Empty()
    ensures !HasPlainValue(Classify(tag, value, KindOfValue(value), IsRaw(value)))
  {
    hide IsBaseTag, EqualsLiteral, KindOfValue;
  }

  lemma ParsePlain(text: AString)
    requires HasPlainValue(Parse(text))
    ensures PlainShape(Parse(text))
  {
    hide Classify, KindOfValue, IsRaw, TrimDquot, Trim, EqualsLiteral, PlainShape, IsBaseTag;
    var k := IndexOf(text.bytes, '=');
    if k < 0 {
      BareIsNoPlain(TrimA(text));
    } else {
      var value := TrimDquot(TrimA(From(text, k + 1)));
      var tag := Trim(text.bytes[..k]);
      assert '=' !in tag;
      if value.Empty() {
        EmptyIsNoPlain(Text(tag), value);
      } else {
        ClassifyPlain(tag, value);
      }
    }
  }

  lemma QuotedParts(tag: string, value: string)
    requires '=' !in tag
    ensures
      var text := tag + "=" + "\"" + value + "\"";
      && IndexOf(text, '=') == |tag|
      && UpTo(Text(text), |tag|) == Text(tag)
      && TrimDquot(TrimA(From(Text(text), |tag| + 1))) == Text(value)
  {
    var quoted := "\"" + value + "\"";
    var text := tag + "=" + quoted;
    assert tag + "=" + "\"" + value + "\"" == text;
    assert text[..|tag|] == tag && text[|tag| + 1..] == quoted;
    IndexOfIs(text, '=', |tag|);
    assert Trim(quoted) == quoted;
    assert quoted[1..|quoted| - 1] == value;
  }

  /** The printed text of such a feature is classified again from the trimmed tag and the same value. */
  lemma ParsePrinted(f: Feature)
    requires PlainShape(f) && HasPlainValue(f) && IsBytes(f.value.bytes)
    ensures Parse(ToString(f)) == Classify(Text(Trim(f.tag.Bytes())), f.value, KindOfValue(f.value), IsRaw(f.value))
  {
    hide Classify, KindOfValue, IsRaw, Trim, EqualsLiteral, IndexOf, TrimDquot, From, UpTo;
    QuotedParts(f.tag.Bytes(), f.value.bytes);
  }

  lemma TrimShrinks(s: string)
    ensures |Trim(s)| < |s| || Trim(s) == s
  {
  }

  lemma StableIff(f: Feature)
    requires PlainShape(f) && HasPlainValue(f)
    ensures Classify(Text(Trim(f.tag.Bytes())), f.value, KindOfValue(f.value), IsRaw(f.value)) == f <==> IsStable(f.tag)
  {
    hide KindOfValue, IsRaw, Trim, EqualsLiteral, IsBaseTag, DecodeValue;
    TrimShrinks(f.tag.Bytes());
    BaseOrReference(Trim(f.tag.Bytes()));
  }

  lemma ShapeIsText(f: Feature)
    requires PlainShape(f)
    ensures f.value.Text?
  {
  }

  /** Printing a parsed feature with a plain value and parsing the text again restores it if and only if
      its tag is stable; a tag that kept a dot in front of a base tag loses another prefix. */
  lemma ReparseIff(text: AString)
    requires HasPlainValue(Parse(text)) && IsBytes(Parse(text).value.Bytes())
    ensures Parse(ToString(Parse(text))) == Parse(text) <==> IsStable(Parse(text).tag)
  {
    hide Parse, ToString, Classify, IsStable, PlainShape, KindOfValue, IsRaw;
    var f := Parse(text);
    ParsePlain(text);
    assert f.value.Text? by { ShapeIsText(f); }
    ParsePrinted(f);
    StableIff(f);
  }

  // ---- booleans ----------------------------------------------------------------------------------

  lemma TagIsText(tag: AString)
    requires IsStable(tag)
    ensures tag.Text? && tag == Text(tag.Bytes())
  {
  }

  lemma BareTag(tag: string)
    requires tag != "" && '=' !in tag && IsStable(Text(tag))
    ensures Parse(Text(tag)) == Feature(Boolean, EqualsLiteral(tag, "methods"), Text(tag), Null)
  {
    hide Trim, EqualsLiteral, IsBaseTag, DecodeValue;
  }

  lemma BooleanFlag(text: AString)
    requires Parse(text).kind == Boolean
    ensures Parse(text).caseSensitive <==> EqualsLiteral(Parse(text).tag.Bytes(), "methods")
  {
    hide Parse, EqualsLiteral;
    ParseTextParsed(text);
  }

  /** A boolean feature prints as its tag alone. Parsing that gives an equal feature if and only if the value was
      absent or TRUE; a FALSE is lost. */
  lemma BooleanReparseIff(text: AString)
    requires var f := Parse(text);
             f.kind == Boolean && IsStable(f.tag) && f.tag.Bytes() != "" && '=' !in f.tag.Bytes()
             && IsBytes(f.value.Bytes())
    ensures var f := Parse(text);
            Equals(Parse(ToString(f)), f) <==> f.value.Empty() || SaysTrue(f)
  {
    hide Parse, IsStable, CStr, MakeLower;
    var f := Parse(text);
    TagIsText(f.tag);
    BareTag(f.tag.Bytes());
    BooleanFlag(text);
    EqualToItself(f.tag);
  }

  /** A base tag under two prefixes: parsing takes one off, and parsing what was printed the other. */
  const NO_PREFIX := "audio"

  const ONE_PREFIX := "sip." + NO_PREFIX
  const TWO_PREFIXES := "sip." + ONE_PREFIX

  /** Small letters and dots only, and "audio" at the end. */
  predicate AudioTag(tag: string) {
    && (forall i :: 0 <= i < |tag| ==> 'a' <= tag[i] <= 'z' || tag[i] == '.')
    && EndsWith(tag, NO_PREFIX)
  }

  lemma PrefixStrips(rest: string)
    requires AudioTag(rest)
    ensures var tag := "sip." + rest;
            AudioTag(tag) && IsBaseTag(Text(tag)) && StripPrefix(Text(tag)) == Text(rest)
  {
    hide MakeLower, CStr;
    var tag := "sip." + rest;
    assert tag[..4] == "sip." && tag[4..] == rest;
    assert tag[|tag| - 5..] == rest[|rest| - 5..];
    LowerFixed(tag);
    assert BASE_TAGS[0] == NO_PREFIX;
    assert '.' !in tag[..3] && tag[3] == '.';
    IndexOfIs(tag, '.', 3);
  }

  lemma BareAudioTag()
    ensures AudioTag(NO_PREFIX) && |NO_PREFIX| == 5
  {
  }

  lemma AudioTagFacts(tag: string)
    requires AudioTag(tag) && |tag| != 7
    ensures Trim(tag) == tag && '=' !in tag && !EqualsLiteral(tag, "methods")
  {
    hide MakeLower, CStr;
    LowerFixed(tag);
    assert |"methods"| == 7;
  }

  lemma PlainX()
    ensures KindOfValue(Text("x")) == TokenNoBang && !IsRaw(Text("x")) && Trim("x") == "x"
  {
    assert MakeLower(CStr("x")) == "x";
  }

  /** Printing and parsing such a feature gives another one. */
  lemma PrefixIsLost()
    ensures var f := Parse(Text(TWO_PREFIXES + "=" + "x"));
            && f == Feature(TokenNoBang, false, Text(ONE_PREFIX), Text("x"))
            && IsBytes(f.value.bytes)
            && Parse(ToString(f)) == Feature(TokenNoBang, false, Text(NO_PREFIX), Text("x"))
  {
    hide IsBaseTag, StripPrefix, KindOfValue, IsRaw, EqualsLiteral, Trim;
    hide AudioTag;
    BareAudioTag();
    PrefixStrips(NO_PREFIX);
    PrefixStrips(ONE_PREFIX);
    AudioTagFacts(NO_PREFIX);
    AudioTagFacts(ONE_PREFIX);
    AudioTagFacts(TWO_PREFIXES);
    PlainX();
    var text := TWO_PREFIXES + "=" + "x";
    var n := |TWO_PREFIXES|;
    assert text[..n] == TWO_PREFIXES && text[n + 1..] == "x";
    IndexOfIs(text, '=', n);
    ParsePrinted(Feature(TokenNoBang, false, Text(ONE_PREFIX), Text("x")));
  }
}
