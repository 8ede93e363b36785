/** Registry properties: their keys, the white-space token lists inside them, and the first check of a
    registry. Follows ImsProperty.cpp.
 */
module ImsProperties {
  import opened AStrings

  type Property = seq<AString>
  type Registry = seq<Property>

  // ---- keys -----------------------------------------------------------------------------------

  const CUSTOM := 0
  const STREAM := 1
  const FRAMED := 2
  const BASIC := 3
  const EVENT := 4
  const CORE_SERVICE := 5
  const QOS := 6
  const REG := 7
  const WRITE := 8
  const READ := 9
  const CAP := 10
  const MPROF := 11
  const CONNECTION := 12
  const KEY_MAX := 13

  function KeyName(key: nat): string
    requires key < KEY_MAX
  {
    match key
    case 0 => ""
    case 1 => "Stream"
    case 2 => "Framed"
    case 3 => "Basic"
    case 4 => "Event"
    case 5 => "CoreService"
    case 6 => "Qos"
    case 7 => "Reg"
    case 8 => "Write"
    case 9 => "Read"
    case 10 => "Cap"
    case 11 => "Mprof"
    case 12 => "Connection"
  }

  predicate IsKey(text: AString, key: nat)
    requires key < KEY_MAX
  {
    CStr(text.Bytes()) == KeyName(key)
  }

  /** The first key from `first` on that the text spells, CUSTOM if none. */
  function KeyFrom(text: AString, first: nat): (key: nat)
    requires 1 <= first <= KEY_MAX
    ensures key < KEY_MAX
    ensures key == CUSTOM <==> forall i :: first <= i < KEY_MAX ==> !IsKey(text, i)
    ensures key != CUSTOM ==> first <= key && IsKey(text, key)
    decreases KEY_MAX - first
  {
    if first == KEY_MAX then CUSTOM else if IsKey(text, first) then first else KeyFrom(text, first + 1)
  }

  /** The key of an empty text is none of the others, not even CUSTOM. */
  function KeyOf(text: AString): (key: nat)
    ensures key <= KEY_MAX
  {
    if text.Empty() then KEY_MAX else KeyFrom(text, 1)
  }

  method StringToKey(text: AString) returns (key: nat)
    ensures key == KeyOf(text)
  {
    hide KeyName, CStr;
    if text.Empty() {
      return KEY_MAX;
    }
    var i := 1;
    while i < KEY_MAX
      invariant 1 <= i <= KEY_MAX
      invariant KeyFrom(text, 1) == KeyFrom(text, i)
    {
      if IsKey(text, i) {
        return i;
      }
      i := i + 1;
    }
    key := CUSTOM;
  }

  /** Key names are told apart by their length and first letter. */
  function Signature(key: nat): (int, char)
    requires 1 <= key < KEY_MAX
  {
    (|KeyName(key)|, if KeyName(key) == "" then ' ' else KeyName(key)[0])
  }

  lemma NoNul(key: nat)
    requires 1 <= key < KEY_MAX
    ensures '\0' !in KeyName(key)
  {
  }

  lemma NameIsText(key: nat)
    requires 1 <= key < KEY_MAX
    ensures CStr(KeyName(key)) == KeyName(key)
  {
    hide KeyName;
    NoNul(key);
    CStrWhole(KeyName(key));
  }

  lemma SignatureIs(key: nat)
    requires 1 <= key < KEY_MAX
    ensures Signature(key) ==
            (match key
             case 1 => (6, 'S') case 2 => (6, 'F') case 3 => (5, 'B') case 4 => (5, 'E')
             case 5 => (11, 'C') case 6 => (3, 'Q') case 7 => (3, 'R') case 8 => (5, 'W')
             case 9 => (4, 'R') case 10 => (3, 'C') case 11 => (5, 'M') case _ => (10, 'C'))
    ensures CStr(KeyName(key)) == KeyName(key)
  {
    hide CStr, MakeLower;
    NameIsText(key);
  }

  lemma {:induction false} SameKeyFrom(a: AString, b: AString, first: nat)
    requires Equal(a, b) && 1 <= first <= KEY_MAX
    ensures KeyFrom(a, first) == KeyFrom(b, first)
    decreases KEY_MAX - first
  {
    hide KeyName, CStr;
    if first < KEY_MAX {
      SameKeyFrom(a, b, first + 1);
    }
  }

  lemma EqualKeys(a: AString, b: AString)
    requires Equal(a, b)
    ensures KeyOf(a) == KeyOf(b)
  {
    SameKeyFrom(a, b, 1);
  }

  /** Every key is the key of its own name. */
  lemma KeyOfName(key: nat)
    requires 1 <= key < KEY_MAX
    ensures KeyOf(Text(KeyName(key))) == key
  {
    hide KeyName, CStr;
    var text := Text(KeyName(key));
    SignatureIs(key);
    var found := KeyFrom(text, 1);
    assert IsKey(text, key);
    SignatureIs(found);
  }

  lemma KeyIff(text: AString, key: nat)
    requires 1 <= key < KEY_MAX
    ensures KeyOf(text) == key <==> CStr(text.Bytes()) == KeyName(key)
  {
    hide KeyName, CStr;
    SignatureIs(key);
    if CStr(text.Bytes()) == KeyName(key) {
      var found := KeyFrom(text, 1);
      assert IsKey(text, key);
      SignatureIs(found);
      CStrCuts(text.Bytes());
    }
  }

  lemma KeyNames()
    ensures KeyName(1) == "Stream" && KeyName(2) == "Framed" && KeyName(3) == "Basic" && KeyName(4) == "Event"
    ensures KeyName(5) == "CoreService" && KeyName(6) == "Qos" && KeyName(7) == "Reg" && KeyName(8) == "Write"
    ensures KeyName(9) == "Read" && KeyName(10) == "Cap" && KeyName(11) == "Mprof" && KeyName(12) == "Connection"
  {
  }

  lemma EmptyKey(text: AString)
    ensures KeyOf(text) == KEY_MAX <==> text.Empty()
  {
  }

  /** The keys by their names, which are compared byte by byte up to a NUL. */
  lemma KeysSpelled(text: AString)
    ensures var name := CStr(text.Bytes());
            && (KeyOf(text) == STREAM <==> name == "Stream") && (KeyOf(text) == FRAMED <==> name == "Framed")
            && (KeyOf(text) == BASIC <==> name == "Basic") && (KeyOf(text) == EVENT <==> name == "Event")
            && (KeyOf(text) == CORE_SERVICE <==> name == "CoreService") && (KeyOf(text) == QOS <==> name == "Qos")
            && (KeyOf(text) == REG <==> name == "Reg") && (KeyOf(text) == WRITE <==> name == "Write")
            && (KeyOf(text) == READ <==> name == "Read") && (KeyOf(text) == CAP <==> name == "Cap")
            && (KeyOf(text) == MPROF <==> name == "Mprof")
            && (KeyOf(text) == CONNECTION <==> name == "Connection")
            && (KeyOf(text) == KEY_MAX <==> text.Empty())
  {
    hide CStr, KeyName, KeyOf;
    forall key | 1 <= key < KEY_MAX ensures KeyOf(text) == key <==> CStr(text.Bytes()) == KeyName(key) {
      KeyIff(text, key);
    }
    KeyNames();
    EmptyKey(text);
  }

  // ---- token lists ----------------------------------------------------------------------------

  /** How many bytes at the front are not white space. */
  function WordLength(s: string): (n: nat)
    ensures n <= |s|
    ensures forall i :: 0 <= i < n ==> !IsSpace(s[i])
    ensures n < |s| ==> IsSpace(s[n])
  {
    if s == "" || IsSpace(s[0]) then 0 else 1 + WordLength(s[1..])
  }

  /** The runs of bytes between white space. */
  function Words(s: string): seq<string>
    decreases |s|
  {
    if s == "" then []
    else if IsSpace(s[0]) then Words(s[1..])
    else [s[..WordLength(s)]] + Words(s[WordLength(s)..])
  }

  predicate IsWord(w: string) {
    w != "" && forall i :: 0 <= i < |w| ==> !IsSpace(w[i])
  }

  predicate NoSpace(s: string) {
    forall i :: 0 <= i < |s| ==> !IsSpace(s[i])
  }

  lemma {:induction false} WordLengthIs(word: string, rest: string)
    requires NoSpace(word) && (rest == "" || IsSpace(rest[0]))
    ensures WordLength(word + rest) == |word|
  {
    if word == "" {
      assert word + rest == rest;
    } else {
      WordLengthIs(word[1..], rest);
      assert (word + rest)[1..] == word[1..] + rest;
    }
  }

  /** A run of bytes that white space or the end cuts off is one token. */
  lemma FirstWord(word: string, rest: string)
    requires IsWord(word) && (rest == "" || IsSpace(rest[0]))
    ensures Words(word + rest) == [word] + Words(rest)
  {
    WordLengthIs(word, rest);
    assert (word + rest)[..|word|] == word && (word + rest)[|word|..] == rest;
  }

  lemma SkipSpace(rest: string)
    requires rest != "" && IsSpace(rest[0])
    ensures Words(rest) == Words(rest[1..])
  {
  }

  lemma EndOfWords(current: string)
    requires NoSpace(current)
    ensures Words(current) == if current == "" then [] else [current]
  {
    if current != "" {
      assert current + "" == current;
      FirstWord(current, "");
    }
  }

  method Decode(value: AString) returns (tokens: seq<string>)
    ensures tokens == Words(value.Bytes())
  {
    hide Words;
    var s := value.Bytes();
    tokens := [];
    var current := "";
    assert current + s[0..] == s;
    var i := 0;
    while i < |s|
      invariant 0 <= i <= |s|
      invariant NoSpace(current)
      invariant Words(s) == tokens + Words(current + s[i..])
    {
      var rest := s[i..];
      if IsSpace(s[i]) {
        if |current| > 0 {
          FirstWord(current, rest);
          tokens := tokens + [current];
          current := "";
        }
        assert current + rest == rest;
        SkipSpace(rest);
        assert rest[1..] == s[i + 1..] && "" + s[i + 1..] == s[i + 1..];
      } else {
        assert current + rest == (current + [s[i]]) + s[i + 1..];
        current := current + [s[i]];
      }
      i := i + 1;
    }
    assert current + s[i..] == current;
    EndOfWords(current);
    if |current| > 0 {
      tokens := tokens + [current];
    }
  }

  /** The tokens with a space between them. */
  function Joined(tokens: seq<string>): string {
    if tokens == [] then "" else if |tokens| == 1 then tokens[0] else tokens[0] + " " + Joined(tokens[1..])
  }

  lemma {:induction false} JoinedSnoc(tokens: seq<string>, last: string)
    requires tokens != []
    ensures Joined(tokens + [last]) == Joined(tokens) + " " + last
  {
    if |tokens| > 1 {
      JoinedSnoc(tokens[1..], last);
      assert (tokens + [last])[1..] == tokens[1..] + [last];
    }
  }

  method Encode(tokens: seq<string>) returns (value: string)
    ensures value == Joined(tokens)
  {
    if tokens == [] {
      return "";
    }
    value := tokens[0];
    assert tokens[..1] == [tokens[0]];
    var i := 1;
    while i < |tokens|
      invariant 1 <= i <= |tokens|
      invariant value == Joined(tokens[..i])
    {
      JoinedSnoc(tokens[..i], tokens[i]);
      assert tokens[..i + 1] == tokens[..i] + [tokens[i]];
      value := value + " ";
      value := value + tokens[i];
      i := i + 1;
    }
    assert tokens[..i] == tokens;
  }

  predicate AllWords(tokens: seq<string>) {
    forall i :: 0 <= i < |tokens| ==> IsWord(tokens[i])
  }

  /** Encoding tokens and decoding the text gives the tokens back. */
  lemma {:induction false} DecodeEncode(tokens: seq<string>)
    requires AllWords(tokens)
    ensures Words(Joined(tokens)) == tokens
  {
    if |tokens| == 1 {
      EndOfWords(tokens[0]);
    } else if |tokens| > 1 {
      var rest := " " + Joined(tokens[1..]);
      DecodeEncode(tokens[1..]);
      assert Joined(tokens) == tokens[0] + rest && rest[1..] == Joined(tokens[1..]);
      FirstWord(tokens[0], rest);
      SkipSpace(rest);
    }
  }

  function Concat(tokens: seq<string>): string {
    if tokens == [] then "" else tokens[0] + Concat(tokens[1..])
  }

  function WithoutSpace(s: string): string {
    if s == "" then "" else (if IsSpace(s[0]) then "" else [s[0]]) + WithoutSpace(s[1..])
  }

  lemma {:induction false} WithoutSpacePrefix(word: string, rest: string)
    requires NoSpace(word)
    ensures WithoutSpace(word + rest) == word + WithoutSpace(rest)
  {
    if word == "" {
      assert word + rest == rest;
    } else {
      WithoutSpacePrefix(word[1..], rest);
      assert (word + rest)[1..] == word[1..] + rest;
    }
  }

  /** Decoding yields words only, and drops nothing but white space. */
  lemma {:induction false} WordsShape(s: string)
    ensures AllWords(Words(s)) && Concat(Words(s)) == WithoutSpace(s)
    decreases |s|
  {
    if s != "" {
      if IsSpace(s[0]) {
        WordsShape(s[1..]);
      } else {
        var n := WordLength(s);
        WordsShape(s[n..]);
        assert s == s[..n] + s[n..];
        WithoutSpacePrefix(s[..n], s[n..]);
      }
    }
  }

  /** Encoding what was decoded only evens out white space. */
  lemma DecodeEncodeDecode(s: string)
    ensures Words(Joined(Words(s))) == Words(s)
  {
    WordsShape(s);
    DecodeEncode(Words(s));
  }

  // ---- duplicates -----------------------------------------------------------------------------

  predicate Alike(a: string, b: string, caseSensitive: bool) {
    if caseSensitive then Same(a, b) else SameIgnoreCase(a, b)
  }

  predicate NoDuplicate(values: seq<string>, caseSensitive: bool) {
    forall i, j :: 0 <= i < j < |values| ==> !Alike(values[i], values[j], caseSensitive)
  }

  predicate SameLetters(a: string, b: string) {
    |a| == |b| && forall i :: 0 <= i < |a| ==> Lower(a[i]) == Lower(b[i])
  }

  lemma LettersIff(a: string, b: string)
    requires '\0' !in a && '\0' !in b
    ensures Same(a, b) <==> a == b
    ensures SameIgnoreCase(a, b) <==> SameLetters(a, b)
  {
    hide Same, SameIgnoreCase;
    SameIff(a, b);
  }

  /** Of words without NUL a list is free of duplicates exactly if they are pairwise different; where case does not
      count, in length or in some letter apart from its case. */
  lemma NoDuplicateIff(values: seq<string>)
    requires forall i :: 0 <= i < |values| ==> '\0' !in values[i]
    ensures NoDuplicate(values, true) <==> forall i, j :: 0 <= i < j < |values| ==> values[i] != values[j]
    ensures NoDuplicate(values, false) <==> forall i, j :: 0 <= i < j < |values| ==> !SameLetters(values[i], values[j])
  {
    hide Same, SameIgnoreCase, SameLetters;
    forall i, j | 0 <= i < |values| && 0 <= j < |values|
      ensures Same(values[i], values[j]) <==> values[i] == values[j]
      ensures SameIgnoreCase(values[i], values[j]) <==> SameLetters(values[i], values[j])
    {
      LettersIff(values[i], values[j]);
    }
  }

  method CheckDuplicate(values: seq<string>, caseSensitive: bool) returns (ok: bool)
    ensures ok == NoDuplicate(values, caseSensitive)
  {
    hide Alike;
    var i := 0;
    while i < |values|
      invariant 0 <= i <= |values|
      invariant forall a, b :: 0 <= a < i && a < b < |values| ==> !Alike(values[a], values[b], caseSensitive)
    {
      var j := i + 1;
      while j < |values|
        invariant i < j <= |values|
        invariant forall b :: i < b < j ==> !Alike(values[i], values[b], caseSensitive)
      {
        if Alike(values[i], values[j], caseSensitive) {
          return false;
        }
        j := j + 1;
      }
      i := i + 1;
    }
    ok := true;
  }

  // ---- the first check of a registry ----------------------------------------------------------

  /** Keys that a registry may hold more than once. */
  predicate Repeatable(key: nat) {
    key == CORE_SERVICE || key == QOS || key == REG || key == CAP || key == MPROF || key == CONNECTION
  }

  predicate ContainsKey(keys: seq<AString>, key: AString) {
    exists i :: 0 <= i < |keys| && Equal(keys[i], key)
  }

  /** An entry fits behind others: it has a known key, and a new one unless the key may repeat. */
  predicate Fits(p: Property, before: Registry) {
    && |p| >= 1
    && KeyOf(p[0]) != CUSTOM
    && (Repeatable(KeyOf(p[0])) ||
        forall i :: 0 <= i < |before| && |before[i]| >= 1 ==> !Equal(before[i][0], p[0]))
  }

  predicate AllFit(r: Registry) {
    forall i :: 0 <= i < |r| ==> Fits(r[i], r[..i])
  }

  /** Everything but the key is trimmed. */
  function Trimmed(p: Property): (q: Property)
    requires |p| >= 1
    ensures |q| == |p| && q[0] == p[0]
  {
    [p[0]] + seq(|p| - 1, i requires 0 <= i < |p| - 1 => TrimA(p[i + 1]))
  }

  function TrimmedAll(r: Registry): (t: Registry)
    requires forall i :: 0 <= i < |r| ==> |r[i]| >= 1
    ensures |t| == |r| && forall i :: 0 <= i < |r| ==> t[i] == Trimmed(r[i])
  {
    seq(|r|, i requires 0 <= i < |r| => Trimmed(r[i]))
  }

  predicate SpellsRepeatable(text: AString) {
    CStr(text.Bytes()) in {"CoreService", "Qos", "Reg", "Cap", "Mprof", "Connection"}
  }

  predicate SpellsSingle(text: AString) {
    CStr(text.Bytes()) in {"Stream", "Framed", "Basic", "Event", "Write", "Read"}
  }

  /** Does the entry repeat the key of one before it? */
  predicate Repeats(r: Registry, i: nat)
    requires i < |r|
  {
    |r[i]| >= 1 && exists j :: 0 <= j < i && |r[j]| >= 1 && Equal(r[j][0], r[i][0])
  }

  lemma SpelledKeys(text: AString)
    ensures KeyOf(text) != CUSTOM <==> text.Empty() || SpellsRepeatable(text) || SpellsSingle(text)
    ensures Repeatable(KeyOf(text)) <==> SpellsRepeatable(text)
  {
    hide KeyOf, CStr;
    KeysSpelled(text);
    assert 0 <= KeyOf(text) <= KEY_MAX;
  }

  /** The first check of a registry accepts it exactly if every entry has a first element that is empty or spells one
      of the twelve keys, and none but the six that may repeat comes twice. */
  lemma AllFitIff(r: Registry)
    ensures AllFit(r) <==>
            forall i :: 0 <= i < |r| ==>
              && |r[i]| >= 1
              && (r[i][0].Empty() || SpellsRepeatable(r[i][0]) || SpellsSingle(r[i][0]))
              && (SpellsRepeatable(r[i][0]) || !Repeats(r, i))
  {
    hide KeyOf, Equal, SpellsRepeatable, SpellsSingle, Repeatable;
    forall i | 0 <= i < |r| && |r[i]| >= 1
      ensures Fits(r[i], r[..i]) <==>
              && (r[i][0].Empty() || SpellsRepeatable(r[i][0]) || SpellsSingle(r[i][0]))
              && (SpellsRepeatable(r[i][0]) || !Repeats(r, i))
    {
      SpelledKeys(r[i][0]);
      assert forall j :: 0 <= j < i ==> r[..i][j] == r[j];
    }
  }

  /** Trimming a registry keeps the keys, and cuts white bytes off both ends of everything else; null stays null. */
  lemma TrimmedIs(p: Property, i: nat) returns (a: nat, b: nat)
    requires i < |p|
    ensures i == 0 ==> Trimmed(p)[i] == p[i]
    ensures i > 0 ==> Trimmed(p)[i].Null? == p[i].Null?
                      && CutAt(p[i].Bytes(), Trimmed(p)[i].Bytes(), a, b)
                      && var t := Trimmed(p)[i].Bytes();
                         t != "" ==> !IsWhite(t[0]) && !IsWhite(t[|t| - 1])
  {
    hide Trim;
    a, b := TrimCuts(p[i].Bytes());
    assert Trim("") == "";
  }

  lemma KeysContain(r: Registry, keys: seq<AString>, key: AString)
    requires |keys| == |r| && forall i :: 0 <= i < |r| ==> |r[i]| >= 1 && r[i][0] == keys[i]
    ensures ContainsKey(keys, key) <==> exists i :: 0 <= i < |r| && |r[i]| >= 1 && Equal(r[i][0], key)
  {
    hide Equal;
    if ContainsKey(keys, key) {
      var i :| 0 <= i < |keys| && Equal(keys[i], key);
      assert |r[i]| >= 1 && Equal(r[i][0], key);
    }
    if i :| 0 <= i < |r| && |r[i]| >= 1 && Equal(r[i][0], key) {
      assert Equal(keys[i], key);
    }
  }

  method TrimProperty(p: Property) returns (q: Property)
    requires |p| >= 1
    ensures q == Trimmed(p)
  {
    q := [];
    var j := 0;
    while j < |p|
      invariant 0 <= j <= |p| && q == Trimmed(p)[..j]
    {
      if j != 0 {
        q := q + [TrimA(p[j])];
      } else {
        q := q + [p[j]];
      }
      j := j + 1;
    }
  }

  lemma FitsNext(r: Registry, i: nat)
    requires i < |r| && AllFit(r[..i]) && Fits(r[i], r[..i])
    ensures AllFit(r[..i + 1])
    ensures TrimmedAll(r[..i + 1]) == TrimmedAll(r[..i]) + [Trimmed(r[i])]
  {
    hide Fits, Trimmed;
    var next := r[..i + 1];
    forall k | 0 <= k < |next|
      ensures Fits(next[k], next[..k])
    {
      assert next[..k] == r[..i][..k] == r[..k];
      if k < i {
        assert next[k] == r[..i][k];
      }
    }
  }

  /** TrimAndCheckProperties: accepts exactly the registries whose entries fit one behind the other, and
      trims them. On a refusal the entries before the first misfit are out already. */
  method TrimAndCheckProperties(r: Registry, before: Registry) returns (ok: bool, after: Registry)
    ensures ok == AllFit(r)
    ensures ok ==> after == before + TrimmedAll(r)
    ensures !ok ==> exists n: nat ::
              && n < |r| && AllFit(r[..n]) && !Fits(r[n], r[..n]) && after == before + TrimmedAll(r[..n])
  {
    hide KeyOf, Equal, ContainsKey, Repeatable, Trimmed;
    var keys: seq<AString> := [];
    after := before;
    var i := 0;
    while i < |r|
      invariant 0 <= i <= |r| && |keys| == i
      invariant forall k :: 0 <= k < i ==> |r[k]| >= 1 && r[k][0] == keys[k]
      invariant AllFit(r[..i]) && after == before + TrimmedAll(r[..i])
    {
      var p := r[i];
      if |p| < 1 {
        assert !Fits(p, r[..i]);
        return false, after;
      }
      var key := StringToKey(p[0]);
      if key == CUSTOM {
        assert !Fits(p, r[..i]);
        return false, after;
      }
      KeysContain(r[..i], keys, p[0]);
      if !Repeatable(key) && ContainsKey(keys, p[0]) {
        assert !Fits(p, r[..i]);
        return false, after;
      }
      FitsNext(r, i);
      keys := keys + [p[0]];
      var q := TrimProperty(p);
      after := after + [q];
      i := i + 1;
    }
    assert r[..i] == r;
    ok := true;
  }
}
