/** The part of the repository's byte-string class that the configuration code relies on.

    A string of the repository is either null or a (possibly empty) run of bytes. A byte is a
    `char` below 256. Searching works on the whole run, comparing stops at the first NUL byte.
 */
module AStrings {

  datatype Option<+T> = None | Some(value: T)

  /** True of a run of bytes, the only texts the repository's string class can hold. */
  predicate IsBytes(s: string) {
    forall i :: 0 <= i < |s| ==> s[i] as int < 256
  }

  predicate IsSpace(c: char) {
    c == '\n' || c == '\t' || c == '\U{0B}' || c == ' ' || c == '\r' || c == '\U{0C}'
  }

  predicate IsDigit(c: char) {
    '0' <= c <= '9'
  }

  predicate IsAlpha(c: char) {
    'A' <= c <= 'Z' || 'a' <= c <= 'z'
  }

  function Lower(c: char): char {
    if 'A' <= c <= 'Z' then (c as int + 32) as char else c
  }

  /** The bytes a C-string comparison looks at: everything before the first NUL. */
  function CStr(s: string): (r: string)
    ensures |r| <= |s|
  {
    if s == "" || s[0] == '\0' then "" else [s[0]] + CStr(s[1..])
  }

  /** MakeLower: lower-cases the bytes before the first NUL and keeps the rest. */
  function MakeLower(s: string): (r: string)
    ensures |r| == |s|
  {
    if s == "" || s[0] == '\0' then s else [Lower(s[0])] + MakeLower(s[1..])
  }

  /** Equality and equality ignoring case of two non-null strings. */
  predicate Same(a: string, b: string) {
    |a| == |b| && CStr(a) == CStr(b)
  }

  predicate SameIgnoreCase(a: string, b: string) {
    |a| == |b| && MakeLower(CStr(a)) == MakeLower(CStr(b))
  }

  /** Comparison ignoring case with a C literal, given in lower case: there is no length test. */
  predicate EqualsLiteral(s: string, literal: string) {
    MakeLower(CStr(s)) == literal
  }

  /** A string that may be null. Null has no bytes, but null and empty are not equal. */
  datatype AString = Null | Text(bytes: string) {
    function Bytes(): string {
      if Null? then "" else bytes
    }

    predicate Empty() {
      Bytes() == ""
    }
  }

  predicate Equal(a: AString, b: AString) {
    a.Null? == b.Null? && Same(a.Bytes(), b.Bytes())
  }

  predicate EqualIgnoreCase(a: AString, b: AString) {
    a.Null? == b.Null? && SameIgnoreCase(a.Bytes(), b.Bytes())
  }

  /** GetSubStr and Mid from an offset to the end: null when nothing is left. */
  function From(a: AString, offset: nat): AString {
    if offset >= |a.Bytes()| then Null else Text(a.Bytes()[offset..])
  }

  /** GetSubStr and Mid of the first bytes. */
  function UpTo(a: AString, count: nat): AString
    requires count <= |a.Bytes()|
  {
    if a.Empty() then Null else Text(a.Bytes()[..count])
  }

  /** Removes white space at both ends. */
  function Trim(s: string): (r: string)
    ensures |r| <= |s|
    ensures r == "" || (!IsSpace(r[0]) && !IsSpace(r[|r| - 1]))
    ensures s != "" && !IsSpace(s[0]) && !IsSpace(s[|s| - 1]) ==> r == s
    ensures forall c :: c in r ==> c in s
  {
    if s == "" then ""
    else if IsSpace(s[0]) then Trim(s[1..])
    else if IsSpace(s[|s| - 1]) then Trim(s[..|s| - 1])
    else s
  }

  function TrimA(a: AString): AString {
    if a.Null? then Null else Text(Trim(a.bytes))
  }

  /** Strips one double quote at each end if both are there. */
  function TrimDquot(a: AString): AString {
    var s := a.Bytes();
    if s != "" && s[0] == '"' && s[|s| - 1] == '"' then
      if |s| == 1 then Null else Text(s[1..|s| - 1])
    else a
  }

  /** Index of the first occurrence, or -1. */
  function IndexOf(s: string, c: char): (i: int)
    ensures -1 <= i < |s|
    ensures i >= 0 ==> s[i] == c && c !in s[..i]
    ensures i == -1 <==> c !in s
  {
    if s == "" then -1
    else if s[0] == c then 0
    else
      var k := IndexOf(s[1..], c);
      if k < 0 then -1
      else
        assert s[..k + 1] == [s[0]] + s[1..][..k];
        k + 1
  }

  lemma {:induction false} IndexOfIs(s: string, c: char, i: nat)
    requires i < |s| && s[i] == c && c !in s[..i]
    ensures IndexOf(s, c) == i
  {
    if i > 0 {
      assert s[0] in s[..i];
      assert s[1..][..i - 1] == s[..i][1..];
      IndexOfIs(s[1..], c, i - 1);
    }
  }

  /** Does `part` occur in `s`? */
  predicate ContainsText(s: string, part: string) {
    part <= s || (s != "" && ContainsText(s[1..], part))
  }

  /** The pieces of `s` between separators, each trimmed; never empty. */
  function Split(s: string, sep: char): (r: seq<string>)
    ensures |r| >= 1
    decreases |s|
  {
    var k := IndexOf(s, sep);
    if k < 0 then [Trim(s)] else [Trim(s[..k])] + Split(s[k + 1..], sep)
  }

  lemma SplitUnfold(s: string, sep: char)
    ensures sep !in s ==> Split(s, sep) == [Trim(s)]
    ensures sep in s ==>
              Split(s, sep) == [Trim(s[..IndexOf(s, sep)])] + Split(s[IndexOf(s, sep) + 1..], sep)
  {
  }

  lemma {:induction false} SplitNoSeparator(s: string, sep: char)
    requires sep !in s
    ensures Split(s, sep) == [Trim(s)]
  {
  }

  /** Splitting at the separator just appended puts the first piece apart. */
  lemma {:induction false} SplitHead(head: string, sep: char, rest: string)
    requires sep !in head
    ensures Split(head + [sep] + rest, sep) == [Trim(head)] + Split(rest, sep)
  {
    var s := head + [sep] + rest;
    assert s[..|head|] == head && s[|head| + 1..] == rest;
    IndexOfIs(s, sep, |head|);
  }

  lemma {:induction false} CStrMakeLower(s: string)
    ensures CStr(MakeLower(s)) == MakeLower(CStr(s))
  {
    if s != "" && s[0] != '\0' {
      CStrMakeLower(s[1..]);
      assert MakeLower(s)[1..] == MakeLower(s[1..]);
      assert CStr(s)[1..] == CStr(s[1..]);
    }
  }

  /** Text without NUL or capitals is its own C string and its own lower case. */
  lemma {:induction false} LowerFixed(s: string)
    requires forall i :: 0 <= i < |s| ==> s[i] != '\0' && !('A' <= s[i] <= 'Z')
    ensures CStr(s) == s && MakeLower(s) == s
  {
    if s != "" {
      LowerFixed(s[1..]);
    }
  }

  lemma {:induction false} CStrWhole(s: string)
    ensures '\0' !in s ==> CStr(s) == s
    ensures |CStr(s)| == |s| ==> CStr(s) == s
  {
    if s != "" && s[0] != '\0' {
      CStrWhole(s[1..]);
      assert s == [s[0]] + s[1..];
    }
  }

  lemma EqualToItself(a: AString)
    ensures EqualIgnoreCase(a, a)
  {
  }

  // ---- the functions above, described by the bytes they give ---------------------------------

  /** White space is these six bytes. */
  predicate IsWhite(c: char) {
    c as int in {9, 10, 11, 12, 13, 32}
  }

  /** `r` is `s` without the bytes before `a` and from `b` on, all of them white. */
  predicate CutAt(s: string, r: string, a: nat, b: nat) {
    && a <= b <= |s| && r == s[a..b]
    && (forall i :: 0 <= i < a ==> IsWhite(s[i])) && (forall i :: b <= i < |s| ==> IsWhite(s[i]))
  }

  lemma CutFront(s: string, r: string, a: nat, b: nat)
    requires s != "" && IsWhite(s[0]) && CutAt(s[1..], r, a, b)
    ensures CutAt(s, r, a + 1, b + 1)
  {
    assert s[1..][a..b] == s[a + 1..b + 1];
    assert forall i :: 1 <= i < |s| ==> s[i] == s[1..][i - 1];
  }

  lemma CutBack(s: string, r: string, a: nat, b: nat)
    requires s != "" && IsWhite(s[|s| - 1]) && CutAt(s[..|s| - 1], r, a, b)
    ensures CutAt(s, r, a, b)
  {
    assert s[..|s| - 1][a..b] == s[a..b];
    assert forall i :: 0 <= i < |s| - 1 ==> s[i] == s[..|s| - 1][i];
  }

  /** Trimming cuts off the longest runs of white bytes at both ends, and nothing else. */
  lemma {:induction false} TrimCuts(s: string) returns (a: nat, b: nat)
    ensures CutAt(s, Trim(s), a, b)
    ensures Trim(s) != "" ==> !IsWhite(Trim(s)[0]) && !IsWhite(Trim(s)[|Trim(s)| - 1])
  {
    if s != "" && IsSpace(s[0]) {
      hide CutAt;
      a, b := TrimCuts(s[1..]);
      CutFront(s, Trim(s), a, b);
      a, b := a + 1, b + 1;
    } else if s != "" && IsSpace(s[|s| - 1]) {
      hide CutAt;
      a, b := TrimCuts(s[..|s| - 1]);
      CutBack(s, Trim(s), a, b);
    } else {
      a, b := 0, |s|;
    }
  }

  lemma SpaceIsWhite(c: char)
    ensures IsSpace(c) <==> IsWhite(c)
  {
  }

  /** The C string of a text is everything before its first NUL. */
  lemma {:induction false} CStrCuts(s: string)
    ensures CStr(s) == s[..|CStr(s)|] && '\0' !in CStr(s)
    ensures |CStr(s)| < |s| ==> s[|CStr(s)|] == '\0'
  {
    if s != "" && s[0] != '\0' {
      CStrCuts(s[1..]);
      assert CStr(s)[1..] == CStr(s[1..]);
    }
  }

  /** The capitals A to Z become small; every other byte stays. */
  predicate IsLowerOf(low: char, c: char) {
    low as int == c as int + if 65 <= c as int <= 90 then 32 else 0
  }

  lemma {:induction false} MakeLowerAt(s: string, i: nat)
    requires '\0' !in s && i < |s|
    ensures IsLowerOf(MakeLower(s)[i], s[i])
  {
    if i > 0 {
      MakeLowerAt(s[1..], i - 1);
      assert MakeLower(s)[i] == MakeLower(s[1..])[i - 1];
    }
  }

  /** Comparing with a literal looks at the bytes before the first NUL, one by one and ignoring case. */
  lemma EqualsLiteralIff(s: string, literal: string)
    ensures EqualsLiteral(s, literal) <==>
            |CStr(s)| == |literal| && forall i :: 0 <= i < |literal| ==> IsLowerOf(literal[i], s[i])
  {
    CStrCuts(s);
    var cut := CStr(s);
    forall i | 0 <= i < |cut| ensures IsLowerOf(MakeLower(cut)[i], s[i]) {
      MakeLowerAt(cut, i);
      assert cut[i] == s[i];
    }
    hide CStr, MakeLower;
    if |cut| == |literal| && forall i :: 0 <= i < |literal| ==> IsLowerOf(literal[i], s[i]) {
      assert forall i :: 0 <= i < |cut| ==> MakeLower(cut)[i] == literal[i];
      assert MakeLower(cut) == literal;
    }
  }

  /** One double quote is taken off each end, if both are there; of a single one nothing stays. */
  lemma TrimDquotIs(body: string)
    ensures TrimDquot(Text("\"" + body + "\"")) == Text(body) && TrimDquot(Text("\"")) == Null
    ensures body == "" || body[0] != '"' || body[|body| - 1] != '"' ==> TrimDquot(Text(body)) == Text(body)
  {
    var quoted := "\"" + body + "\"";
    assert quoted[1..|quoted| - 1] == body;
  }

  /** Two texts without NUL are the same if they are equal, and the same ignoring case if their bytes are, up to the
      case of letters. */
  lemma SameIff(a: string, b: string)
    requires '\0' !in a && '\0' !in b
    ensures Same(a, b) <==> a == b
    ensures SameIgnoreCase(a, b) <==> |a| == |b| && forall i :: 0 <= i < |a| ==> Lower(a[i]) == Lower(b[i])
  {
    CStrWhole(a);
    CStrWhole(b);
    forall i | 0 <= i < |a| ensures IsLowerOf(MakeLower(a)[i], a[i]) && Lower(a[i]) == MakeLower(a)[i] {
      MakeLowerAt(a, i);
    }
    forall i | 0 <= i < |b| ensures IsLowerOf(MakeLower(b)[i], b[i]) && Lower(b[i]) == MakeLower(b)[i] {
      MakeLowerAt(b, i);
    }
    hide MakeLower, CStr, Lower;
    if |a| == |b| && forall i :: 0 <= i < |a| ==> Lower(a[i]) == Lower(b[i]) {
      assert MakeLower(a) == MakeLower(b);
    }
  }

  predicate OccursAt(s: string, part: string, k: nat) {
    k + |part| <= |s| && s[k..k + |part|] == part
  }

  lemma {:induction false} ContainsTextIff(s: string, part: string)
    ensures ContainsText(s, part) <==> exists k: nat :: OccursAt(s, part, k)
  {
    if part <= s {
      assert OccursAt(s, part, 0);
    } else if s != "" {
      ContainsTextIff(s[1..], part);
      forall k: nat | k + 1 + |part| <= |s|
        ensures OccursAt(s[1..], part, k) <==> OccursAt(s, part, k + 1)
      {
        assert s[1..][k..k + |part|] == s[k + 1..k + 1 + |part|];
      }
      if ContainsText(s[1..], part) {
        var k: nat :| OccursAt(s[1..], part, k);
        assert OccursAt(s, part, k + 1);
      }
      if k: nat :| OccursAt(s, part, k) {
        assert k > 0;
        assert OccursAt(s[1..], part, k - 1);
      }
    }
  }
}
