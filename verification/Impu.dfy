/** How a subscriber record is filled: normalising the public user identities (IMPU), picking the
    primary ones and deriving the home domain. Follows UpdatePublicUserIds, SetPrimaryImpu and
    UpdateHomeDomainName of SubscriberConfig.cpp.
 */
module Impu {
  import opened AStrings

  predicate KnownScheme(scheme: string) {
    EqualsLiteral(scheme, "sip:") || EqualsLiteral(scheme, "tel:") || EqualsLiteral(scheme, "sips:")
  }

  /** The four or five bytes the code inspects, right after the first '<' or at the start. */
  function SchemeOf(id: string): string {
    var start := IndexOf(id, '<') + 1;
    if |id| < 4 + start then ""
    else if EqualsLiteral(id[start..start + 4], "sips") && |id| >= 5 + start then id[start..start + 5]
    else id[start..start + 4]
  }

  function NormalizeOne(id: string): string {
    var t := Trim(id);
    if t == "" then ""
    else if KnownScheme(SchemeOf(t)) then t
    else "sip:" + t
  }

  function NormalizeAll(ids: seq<string>): (r: seq<string>)
    ensures |r| == |ids|
    ensures forall i :: 0 <= i < |ids| ==> r[i] == NormalizeOne(ids[i])
  {
    if ids == [] then [] else NormalizeAll(ids[..|ids| - 1]) + [NormalizeOne(ids[|ids| - 1])]
  }

  /** The loop of UpdatePublicUserIds: one normalised identity per given one, in order. */
  method UpdatePublicUserIds(ids: seq<string>) returns (r: seq<string>)
    ensures r == NormalizeAll(ids)
  {
    r := [];
    for i := 0 to |ids|
      invariant r == NormalizeAll(ids[..i])
    {
      assert ids[..i + 1][..i] == ids[..i];
      var id := Trim(ids[i]);
      if |id| == 0 {
        r := r + [id];
        continue;
      }
      var scheme := "";
      var start := IndexOf(id, '<') + 1;
      if |id| >= 4 + start {
        scheme := id[start..start + 4];
        if EqualsLiteral(scheme, "sips") && |id| >= 5 + start {
          scheme := id[start..start + 5];
        }
      }
      if !KnownScheme(scheme) {
        id := "sip:" + id;
      }
      r := r + [id];
    }
    assert ids[..|ids|] == ids;
  }

  /** A sip:, tel: or sips: scheme, in any case, stands at offset `at`. */
  predicate SchemeAt(id: string, at: nat) {
    || (at + 4 <= |id| && (EqualsLiteral(id[at..at + 4], "sip:") || EqualsLiteral(id[at..at + 4], "tel:")))
    || (at + 5 <= |id| && EqualsLiteral(id[at..at + 5], "sips:"))
  }

  lemma {:induction false} LowerPrefix(x: string, n: nat)
    requires n <= |x| && |CStr(x[..n])| == n
    ensures MakeLower(CStr(x[..n])) <= MakeLower(CStr(x))
  {
    if n > 0 {
      assert x[..n][1..] == x[1..][..n - 1];
      LowerPrefix(x[1..], n - 1);
      assert CStr(x)[1..] == CStr(x[1..]);
      assert CStr(x[..n])[1..] == CStr(x[1..][..n - 1]);
    }
  }

  lemma FiveBytes(x: string)
    requires |x| == 5 && EqualsLiteral(x[..4], "sips")
    ensures !EqualsLiteral(x, "sip:") && !EqualsLiteral(x, "tel:")
  {
    LowerPrefix(x, 4);
    assert MakeLower(CStr(x))[3] == "sips"[3];
  }

  lemma KnownSchemePosition(t: string)
    requires KnownScheme(SchemeOf(t))
    ensures SchemeAt(t, IndexOf(t, '<') + 1)
  {
    var start := IndexOf(t, '<') + 1;
    if |t| >= 4 + start {
      if EqualsLiteral(t[start..start + 4], "sips") && |t| >= 5 + start {
        assert t[start..start + 5][..4] == t[start..start + 4];
        FiveBytes(t[start..start + 5]);
      }
    }
  }

  /** The fourth byte tells "sip:" and "tel:" from "sips". */
  lemma FourBytes(x: string)
    requires EqualsLiteral(x, "sip:") || EqualsLiteral(x, "tel:")
    ensures !EqualsLiteral(x, "sips")
  {
    hide CStr, MakeLower;
    assert "sip:"[3] == "tel:"[3] == ':' && "sips"[3] == 's';
  }

  lemma SipsStart(x: string)
    requires |x| == 5 && EqualsLiteral(x, "sips:")
    ensures EqualsLiteral(x[..4], "sips")
  {
    CStrWhole(x);
    CStrCuts(x);
    CStrWhole(x[..4]);
    LowerPrefix(x, 4);
    hide CStr, MakeLower;
    assert "sips:"[..4] == "sips";
  }

  lemma SchemeIsKnown(t: string)
    requires SchemeAt(t, IndexOf(t, '<') + 1)
    ensures KnownScheme(SchemeOf(t))
  {
    hide EqualsLiteral;
    var start := IndexOf(t, '<') + 1;
    var four := t[start..start + 4];
    if EqualsLiteral(four, "sip:") || EqualsLiteral(four, "tel:") {
      FourBytes(four);
    } else {
      SipsStart(t[start..start + 5]);
      assert t[start..start + 5][..4] == four;
    }
  }

  /** An identity that is not blank stays as it is, apart from white space around it, if and only if a
      scheme stands at its start or, if it has a '<', right behind the first one; otherwise "sip:" is put
      in front. */
  lemma NormalizedIff(id: string)
    requires Trim(id) != ""
    ensures NormalizeOne(id) == Trim(id) <==> SchemeAt(Trim(id), IndexOf(Trim(id), '<') + 1)
    ensures NormalizeOne(id) == Trim(id) || NormalizeOne(id) == "sip:" + Trim(id)
  {
    hide KnownScheme, SchemeOf, SchemeAt;
    var t := Trim(id);
    if KnownScheme(SchemeOf(t)) {
      KnownSchemePosition(t);
    } else {
      if SchemeAt(t, IndexOf(t, '<') + 1) {
        SchemeIsKnown(t);
      }
      assert |"sip:" + t| != |t|;
    }
  }

  lemma SipPrefix(t: string)
    ensures SchemeAt("sip:" + t, 0) && EqualsLiteral(("sip:" + t)[0..4], "sip:")
  {
    var r := "sip:" + t;
    assert r[0..4] == ['s', 'i', 'p', ':'];
    LowerFixed(r[0..4]);
  }

  /** A normalised identity is blank exactly when the given one is, carries no white space at its
      ends and is the given one up to an added "sip:". */
  lemma NormalizedTrimmed(id: string)
    ensures var r := NormalizeOne(id);
            && (r == "" <==> Trim(id) == "")
            && (r == Trim(id) || r == "sip:" + Trim(id))
            && (r != "" ==> !IsSpace(r[0]) && !IsSpace(r[|r| - 1]))
  {
    var t := Trim(id);
    var r := NormalizeOne(id);
    if t != "" && r != t {
      assert r[0] == 's' && r[|r| - 1] == t[|t| - 1];
    }
  }

  /** A normalised identity has a scheme at its start or right after its first '<'. */
  lemma NormalizedScheme(id: string)
    requires Trim(id) != ""
    ensures SchemeAt(NormalizeOne(id), 0) || SchemeAt(NormalizeOne(id), IndexOf(NormalizeOne(id), '<') + 1)
  {
    if KnownScheme(SchemeOf(Trim(id))) {
      KnownSchemePosition(Trim(id));
    } else {
      SipPrefix(Trim(id));
    }
  }

  lemma PrefixedWithoutAngle(t: string)
    requires '<' !in t
    ensures KnownScheme(SchemeOf("sip:" + t))
  {
    var r := "sip:" + t;
    SipPrefix(t);
    assert '<' !in r;
  }

  lemma PrefixedWithAngle(t: string)
    requires '<' in t
    ensures SchemeOf("sip:" + t) == SchemeOf(t)
  {
    hide EqualsLiteral, IndexOf;
    var head: string := "sip:";
    var r := head + t;
    var k := IndexOf(t, '<');
    assert r[..k + 4] == head + t[..k];
    IndexOfIs(r, '<', k + 4);
    if |t| >= k + 5 {
      assert r[k + 5..k + 9] == t[k + 1..k + 5];
    }
    if |t| >= k + 6 {
      assert r[k + 5..k + 10] == t[k + 1..k + 6];
    }
  }

  /** Normalising twice changes nothing exactly when the trimmed identity is blank, has no '<',
      or already carries a scheme right after its first '<'. */
  lemma NormalizeIdempotentIff(id: string)
    ensures NormalizeOne(NormalizeOne(id)) == NormalizeOne(id)
            <==> '<' !in Trim(id) || SchemeAt(Trim(id), IndexOf(Trim(id), '<') + 1)
  {
    hide SchemeAt, KnownScheme, SchemeOf, IndexOf, Trim;
    var t := Trim(id);
    if KnownScheme(SchemeOf(t)) {
      KnownSchemePosition(t);
    } else if SchemeAt(t, IndexOf(t, '<') + 1) {
      SchemeIsKnown(t);
    }
    var r := NormalizeOne(id);
    if t != "" {
      assert Trim(t) == t;
      if !KnownScheme(SchemeOf(t)) {
        assert r == "sip:" + t && Trim(r) == r;
        if '<' in t {
          PrefixedWithAngle(t);
        } else {
          PrefixedWithoutAngle(t);
        }
        assert |"sip:" + r| != |r|;
      }
    }
  }

  /** An identity that grows every time it is normalised. */
  lemma AngleGrows()
    ensures NormalizeOne("<") == "sip:<" && NormalizeOne("sip:<") == "sip:sip:<"
  {
    var text: string := "<";
    assert Trim(text) == text && IndexOf(text, '<') == 0;
    PrefixedWithAngle(text);
    var once := "sip:" + text;
    assert once == "sip:<" && Trim(once) == once;
    assert "sip:" + once == "sip:sip:<";
  }

  // ---- primary identities --------------------------------------------------------------------

  /** The first identity containing `part` (ignoring case), or the empty string. */
  function FirstContaining(ids: seq<string>, part: string): string {
    if ids == [] then ""
    else if ContainsText(MakeLower(ids[0]), part) then ids[0]
    else FirstContaining(ids[1..], part)
  }

  lemma {:induction false} FirstContainingSpec(ids: seq<string>, part: string, i: nat)
    requires i < |ids| && ContainsText(MakeLower(ids[i]), part)
    requires forall k :: 0 <= k < i ==> !ContainsText(MakeLower(ids[k]), part)
    ensures FirstContaining(ids, part) == ids[i]
  {
    if i > 0 {
      FirstContainingSpec(ids[1..], part, i - 1);
    }
  }

  lemma {:induction false} FirstContainingNone(ids: seq<string>, part: string)
    requires forall k :: 0 <= k < |ids| ==> !ContainsText(MakeLower(ids[k]), part)
    ensures FirstContaining(ids, part) == ""
  {
    if ids != [] {
      FirstContainingNone(ids[1..], part);
    }
  }

  /** SetPrimaryImpu: one scan with an early exit finds both primaries. */
  method SetPrimaryImpu(ids: seq<string>) returns (sip: string, tel: string)
    ensures sip == FirstContaining(ids, "sip:")
    ensures tel == FirstContaining(ids, "tel:")
  {
    sip, tel := "", "";
    var sipFound, telFound := false, false;
    var i := 0;
    while i < |ids|
      invariant 0 <= i <= |ids|
      invariant sipFound ==> sip == FirstContaining(ids, "sip:")
      invariant telFound ==> tel == FirstContaining(ids, "tel:")
      invariant !sipFound ==> sip == "" && forall k :: 0 <= k < i ==> !ContainsText(MakeLower(ids[k]), "sip:")
      invariant !telFound ==> tel == "" && forall k :: 0 <= k < i ==> !ContainsText(MakeLower(ids[k]), "tel:")
    {
      var id := MakeLower(ids[i]);
      if !sipFound && ContainsText(id, "sip:") {
        FirstContainingSpec(ids, "sip:", i);
        sip, sipFound := ids[i], true;
      }
      if !telFound && ContainsText(id, "tel:") {
        FirstContainingSpec(ids, "tel:", i);
        tel, telFound := ids[i], true;
      }
      if sipFound && telFound {
        break;
      }
      i := i + 1;
    }
    if !sipFound {
      FirstContainingNone(ids, "sip:");
    }
    if !telFound {
      FirstContainingNone(ids, "tel:");
    }
  }

  // ---- home domain ---------------------------------------------------------------------------

  /** What follows the first '@' of an identity, trimmed. */
  function DomainPart(id: string): string {
    Trim(id[IndexOf(id, '@') + 1..])
  }

  predicate HasDomain(id: string) {
    '@' in id && DomainPart(id) != ""
  }

  function DomainOf(ids: seq<string>): string {
    if ids == [] then ""
    else if HasDomain(ids[0]) then DomainPart(ids[0])
    else DomainOf(ids[1..])
  }

  /** UpdateHomeDomainName: "0" means absent, and the first usable identity supplies the domain. */
  function HomeDomain(given: string, ids: seq<string>): string {
    if EqualsLiteral(given, "0") then DomainOf(ids) else given
  }

  lemma {:induction false} DomainOfSuffix(ids: seq<string>, i: nat)
    requires i <= |ids| && forall k :: 0 <= k < i ==> !HasDomain(ids[k])
    ensures DomainOf(ids) == DomainOf(ids[i..])
  {
    if i == 0 {
      assert ids[0..] == ids;
    } else {
      DomainOfSuffix(ids[1..], i - 1);
      assert ids[1..][i - 1..] == ids[i..];
    }
  }

  method UpdateHomeDomainName(given: string, ids: seq<string>) returns (domain: string)
    ensures domain == HomeDomain(given, ids)
  {
    domain := given;
    if EqualsLiteral(given, "0") {
      domain := "";
      var i := 0;
      while i < |ids|
        invariant 0 <= i <= |ids| && domain == ""
        invariant forall k :: 0 <= k < i ==> !HasDomain(ids[k])
      {
        var k := IndexOf(ids[i], '@');
        if k != -1 {
          domain := Trim(ids[i][k + 1..]);
          if |domain| > 0 {
            break;
          }
        }
        i := i + 1;
      }
      DomainOfSuffix(ids, i);
    }
  }
}
