/** Service identifiers: a name and the flags "explicit" and "require" behind semicolons. Follows
    ServiceIdentifier.cpp.
 */
module ServiceIdentifiers {
  import opened AStrings

  const EXPLICIT := "explicit"
  const REQUIRE := "require"
  datatype ServiceIdentifier = ServiceIdentifier(name: string, isExplicit: bool, isRequire: bool)

  /** Does a token behind the name spell the flag? */
  predicate HasFlag(tokens: seq<string>, flag: string) {
    exists i :: 1 <= i < |tokens| && CStr(tokens[i]) == flag
  }

  function Parse(text: string): ServiceIdentifier {
    var tokens := Split(text, ';');
    ServiceIdentifier(tokens[0], HasFlag(tokens, EXPLICIT), HasFlag(tokens, REQUIRE))
  }

  lemma FlagStep(tokens: seq<string>, i: nat, flag: string)
    requires 1 <= i < |tokens|
    ensures HasFlag(tokens[..i + 1], flag) <==> HasFlag(tokens[..i], flag) || CStr(tokens[i]) == flag
  {
    hide CStr;
    var longer, shorter := tokens[..i + 1], tokens[..i];
    assert forall j :: 0 <= j < i ==> longer[j] == shorter[j];
    assert longer[i] == tokens[i];
  }

  /** Create. The text must not be null: its first token is taken without a check. */
  method Create(text: string) returns (id: ServiceIdentifier)
    ensures id == Parse(text)
  {
    hide CStr;
    var isExplicit, isRequire := false, false;
    var tokens := Split(text, ';');
    assert EXPLICIT != REQUIRE;
    var i := 1;
    while i < |tokens|
      invariant 1 <= i <= |tokens|
      invariant isExplicit == HasFlag(tokens[..i], EXPLICIT)
      invariant isRequire == HasFlag(tokens[..i], REQUIRE)
    {
      FlagStep(tokens, i, EXPLICIT);
      FlagStep(tokens, i, REQUIRE);
      if CStr(tokens[i]) == EXPLICIT {
        isExplicit := true;
      } else if CStr(tokens[i]) == REQUIRE {
        isRequire := true;
      }
      i := i + 1;
    }
    assert tokens[..i] == tokens;
    id := ServiceIdentifier(tokens[0], isExplicit, isRequire);
  }

  /** A text without a semicolon is all name. */
  lemma ParseName(text: string)
    requires ';' !in text
    ensures Parse(text) == ServiceIdentifier(Trim(text), false, false)
  {
    hide Split, CStr, Trim;
    SplitNoSeparator(text, ';');
  }

  function Print(id: ServiceIdentifier): string {
    id.name + (if id.isRequire then ";" + REQUIRE else "") + (if id.isExplicit then ";" + EXPLICIT else "")
  }

  /** CheckFeatureFlags: null has no tokens. */
  method CheckFeatureFlags(text: AString, allowFlags: bool) returns (ok: bool)
    ensures ok <==> allowFlags || text.Null? || !(Parse(text.bytes).isExplicit || Parse(text.bytes).isRequire)
  {
    hide CStr;
    var tokens := if text.Null? then [] else Split(text.bytes, ';');
    var i := 1;
    while i < |tokens|
      invariant 1 <= i
      invariant i <= |tokens| || tokens == []
      invariant tokens != [] && !allowFlags ==> !HasFlag(tokens[..i], EXPLICIT) && !HasFlag(tokens[..i], REQUIRE)
    {
      FlagStep(tokens, i, EXPLICIT);
      FlagStep(tokens, i, REQUIRE);
      if CStr(tokens[i]) == EXPLICIT || CStr(tokens[i]) == REQUIRE {
        if !allowFlags {
          return false;
        }
      }
      i := i + 1;
    }
    assert tokens != [] ==> tokens[..i] == tokens;
    ok := true;
  }

  /** The flags follow the name, "require" before "explicit". */
  lemma PrintIs(name: string)
    ensures Print(ServiceIdentifier(name, false, false)) == name
    ensures Print(ServiceIdentifier(name, true, false)) == name + ";explicit"
    ensures Print(ServiceIdentifier(name, false, true)) == name + ";require"
    ensures Print(ServiceIdentifier(name, true, true)) == name + ";require" + ";explicit"
  {
    assert ";" + EXPLICIT == ";explicit" && ";" + REQUIRE == ";require";
    assert name + "" + "" == name && name + "" + (";" + EXPLICIT) == name + ";explicit";
    assert name + (";" + REQUIRE) + "" == name + ";require";
  }

  // ---- printing and parsing again --------------------------------------------------------------

  /** A piece as splitting leaves it; a name is one. */
  predicate IsPiece(piece: string) {
    ';' !in piece && Trim(piece) == piece
  }

  lemma TrimPiece(s: string)
    requires ';' !in s
    ensures IsPiece(Trim(s))
  {
  }

  lemma {:induction false} SplitPieces(s: string)
    ensures forall i :: 0 <= i < |Split(s, ';')| ==> IsPiece(Split(s, ';')[i])
    decreases |s|
  {
    hide Trim, IsPiece, Split;
    SplitUnfold(s, ';');
    var k := IndexOf(s, ';');
    TrimPiece(if k < 0 then s else s[..k]);
    if k >= 0 {
      SplitPieces(s[k + 1..]);
    }
  }

  lemma FlagPieces()
    ensures IsPiece(REQUIRE) && IsPiece(EXPLICIT)
  {
    hide Trim;
  }

  lemma RequireText()
    ensures CStr(REQUIRE) == REQUIRE
  {
    hide CStr, MakeLower;
    LowerFixed(REQUIRE);
  }

  lemma ExplicitText()
    ensures CStr(EXPLICIT) == EXPLICIT
  {
    hide CStr, MakeLower;
    LowerFixed(EXPLICIT);
  }

  lemma FlagTexts()
    ensures CStr(REQUIRE) == REQUIRE && CStr(EXPLICIT) == EXPLICIT && REQUIRE != EXPLICIT
  {
    RequireText();
    ExplicitText();
    hide CStr;
    assert |REQUIRE| != |EXPLICIT|;
  }

  lemma Pieces(name: string, flag: string, other: string)
    requires IsPiece(name) && IsPiece(flag) && IsPiece(other)
    ensures Split(name, ';') == [name]
    ensures Split(name + ";" + flag, ';') == [name, flag]
    ensures Split(name + ";" + flag + ";" + other, ';') == [name, flag, other]
  {
    hide Split, Trim;
    SplitNoSeparator(name, ';');
    SplitNoSeparator(flag, ';');
    SplitNoSeparator(other, ';');
    SplitHead(name, ';', flag);
    SplitHead(flag, ';', other);
    SplitHead(name, ';', flag + [';'] + other);
    assert name + ";" + flag + ";" + other == name + [';'] + (flag + [';'] + other);
  }

  lemma PrintedPieces(id: ServiceIdentifier, r: string, e: string)
    requires IsPiece(id.name) && IsPiece(r) && IsPiece(e)
    ensures Split(id.name + (if id.isRequire then ";" + r else "") + (if id.isExplicit then ";" + e else ""), ';') ==
            [id.name] + (if id.isRequire then [r] else []) + (if id.isExplicit then [e] else [])
  {
    hide Split, IsPiece;
    Pieces(id.name, r, e);
    Pieces(id.name, e, r);
    assert id.name + ";" + e == id.name + (";" + e);
    assert id.name + ";" + r == id.name + (";" + r);
    assert id.name + ";" + r + ";" + e == id.name + (";" + r) + (";" + e);
    assert id.name + "" == id.name && id.name + (";" + r) + "" == id.name + (";" + r);
  }

  lemma PrintedTokens(id: ServiceIdentifier)
    requires IsPiece(id.name)
    ensures Split(Print(id), ';') ==
            [id.name] + (if id.isRequire then [REQUIRE] else []) + (if id.isExplicit then [EXPLICIT] else [])
  {
    FlagPieces();
    hide Split, IsPiece, Trim;
    PrintedPieces(id, REQUIRE, EXPLICIT);
  }

  /** Printing and parsing again restores the name and both flags. */
  lemma ParsePrint(id: ServiceIdentifier)
    requires IsPiece(id.name)
    ensures Parse(Print(id)) == id
  {
    hide Split, CStr, Trim, Print, IsPiece;
    FlagTexts();
    PrintedTokens(id);
    var tokens := Split(Print(id), ';');
    assert id.isRequire ==> CStr(tokens[1]) == REQUIRE;
    assert id.isExplicit ==> CStr(tokens[|tokens| - 1]) == EXPLICIT;
  }

  /** Every identifier that parsing makes survives. */
  lemma ParsePrintParse(text: string)
    ensures IsPiece(Parse(text).name) && Parse(Print(Parse(text))) == Parse(text)
  {
    hide Split, Print, IsPiece;
    SplitPieces(text);
    ParsePrint(Parse(text));
  }
}
