/** The percent coding of IARI and ICSI values (section 2.1 of RFC 3986; sections 7.2A.8 and 7.2A.9 of
    3GPP TS 24.229), as Feature.cpp and TextParser.cpp implement it on bytes.
 */
module PercentCodec {
  import opened AStrings

  predicate IsHex(c: char) {
    IsDigit(c) || 'A' <= c <= 'F' || 'a' <= c <= 'f'
  }

  function HexValue(c: char): (v: int)
    requires IsHex(c)
    ensures 0 <= v < 16
  {
    if 'A' <= c <= 'F' then c as int - 'A' as int + 10
    else if 'a' <= c <= 'f' then c as int - 'a' as int + 10
    else c as int - '0' as int
  }

  function HexDigit(n: int): (c: char)
    requires 0 <= n < 16
    ensures IsHex(c) && HexValue(c) == n
  {
    if n < 10 then ('0' as int + n) as char else ('A' as int + n - 10) as char
  }

  /** CharToHexString: two upper-case digits for a byte. */
  function CharToHex(c: char): (r: string)
    requires c as int < 256
    ensures |r| == 2 && IsHex(r[0]) && IsHex(r[1])
    ensures 16 * HexValue(r[0]) + HexValue(r[1]) == c as int
  {
    [HexDigit(c as int / 16), HexDigit(c as int % 16)]
  }

  /** HexStringToChar: the byte of two digits, with or without a 0x in front, or -1. */
  function HexToChar(hex: string): (r: int)
    ensures -1 <= r < 256
  {
    if |hex| == 4 && !(hex[0] == '0' && (hex[1] == 'x' || hex[1] == 'X')) then -1
    else if |hex| != 4 && |hex| != 2 then -1
    else
      var d := if |hex| == 4 then hex[2..] else hex;
      if IsHex(d[0]) && IsHex(d[1]) then 16 * HexValue(d[0]) + HexValue(d[1]) else -1
  }

  /** The bytes that stand for themselves. Those listed as 0x45 and 0x47 are the letters E and G. */
  predicate IsPlain(c: char) {
    IsAlpha(c) || IsDigit(c) || c == '!' || c == '-' || c == '.' || c == 'E' || c == '*' || c == '_'
    || c == '+' || c == '`' || c == 'G' || c == '~'
  }

  function EncodeByte(c: char): string
    requires c as int < 256
  {
    if IsPlain(c) then [c] else "%" + CharToHex(c)
  }

  function Encode(s: string): string
    requires IsBytes(s)
  {
    if s == "" then "" else EncodeByte(s[0]) + Encode(s[1..])
  }

  /** How many bytes the code consumes at the front of `s`: one, or a percent sign and up to two. */
  function Chunk(s: string): (n: nat)
    requires s != ""
    ensures 1 <= n <= |s|
  {
    if s[0] != '%' then 1 else if |s| < 3 then |s| else 3
  }

  function DecodeChunk(s: string): (r: string)
    requires s != ""
    ensures 1 <= |r| <= Chunk(s)
  {
    if s[0] != '%' then [s[0]]
    else
      var hex := s[1..Chunk(s)];
      var ch := HexToChar(hex);
      if ch < 0 then "%" + hex else [ch as char]
  }

  function Decode(s: string): string {
    if s == "" then "" else DecodeChunk(s) + Decode(s[Chunk(s)..])
  }

  lemma EncodeStep(value: string, i: nat)
    requires IsBytes(value) && i < |value|
    ensures Encode(value[i..]) == EncodeByte(value[i]) + Encode(value[i + 1..])
  {
    assert value[i..][1..] == value[i + 1..];
  }

  lemma EncodeEnd(s: string)
    requires s == ""
    ensures Encode(s) == "" && Decode(s) == ""
  {
  }

  method DoPercentEncoding(value: string) returns (r: string)
    requires IsBytes(value)
    ensures r == Encode(value)
  {
    hide Encode, IsPlain;
    r := "";
    assert value[0..] == value;
    for i := 0 to |value|
      invariant Encode(value) == r + Encode(value[i..])
    {
      EncodeStep(value, i);
      ghost var before, rest := r, Encode(value[i + 1..]);
      if IsPlain(value[i]) {
        r := r + [value[i]];
      } else {
        r := r + ['%'];
        r := r + CharToHex(value[i]);
      }
      assert r == before + EncodeByte(value[i]);
      assert r + rest == before + (EncodeByte(value[i]) + rest);
    }
    EncodeEnd(value[|value|..]);
  }

  /** Decoding from offset `i` on: one byte, or one escape that may be cut short by the end. */
  lemma DecodeStep(value: string, i: nat)
    requires i < |value|
    ensures value[i] != '%' ==> Decode(value[i..]) == [value[i]] + Decode(value[i + 1..])
    ensures value[i] == '%' ==>
              var stop := if i + 3 <= |value| then i + 3 else |value|;
              var hex := value[i + 1..stop];
              Decode(value[i..])
              == (if HexToChar(hex) < 0 then "%" + hex else [HexToChar(hex) as char]) + Decode(value[stop..])
  {
    hide HexToChar;
    var rest := value[i..];
    assert rest[Chunk(rest)..] == value[i + Chunk(rest)..];
    assert value[i] == '%' ==> rest[1..Chunk(rest)] == value[i + 1..i + Chunk(rest)];
  }

  lemma Regroup(r: string, piece: string, tail: string, all: string)
    requires all == r + (piece + tail)
    ensures all == (r + piece) + tail
  {
  }

  method DoPercentDecoding(value: string) returns (r: string)
    ensures r == Decode(value)
  {
    hide Decode, HexToChar;
    r := "";
    assert value[0..] == value;
    var i := 0;
    while i < |value|
      invariant 0 <= i
      invariant Decode(value) == r + Decode(if i <= |value| then value[i..] else "")
      decreases |value| - i
    {
      DecodeStep(value, i);
      if value[i] != '%' {
        Regroup(r, [value[i]], Decode(value[i + 1..]), Decode(value));
        r := r + [value[i]];
      } else {
        var stop := if i + 3 <= |value| then i + 3 else |value|;
        var hex := value[i + 1..stop];
        var ch := HexToChar(hex);
        if ch < 0x00 || ch > 0xFF {
          Regroup(r, "%" + hex, Decode(value[stop..]), Decode(value));
          assert r + ("%" + hex) == r + ['%'] + hex;
          r := r + ['%'];
          r := r + hex;
        } else {
          Regroup(r, [ch as char], Decode(value[stop..]), Decode(value));
          r := r + [ch as char];
        }
        assert i + 3 > |value| ==> value[stop..] == "";
        i := i + 2;
      }
      i := i + 1;
    }
    EncodeEnd(if i <= |value| then value[i..] else "");
  }

  // ---- results -------------------------------------------------------------------------------

  lemma DecodePlain(c: char, rest: string)
    requires c != '%'
    ensures Decode([c] + rest) == [c] + Decode(rest)
  {
    assert ([c] + rest)[1..] == rest;
  }

  lemma DecodeEscape(c: char, rest: string)
    requires c as int < 256
    ensures Decode("%" + CharToHex(c) + rest) == [c] + Decode(rest)
  {
    var s := "%" + CharToHex(c) + rest;
    assert s[1..3] == CharToHex(c) && s[3..] == rest;
  }

  /** Decoding undoes encoding, for every byte string. */
  lemma {:induction false} DecodeEncode(s: string)
    requires IsBytes(s)
    ensures Decode(Encode(s)) == s
  {
    if s != "" {
      DecodeEncode(s[1..]);
      if IsPlain(s[0]) {
        DecodePlain(s[0], Encode(s[1..]));
      } else {
        DecodeEscape(s[0], Encode(s[1..]));
      }
    }
  }

  /** The bytes that are written as they are: letters, digits and ! - . * _ + with the back quote and the
      tilde. */
  predicate Safe(c: char) {
    || 0x41 <= c as int <= 0x5A || 0x61 <= c as int <= 0x7A || 0x30 <= c as int <= 0x39
    || c as int in {0x21, 0x2D, 0x2E, 0x2A, 0x5F, 0x2B, 0x60, 0x7E}
  }

  const HEX := "0123456789ABCDEF"

  lemma HexDigitIs(n: nat)
    requires n < 16
    ensures HexDigit(n) == HEX[n]
  {
  }

  /** One byte is written as it is if it is safe, and as a percent sign and two upper-case digits if not. */
  lemma EncodeOne(c: char)
    requires c as int < 256
    ensures Encode([c]) == if Safe(c) then [c] else ['%', HEX[c as int / 16], HEX[c as int % 16]]
  {
    hide HexDigit;
    HexDigitIs(c as int / 16);
    HexDigitIs(c as int % 16);
    assert [c][1..] == "" && EncodeByte(c) + Encode("") == EncodeByte(c);
  }

  /** Texts are encoded byte by byte. */
  lemma {:induction false} EncodeConcat(s: string, t: string)
    requires IsBytes(s) && IsBytes(t)
    ensures IsBytes(s + t) && Encode(s + t) == Encode(s) + Encode(t)
  {
    hide EncodeByte;
    if s == "" {
      assert s + t == t;
    } else {
      EncodeConcat(s[1..], t);
      assert (s + t)[1..] == s[1..] + t;
    }
  }

  lemma EncodeFirst(s: string)
    requires IsBytes(s) && s != ""
    ensures Encode(s) == (if Safe(s[0]) then [s[0]] else ['%', HEX[s[0] as int / 16], HEX[s[0] as int % 16]])
                         + Encode(s[1..])
  {
    hide Encode;
    EncodeOne(s[0]);
    EncodeConcat([s[0]], s[1..]);
    assert [s[0]] + s[1..] == s;
  }

  lemma HexIsSafe(n: nat)
    requires n < 16
    ensures Safe(HEX[n])
  {
  }

  lemma EncodeNothing()
    ensures Encode("") == ""
  {
  }

  /** What encoding emits: between one and three times the input, safe bytes and percent signs only; and it
      leaves a text alone if and only if all its bytes are safe. */
  lemma {:induction false} EncodeShape(s: string)
    requires IsBytes(s)
    ensures |s| <= |Encode(s)| <= 3 * |s|
    ensures forall c :: c in Encode(s) ==> Safe(c) || c == '%'
    ensures Encode(s) == s <==> forall i :: 0 <= i < |s| ==> Safe(s[i])
  {
    hide Encode, Safe;
    if s == "" {
      EncodeNothing();
    } else {
      EncodeFirst(s);
      EncodeShape(s[1..]);
      assert forall i :: 1 <= i < |s| ==> s[i] == s[1..][i - 1];
      if Safe(s[0]) {
        assert s == [s[0]] + s[1..];
      } else {
        HexIsSafe(s[0] as int / 16);
        HexIsSafe(s[0] as int % 16);
        assert |Encode(s)| > |s|;
      }
    }
  }

  lemma SafeBytes(s: string)
    requires forall x :: x in s ==> Safe(x)
    ensures IsBytes(s)
  {
    assert forall i :: 0 <= i < |s| ==> s[i] in s;
  }

  lemma ColonIsCoded()
    ensures Encode(":") == "%3A"
  {
    hide Encode;
    EncodeOne(':');
    var code := ':' as int;
    assert code / 16 == 3 && code % 16 == 10 && HEX[3] == '3' && HEX[10] == 'A';
    assert [':'] == ":" && ['%', HEX[3], HEX[10]] == "%3A";
  }

  lemma EncodeNames(a: string, b: string, c: string)
    requires forall x :: x in a + b + c ==> Safe(x)
    ensures IsBytes(a + ":" + b + ":" + c) && Encode(a + ":" + b + ":" + c) == a + "%3A" + b + "%3A" + c
  {
    hide Encode, Safe;
    assert forall x :: x in a || x in b || x in c ==> x in a + b + c;
    SafeBytes(a);
    SafeBytes(b);
    SafeBytes(c);
    EncodeShape(a);
    EncodeShape(b);
    EncodeShape(c);
    ColonIsCoded();
    EncodeConcat(a, ":");
    EncodeConcat(a + ":", b);
    EncodeConcat(a + ":" + b, ":");
    EncodeConcat(a + ":" + b + ":", c);
  }

  /** The ICSI of multimedia telephony, as it is known and as it is sent. */
  lemma MmtelIsCoded()
    ensures IsBytes("urn" + ":" + "urn-7" + ":" + "3gpp-service.ims.icsi.mmtel")
    ensures Encode("urn" + ":" + "urn-7" + ":" + "3gpp-service.ims.icsi.mmtel") ==
            "urn" + "%3A" + "urn-7" + "%3A" + "3gpp-service.ims.icsi.mmtel"
  {
    hide Encode;
    var a, b, c := "urn", "urn-7", "3gpp-service.ims.icsi.mmtel";
    EncodeNames(a, b, c);
  }

  /** The digit a character spells, in either case, or none. */
  function DigitOf(c: char): int {
    if 0x30 <= c as int <= 0x39 then c as int - 0x30
    else if 0x41 <= c as int <= 0x46 then c as int - 0x37
    else if 0x61 <= c as int <= 0x66 then c as int - 0x57
    else -1
  }

  /** Decoding an escape: a percent sign and two digits of either case are a byte; without two digits the
      percent sign and the two bytes behind it stay as they are. */
  lemma DecodeTriple(a: char, b: char, rest: string)
    ensures Decode(['%', a, b] + rest) ==
            (if DigitOf(a) >= 0 && DigitOf(b) >= 0 then [(16 * DigitOf(a) + DigitOf(b)) as char] else ['%', a, b])
            + Decode(rest)
  {
    var s := ['%', a, b] + rest;
    assert s[1..3] == [a, b] && s[3..] == rest;
    assert "%" + [a, b] == ['%', a, b];
  }

  lemma ShortIsNoByte(hex: string)
    requires |hex| <= 1
    ensures HexToChar(hex) < 0
  {
  }

  /** A percent sign with less than two bytes behind it stays, and so do they. */
  lemma DecodeShort(tail: string)
    requires |tail| <= 1
    ensures Decode("%" + tail) == "%" + tail
  {
    hide HexToChar;
    var s := "%" + tail;
    assert s[1..|s|] == tail && s[|s|..] == "";
    assert HexToChar(tail) < 0 by { ShortIsNoByte(tail); }
  }

  /** The number of well-formed escapes the decoder meets. */
  function Escapes(s: string): nat {
    if s == "" then 0
    else (if s[0] == '%' && HexToChar(s[1..Chunk(s)]) >= 0 then 1 else 0) + Escapes(s[Chunk(s)..])
  }

  /** Decoding shortens its input by two bytes per well-formed escape and changes nothing else: a
      text without one is returned as it is, malformed escapes included. */
  lemma {:induction false} DecodeShape(s: string)
    ensures |Decode(s)| + 2 * Escapes(s) == |s|
    ensures Decode(s) == s <==> Escapes(s) == 0
  {
    if s != "" {
      var n := Chunk(s);
      DecodeShape(s[n..]);
      assert s == s[..n] + s[n..];
      if Escapes(s) == 0 {
        assert DecodeChunk(s) == s[..n];
      }
    }
  }

  /** A malformed escape hides a well-formed one that starts inside it. */
  lemma MalformedHidesEscape()
    ensures Decode("%4%41") == "%4%41" && Decode("%41") == "A"
  {
    assert "%4%41"[1..3] == "4%" && "%4%41"[3..] == "41" && "41"[1..] == "1" && "1"[1..] == "";
    assert "%41"[1..3] == "41" && "%41"[3..] == "";
  }

  // ---- where char is signed --------------------------------------------------------------------

  /** The codec above reads bytes as unsigned. Where `char` is signed, a byte from 0x80 on is negative: it
      is printed with eight digits, and an escape for it counts as malformed. */
  function SignedEncode(s: string): string
    requires IsBytes(s)
  {
    if s == "" then ""
    else (if s[0] as int < 128 then EncodeByte(s[0]) else "%FFFFFF" + CharToHex(s[0])) + SignedEncode(s[1..])
  }

  function SignedHexToChar(hex: string): int {
    if HexToChar(hex) >= 128 then HexToChar(hex) - 256 else HexToChar(hex)
  }

  function SignedDecodeChunk(s: string): (r: string)
    requires s != ""
  {
    if s[0] != '%' then [s[0]]
    else
      var hex := s[1..Chunk(s)];
      if SignedHexToChar(hex) < 0 then "%" + hex else [SignedHexToChar(hex) as char]
  }

  function SignedDecode(s: string): string {
    if s == "" then "" else SignedDecodeChunk(s) + SignedDecode(s[Chunk(s)..])
  }

  /** The number of bytes from 0x80 on. */
  function HighBytes(s: string): nat {
    if s == "" then 0 else (if s[0] as int < 128 then 0 else 1) + HighBytes(s[1..])
  }

  lemma SignedDecodeOne(c: char, rest: string)
    requires c != '%'
    ensures SignedDecode([c] + rest) == [c] + SignedDecode(rest)
  {
    hide SignedHexToChar;
    assert ([c] + rest)[1..] == rest;
  }

  lemma {:induction false} SignedDecodePlain(head: string, rest: string)
    requires '%' !in head
    ensures SignedDecode(head + rest) == head + SignedDecode(rest)
  {
    hide SignedDecode;
    if head == "" {
      assert head + rest == rest;
    } else {
      SignedDecodePlain(head[1..], rest);
      SignedDecodeOne(head[0], head[1..] + rest);
      assert head + rest == [head[0]] + (head[1..] + rest);
      assert head == [head[0]] + head[1..];
    }
  }

  lemma SignedDecodeEscape(c: char, rest: string)
    requires c as int < 128
    ensures SignedDecode("%" + CharToHex(c) + rest) == [c] + SignedDecode(rest)
  {
    var s := "%" + CharToHex(c) + rest;
    assert s[1..3] == CharToHex(c) && s[3..] == rest;
  }

  lemma FullByte(hex: string)
    requires hex == "FF"
    ensures SignedHexToChar(hex) < 0
  {
  }

  lemma SignedDecodeHigh(c: char, rest: string)
    requires 128 <= c as int < 256
    ensures SignedDecode("%FFFFFF" + CharToHex(c) + rest) == "%FFFFFF" + CharToHex(c) + SignedDecode(rest)
  {
    hide SignedHexToChar;
    var tail := "FFFF" + CharToHex(c);
    var s := "%FFFFFF" + CharToHex(c) + rest;
    assert s[1..3] == "FF" && s[3..] == tail + rest;
    FullByte(s[1..3]);
    SignedDecodePlain(tail, rest);
    assert "%FF" + (tail + SignedDecode(rest)) == "%FFFFFF" + CharToHex(c) + SignedDecode(rest);
  }

  lemma SignedDecodeEmpty()
    ensures SignedDecode("") == ""
  {
  }

  lemma PlainIsNoPercent(c: char)
    requires IsPlain(c)
    ensures c != '%'
  {
  }

  lemma {:induction false} SignedRoundTrip(s: string)
    requires IsBytes(s)
    ensures |SignedDecode(SignedEncode(s))| == |s| + 8 * HighBytes(s)
    ensures HighBytes(s) == 0 ==> SignedDecode(SignedEncode(s)) == s
  {
    hide SignedDecode, CharToHex, IsPlain;
    if s == "" {
      SignedDecodePlain("", "");
      SignedDecodeEmpty();
    } else {
      var rest := SignedEncode(s[1..]);
      SignedRoundTrip(s[1..]);
      if s[0] as int >= 128 {
        SignedDecodeHigh(s[0], rest);
      } else if IsPlain(s[0]) {
        PlainIsNoPercent(s[0]);
        SignedDecodePlain([s[0]], rest);
      } else {
        SignedDecodeEscape(s[0], rest);
      }
    }
  }

  lemma {:induction false} HighBytesNone(s: string)
    ensures HighBytes(s) == 0 <==> forall i :: 0 <= i < |s| ==> s[i] as int < 128
  {
    if s != "" {
      HighBytesNone(s[1..]);
      assert forall i :: 1 <= i < |s| ==> s[i] == s[1..][i - 1];
    }
  }

  /** There decoding undoes encoding if and only if every byte is below 0x80. */
  lemma SignedDecodeEncodeIff(s: string)
    requires IsBytes(s)
    ensures SignedDecode(SignedEncode(s)) == s <==> forall i :: 0 <= i < |s| ==> s[i] as int < 128
  {
    hide SignedDecode, SignedEncode;
    SignedRoundTrip(s);
    HighBytesNone(s);
  }
}
