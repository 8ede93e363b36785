/** Flow specifications: seven 32-bit numbers behind each other. Follows QosProperty.cpp and the number
    parsing of AString.cpp.
 */
module QosProperties {
  import opened AStrings
  import P = ImsProperties

  const UINT_MAX := 0xFFFF_FFFF
  const TWO_TO_32 := 0x1_0000_0000

  // ---- numbers --------------------------------------------------------------------------------

  predicate AllDigits(s: string) {
    forall i :: 0 <= i < |s| ==> IsDigit(s[i])
  }

  function Value(s: string): nat
    requires AllDigits(s)
  {
    if s == "" then 0 else 10 * Value(s[..|s| - 1]) + (s[|s| - 1] as int - '0' as int)
  }

  function SkipSpace(s: string): string {
    if s != "" && IsSpace(s[0]) then SkipSpace(s[1..]) else s
  }

  /** ToUInt32 in base 10: white space, a plus sign, digits, and nothing after them but a NUL. A minus
      sign and a value above 32 bits are refused; a text that starts with NUL is zero. */
  function ToUInt32(s: string): (r: Option<nat>)
    ensures r.Some? ==> r.value <= UINT_MAX
  {
    var t := SkipSpace(CStr(s));
    var digits := if t != "" && t[0] == '+' then t[1..] else t;
    if s == "" then None
    else if CStr(s) == "" then Some(0)
    else if digits == "" || !AllDigits(digits) || Value(digits) > UINT_MAX then None
    else Some(Value(digits))
  }

  /** The decimal text of a number, without leading zeros. */
  function Decimal(n: nat): (s: string)
    ensures s != "" && AllDigits(s) && Value(s) == n
  {
    var last := [('0' as int + n % 10) as char];
    if n < 10 then
      assert last[..0] == "";
      last
    else
      var s := Decimal(n / 10) + last;
      assert s[..|s| - 1] == Decimal(n / 10);
      s
  }

  // ---- what a text spells ---------------------------------------------------------------------

  /** White bytes, perhaps a sign, digits, and then the end or a NUL. */
  predicate Numeral(blank: string, sign: string, digits: string, tail: string) {
    && (forall i :: 0 <= i < |blank| ==> IsWhite(blank[i]))
    && (sign == "" || sign == "+" || sign == "-")
    && digits != "" && (forall i :: 0 <= i < |digits| ==> 48 <= digits[i] as int <= 57)
    && (tail == "" || tail[0] as int == 0)
  }

  /** The number of a run of digits, the most significant first. */
  function Read(digits: string): nat
    requires forall i :: 0 <= i < |digits| ==> 48 <= digits[i] as int <= 57
  {
    if digits == "" then 0 else 10 * Read(digits[..|digits| - 1]) + digits[|digits| - 1] as int - 48
  }

  lemma {:induction false} ValueIsRead(digits: string)
    requires forall i :: 0 <= i < |digits| ==> 48 <= digits[i] as int <= 57
    ensures AllDigits(digits) && Value(digits) == Read(digits)
  {
    if digits != "" {
      ValueIsRead(digits[..|digits| - 1]);
    }
  }

  lemma {:induction false} SkipBlank(blank: string, rest: string)
    requires forall i :: 0 <= i < |blank| ==> IsSpace(blank[i])
    requires rest == "" || !IsSpace(rest[0])
    ensures SkipSpace(blank + rest) == rest
  {
    if blank == "" {
      assert blank + rest == rest;
    } else {
      SkipBlank(blank[1..], rest);
      assert (blank + rest)[1..] == blank[1..] + rest;
    }
  }

  lemma {:induction false} CStrOf(head: string, tail: string)
    requires '\0' !in head && (tail == "" || tail[0] == '\0')
    ensures CStr(head + tail) == head
  {
    if head == "" {
      assert head + tail == tail;
    } else {
      CStrOf(head[1..], tail);
      assert (head + tail)[1..] == head[1..] + tail;
    }
  }

  lemma NumeralParts(blank: string, sign: string, digits: string, tail: string)
    requires Numeral(blank, sign, digits, tail)
    ensures CStr(blank + sign + digits + tail) == blank + sign + digits && blank + sign + digits != ""
    ensures SkipSpace(blank + sign + digits) == sign + digits
    ensures AllDigits(digits) && Value(digits) == Read(digits)
  {
    hide CStr, SkipSpace;
    CStrOf(blank + sign + digits, tail);
    assert (blank + sign + digits) + tail == blank + sign + digits + tail;
    var rest := sign + digits;
    assert rest[0] == if sign == "" then digits[0] else sign[0];
    SkipBlank(blank, rest);
    assert blank + rest == blank + sign + digits;
    ValueIsRead(digits);
  }

  lemma {:induction false} SkipCuts(s: string) returns (blank: string)
    ensures s == blank + SkipSpace(s) && forall i :: 0 <= i < |blank| ==> IsWhite(blank[i])
  {
    if s != "" && IsSpace(s[0]) {
      var b := SkipCuts(s[1..]);
      blank := [s[0]] + b;
      assert s == [s[0]] + s[1..];
      assert [s[0]] + (b + SkipSpace(s)) == blank + SkipSpace(s);
    } else {
      blank := "";
    }
  }

  /** A numeral without a minus sign is read as its number if that fits into 32 bits, and refused if not. */
  lemma ToUInt32Reads(blank: string, sign: string, digits: string, tail: string)
    requires Numeral(blank, sign, digits, tail) && sign != "-"
    ensures ToUInt32(blank + sign + digits + tail) ==
            if Read(digits) < 0x1_0000_0000 then Some(Read(digits)) else None
  {
    hide CStr, SkipSpace, Value, Read;
    NumeralParts(blank, sign, digits, tail);
    var t := sign + digits;
    assert sign == "+" ==> t[1..] == digits;
    assert sign == "" ==> t == digits;
  }

  /** A text is white bytes, what number parsing looks at, and what a NUL cuts off. */
  lemma TextParts(s: string) returns (blank: string, tail: string)
    ensures s == blank + SkipSpace(CStr(s)) + tail
    ensures forall i :: 0 <= i < |blank| ==> IsWhite(blank[i])
    ensures tail == "" || tail[0] as int == 0
  {
    hide SkipSpace, CStr;
    CStrCuts(s);
    blank := SkipCuts(CStr(s));
    tail := s[|CStr(s)|..];
    assert s == CStr(s) + tail;
  }

  lemma SignedDigits(blank: string, sign: string, digits: string, tail: string)
    requires forall i :: 0 <= i < |blank| ==> IsWhite(blank[i])
    requires sign == "" || sign == "+" || sign == "-"
    requires digits != "" && AllDigits(digits) && (tail == "" || tail[0] as int == 0)
    ensures Numeral(blank, sign, digits, tail)
  {
  }

  lemma NumberDigits(s: string)
    requires ToUInt32(s).Some? && (s == "" || s[0] as int != 0)
    ensures var t := SkipSpace(CStr(s));
            var digits := if t != "" && t[0] == '+' then t[1..] else t;
            digits != "" && AllDigits(digits)
  {
    hide SkipSpace, Value, AllDigits;
  }

  /** Only such numerals are read, apart from a text that starts with a NUL byte: it counts as zero. */
  lemma ToUInt32OnlyNumerals(s: string) returns (blank: string, sign: string, digits: string, tail: string)
    requires ToUInt32(s).Some? && (s == "" || s[0] as int != 0)
    ensures Numeral(blank, sign, digits, tail) && sign != "-" && s == blank + sign + digits + tail
  {
    hide ToUInt32, SkipSpace, Numeral, AllDigits, CStr;
    NumberDigits(s);
    blank, tail := TextParts(s);
    var t := SkipSpace(CStr(s));
    sign := if t != "" && t[0] == '+' then "+" else "";
    digits := if t != "" && t[0] == '+' then t[1..] else t;
    SignedDigits(blank, sign, digits, tail);
    assert t == sign + digits;
    assert blank + sign + digits == blank + (sign + digits);
  }

  /** Reading a printed number gives the number. */
  lemma ReadDecimal(n: nat)
    requires n <= UINT_MAX
    ensures ToUInt32(Decimal(n)) == Some(n) && P.IsWord(Decimal(n))
  {
    var s := Decimal(n);
    assert '\0' !in s;
    CStrWhole(s);
    assert IsDigit(s[0]);
  }

  function Signed(n: nat): int
    requires n <= UINT_MAX
  {
    if n < TWO_TO_32 / 2 then n else n - TWO_TO_32
  }

  function Unsigned(n: int): int {
    if n < 0 then n + TWO_TO_32 else n
  }

  predicate IsInt32(n: int) {
    -(TWO_TO_32 / 2) <= n < TWO_TO_32 / 2
  }

  // ---- flow specifications --------------------------------------------------------------------

  datatype QualityOfService = QualityOfService(averageRate: int, bufferSize: int, peakRate: int, delay: int,
    delayVariance: int, maxChunkSize: int, minimalPolicedSize: int)
  {
    function Fields(): seq<int> {
      [averageRate, bufferSize, peakRate, delay, delayVariance, maxChunkSize, minimalPolicedSize]
    }
  }

  predicate IsQos(q: QualityOfService) {
    forall i :: 0 <= i < 7 ==> IsInt32(q.Fields()[i])
  }

  function FromFields(f: seq<int>): QualityOfService
    requires |f| == 7
  {
    QualityOfService(f[0], f[1], f[2], f[3], f[4], f[5], f[6])
  }

  predicate AllNumbers(words: seq<string>) {
    forall i :: 0 <= i < |words| ==> ToUInt32(words[i]).Some?
  }

  /** The numbers as the signed temporaries hold them. */
  function Numbers(words: seq<string>): (r: seq<int>)
    requires AllNumbers(words)
    ensures |r| == |words| && forall i :: 0 <= i < |r| ==> r[i] == Signed(ToUInt32(words[i]).value)
  {
    seq(|words|, i requires 0 <= i < |words| => Signed(ToUInt32(words[i]).value))
  }

  /** What a text says: exactly seven numbers, or nothing. */
  function Parse(text: AString): Option<QualityOfService> {
    var words := P.Words(text.Bytes());
    if |words| == 7 && AllNumbers(words) then Some(FromFields(Numbers(words))) else None
  }

  /** The word is a number, and the field holds its 32 bits with the highest as the sign. */
  predicate FieldOf(field: int, word: string) {
    ToUInt32(word).Some? && -0x8000_0000 <= field < 0x8000_0000 && (field - ToUInt32(word).value) % 0x1_0000_0000 == 0
  }

  /** A text is a flow specification exactly if it has seven words and each is a number; the fields come in this
      order. */
  lemma ParseIff(text: AString)
    ensures Parse(text).Some? <==>
            && |P.Words(text.Bytes())| == 7
            && forall i :: 0 <= i < 7 ==> ToUInt32(P.Words(text.Bytes())[i]).Some?
    ensures Parse(text).Some? ==>
              var q, words := Parse(text).value, P.Words(text.Bytes());
              && FieldOf(q.averageRate, words[0]) && FieldOf(q.bufferSize, words[1]) && FieldOf(q.peakRate, words[2])
              && FieldOf(q.delay, words[3]) && FieldOf(q.delayVariance, words[4])
              && FieldOf(q.maxChunkSize, words[5]) && FieldOf(q.minimalPolicedSize, words[6])
  {
    hide ToUInt32, P.Words;
    var words := P.Words(text.Bytes());
    if Parse(text).Some? {
      forall i | 0 <= i < 7 ensures FieldOf(Numbers(words)[i], words[i]) {
      }
    }
  }

  /** GetQosString: the fields printed as unsigned numbers. */
  function Printed(q: QualityOfService): (words: seq<string>)
    requires IsQos(q)
    ensures |words| == 7
  {
    var f := q.Fields();
    seq(7, i requires 0 <= i < 7 => assert IsInt32(f[i]); Decimal(Unsigned(f[i])))
  }

  function GetQosString(q: QualityOfService): string
    requires IsQos(q)
  {
    P.Joined(Printed(q))
  }

  /** Printing and parsing again restores any seven 32-bit values, through the signed temporaries. */
  lemma ParsePrint(q: QualityOfService)
    requires IsQos(q)
    ensures Parse(Text(GetQosString(q))) == Some(q)
  {
    hide ToUInt32, Decimal, P.IsWord;
    var words, f := Printed(q), q.Fields();
    forall i | 0 <= i < 7
      ensures P.IsWord(words[i]) && ToUInt32(words[i]) == Some(Unsigned(f[i])) && Signed(Unsigned(f[i])) == f[i]
    {
      assert IsInt32(f[i]);
      ReadDecimal(Unsigned(f[i]));
    }
    P.DecodeEncode(words);
    assert Numbers(words) == f;
    assert FromFields(f) == q;
  }

  /** Whatever parses is 32-bit, so what was read can be printed and read again. */
  lemma ParsedIsQos(text: AString)
    requires Parse(text).Some?
    ensures IsQos(Parse(text).value) && Parse(Text(GetQosString(Parse(text).value))) == Parse(text)
  {
    hide ToUInt32, GetQosString;
    var q := Parse(text).value;
    var words := P.Words(text.Bytes());
    assert q.Fields() == Numbers(words);
    ParsePrint(q);
  }

  class QosProperty {
    const contentType: AString
    var qos: QualityOfService

    constructor (contentType: AString)
      ensures this.contentType == contentType
      ensures qos == QualityOfService(0, 0, 0, 0, 0, 0, 0)
    {
      this.contentType := contentType;
      qos := QualityOfService(0, 0, 0, 0, 0, 0, 0);
    }

    /** SetQos: a text that does not parse changes nothing. */
    method SetQos(value: AString) returns (ok: bool)
      modifies this
      ensures ok == Parse(value).Some?
      ensures qos == if ok then Parse(value).value else old(qos)
    {
      hide ToUInt32, P.Words;
      var words := P.Decode(value);
      if |words| != 7 {
        return false;
      }
      var values := new int[7](_ => 0);
      var i := 0;
      while i < |words|
        invariant 0 <= i <= 7 && qos == old(qos)
        invariant AllNumbers(words[..i]) && values[..i] == Numbers(words[..i])
      {
        var n := ToUInt32(words[i]);
        if n == None {
          assert !AllNumbers(words);
          return false;
        }
        assert words[..i + 1] == words[..i] + [words[i]];
        values[i] := Signed(n.value);
        i := i + 1;
      }
      assert words[..i] == words && values[..] == values[..i];
      qos := QualityOfService(values[0], values[1], values[2], values[3], values[4], values[5], values[6]);
      assert qos == FromFields(values[..]);
      ok := true;
    }
  }
}
