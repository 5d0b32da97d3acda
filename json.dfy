/**
 * The subset of JSON text that the app writes to and reads from storage:
 * an array of flat objects whose members are strings or integers.
 *
 * `JSON.stringify` is modelled by the `Encode…` functions and `JSON.parse`
 * by the `Decode…` functions. A decoder returns `None` where `JSON.parse`
 * would throw; the round-trip lemmas say that what the encoder writes the
 * decoder reads back unchanged.
 */
module Json {
  import opened Wrappers

  datatype Value = Str(s: string) | Num(n: int)

  /** The members of one object, in the order they are written. */
  type Object = seq<(string, Value)>

  // ---------------------------------------------------------------- strings

  /** The lower-case hexadecimal digit for `d`. */
  function HexChar(d: nat): (c: char)
    requires d < 16
    ensures HexValue(c) == Some(d)
  {
    if d < 10 then (d + '0' as int) as char else (d - 10 + 'a' as int) as char
  }

  /** The value of a hexadecimal digit, in either case. */
  function HexValue(c: char): (r: Option<nat>)
    ensures r.Some? ==> r.value < 16 && '0' <= c
  {
    if '0' <= c <= '9' then Some(c as int - '0' as int)
    else if 'a' <= c <= 'f' then Some(c as int - 'a' as int + 10)
    else if 'A' <= c <= 'F' then Some(c as int - 'A' as int + 10)
    else None
  }

  /** The UTF-16 code unit that four hexadecimal digits denote. */
  function CodeUnit(h: string): (r: Option<nat>)
    requires |h| == 4
    ensures r.Some? ==> r.value < 0x1_0000
    ensures r.Some? ==> forall i :: 0 <= i < 4 ==> '0' <= h[i]
  {
    match (HexValue(h[0]), HexValue(h[1]), HexValue(h[2]), HexValue(h[3]))
    case (Some(a), Some(b), Some(c), Some(d)) => Some(((a * 16 + b) * 16 + c) * 16 + d)
    case _ => None
  }

  /**
   * What `JSON.stringify` writes for a character inside a string literal:
   * `"` and `\` are escaped, a control character (below U+0020) gets its
   * short escape or `\u00XX`, every other character is written as is.
   */
  function EscapeChar(c: char): (r: string)
    ensures |r| >= 1
    ensures r[0] == '\\' <==> c == '"' || c == '\\' || c < ' '
    ensures r[0] != '\\' ==> r == [c]
  {
    if c == '"' then "\\\""
    else if c == '\\' then "\\\\"
    else if c == '\U{0008}' then "\\b"
    else if c == '\U{000C}' then "\\f"
    else if c == '\n' then "\\n"
    else if c == '\r' then "\\r"
    else if c == '\t' then "\\t"
    else if c < ' ' then "\\u00" + [HexChar(c as int / 16), HexChar(c as int % 16)]
    else [c]
  }

  /**
   * Reads the escape sequence whose backslash has been consumed: the
   * character it stands for and how many characters of `t` it takes. The
   * short escapes of JSON and `\uXXXX` outside the surrogate range are
   * read; anything else is an error.
   */
  function ReadEscape(t: string): (r: Option<(char, nat)>)
    ensures r.Some? ==> 1 <= r.value.1 <= |t|
    ensures r.Some? ==> forall i :: 0 <= i < r.value.1 ==> t[i] >= ' '
  {
    if t == [] then None
    else if t[0] == '"' then Some(('"', 1))
    else if t[0] == '\\' then Some(('\\', 1))
    else if t[0] == '/' then Some(('/', 1))
    else if t[0] == 'b' then Some(('\U{0008}', 1))
    else if t[0] == 'f' then Some(('\U{000C}', 1))
    else if t[0] == 'n' then Some(('\n', 1))
    else if t[0] == 'r' then Some(('\r', 1))
    else if t[0] == 't' then Some(('\t', 1))
    else if t[0] == 'u' && |t| >= 5 then
      match CodeUnit(t[1..5])
      case Some(v) => if 0xD800 <= v < 0xE000 then None else Some((v as char, 5))
      case None => None
    else None
  }

  /** Every escape the encoder writes is read back as its character. */
  lemma ReadEscapeOfEscape(c: char, tail: string)
    requires EscapeChar(c)[0] == '\\'
    ensures ReadEscape(EscapeChar(c)[1..] + tail) == Some((c, |EscapeChar(c)| - 1))
  {
    if c < ' ' && c != '\U{0008}' && c != '\U{000C}' && c != '\n' && c != '\r' && c != '\t' {
      var hi, lo := c as int / 16, c as int % 16;
      var t := EscapeChar(c)[1..] + tail;
      assert t[1..5] == ['0', '0', HexChar(hi), HexChar(lo)];
      assert CodeUnit(t[1..5]) == Some(c as int);
    }
  }

  function Escape(s: string): string
  {
    if s == [] then [] else EscapeChar(s[0]) + Escape(s[1..])
  }

  function EncodeString(s: string): string
  {
    "\"" + Escape(s) + "\""
  }

  /**
   * Reads the rest of a string literal whose opening quote has been
   * consumed; returns the string and the text after its closing quote. A
   * raw control character, which `JSON.parse` refuses, is an error.
   */
  function DecodeStringBody(t: string): (r: Option<(string, string)>)
    ensures r.Some? ==> |r.value.1| < |t|
    ensures r.Some? ==> forall i :: 0 <= i < |t| - |r.value.1| ==> t[i] >= ' '
    ensures t != [] && t[0] < ' ' ==> r.None?
    decreases |t|
  {
    if t == [] then None
    else if t[0] == '"' then Some(([], t[1..]))
    else if t[0] == '\\' then
      match ReadEscape(t[1..])
      case None => None
      case Some((c, n)) =>
        match DecodeStringBody(t[1 + n..])
        case None => None
        case Some((s, rest)) => Some(([c] + s, rest))
    else if t[0] < ' ' then None
    else
      match DecodeStringBody(t[1..])
      case None => None
      case Some((s, rest)) => Some(([t[0]] + s, rest))
  }

  function DecodeString(t: string): (r: Option<(string, string)>)
    ensures r.Some? ==> |r.value.1| < |t|
  {
    if t != [] && t[0] == '"' then DecodeStringBody(t[1..]) else None
  }

  /** A string body that starts with an escape reads that escape's character, then the rest. */
  lemma DecodeStringBodyAtEscape(t: string, c: char, n: nat, s: string, rest: string)
    requires t != [] && t[0] == '\\' && ReadEscape(t[1..]) == Some((c, n))
    requires DecodeStringBody(t[1 + n..]) == Some((s, rest))
    ensures DecodeStringBody(t) == Some(([c] + s, rest))
  {
  }

  /** A string body that starts with an ordinary character reads it, then the rest. */
  lemma DecodeStringBodyAtChar(t: string, s: string, rest: string)
    requires t != [] && t[0] != '"' && t[0] != '\\' && t[0] >= ' '
    requires DecodeStringBody(t[1..]) == Some((s, rest))
    ensures DecodeStringBody(t) == Some(([t[0]] + s, rest))
  {
  }

  /** The escape of one character, then a body, reads as that character followed by the body's string. */
  lemma DecodeStringBodyOfEscapeChar(c: char, tail: string, s: string, rest: string)
    requires DecodeStringBody(tail) == Some((s, rest))
    ensures DecodeStringBody(EscapeChar(c) + tail) == Some(([c] + s, rest))
  {
    var e := EscapeChar(c);
    var t := e + tail;
    if e[0] == '\\' {
      ReadEscapeOfEscape(c, tail);
      assert t[1..] == e[1..] + tail;
      assert t[1 + (|e| - 1)..] == tail;
      DecodeStringBodyAtEscape(t, c, |e| - 1, s, rest);
    } else {
      assert t[0] == c && t[1..] == tail;
      DecodeStringBodyAtChar(t, s, rest);
    }
  }

  lemma {:induction false} DecodeStringBodyOfEscape(s: string, rest: string)
    ensures DecodeStringBody(Escape(s) + "\"" + rest) == Some((s, rest))
  {
    if s == [] {
      assert Escape(s) + "\"" + rest == "\"" + rest;
    } else {
      var tail := Escape(s[1..]) + "\"" + rest;
      assert Escape(s) + "\"" + rest == EscapeChar(s[0]) + tail;
      DecodeStringBodyOfEscape(s[1..], rest);
      DecodeStringBodyOfEscapeChar(s[0], tail, s[1..], rest);
      assert [s[0]] + s[1..] == s;
    }
  }

  lemma DecodeStringOfEncoded(s: string, rest: string)
    ensures DecodeString(EncodeString(s) + rest) == Some((s, rest))
  {
    var t := EncodeString(s) + rest;
    assert t[1..] == Escape(s) + "\"" + rest;
    DecodeStringBodyOfEscape(s, rest);
  }

  // ---------------------------------------------------------------- numbers

  predicate IsDigit(c: char)
  {
    '0' <= c <= '9'
  }

  predicate AllDigits(s: string)
  {
    forall i :: 0 <= i < |s| ==> IsDigit(s[i])
  }

  function DigitChar(d: nat): (c: char)
    requires d < 10
    ensures IsDigit(c)
  {
    (d + '0' as int) as char
  }

  /** The decimal numeral of `n`, without leading zeros. */
  function NatDigits(n: nat): (r: string)
    ensures |r| >= 1 && AllDigits(r)
    ensures r[0] == '0' <==> n == 0
    ensures n == 0 ==> r == "0"
    decreases n
  {
    if n < 10 then [DigitChar(n)] else NatDigits(n / 10) + [DigitChar(n % 10)]
  }

  /** The number a run of decimal digits denotes; the empty run denotes 0. */
  function DigitsValue(s: string): nat
    requires AllDigits(s)
  {
    if s == [] then 0
    else DigitsValue(s[..|s| - 1]) * 10 + (s[|s| - 1] as int - '0' as int)
  }

  lemma {:induction false} DigitsValueOfNatDigits(n: nat)
    ensures DigitsValue(NatDigits(n)) == n
    decreases n
  {
    if n >= 10 {
      var d := NatDigits(n);
      assert d[..|d| - 1] == NatDigits(n / 10);
      DigitsValueOfNatDigits(n / 10);
    }
  }

  /** The length of the run of digits that starts `t`. */
  function DigitSpan(t: string): (k: nat)
    ensures k <= |t|
    ensures AllDigits(t[..k])
    ensures k < |t| ==> !IsDigit(t[k])
  {
    if t == [] || !IsDigit(t[0]) then 0
    else
      var k := 1 + DigitSpan(t[1..]);
      assert t[..k] == [t[0]] + t[1..][..k - 1];
      k
  }

  /**
   * Reads the run of digits that starts `t`. JSON refuses a numeral with a
   * leading zero, so `0` followed by another digit is an error.
   */
  function DecodeNat(t: string): (r: Option<(nat, string)>)
    ensures r.Some? ==> |r.value.1| < |t|
    ensures r.Some? ==> EndsNumeral(r.value.1)
    ensures r.Some? ==> r.value.1 == t[DigitSpan(t)..]
    ensures r.Some? ==> t == NatDigits(r.value.0) + r.value.1
    ensures r.None? <==> DigitSpan(t) == 0 || (DigitSpan(t) >= 2 && t[0] == '0')
    ensures |t| >= 2 && t[0] == '0' && IsDigit(t[1]) ==> r.None?
  {
    var k := DigitSpan(t);
    if k == 0 || (k >= 2 && t[0] == '0') then None
    else
      NatDigitsOfDigitsValue(t[..k]);
      assert t == t[..k] + t[k..];
      Some((DigitsValue(t[..k]), t[k..]))
  }

  /** A run of digits without a leading zero is the numeral of the number it denotes. */
  lemma {:induction false} NatDigitsOfDigitsValue(s: string)
    requires |s| >= 1 && AllDigits(s) && (|s| >= 2 ==> s[0] != '0')
    ensures NatDigits(DigitsValue(s)) == s
    decreases |s|
  {
    var d := s[|s| - 1] as int - '0' as int;
    if |s| == 1 {
      assert DigitsValue(s) == DigitsValue([]) * 10 + d;
    } else {
      var init := s[..|s| - 1];
      NatDigitsOfDigitsValue(init);
      var v := DigitsValue(init);
      assert v != 0 by { assert NatDigits(v)[0] == s[0]; }
      assert DigitsValue(s) / 10 == v && DigitsValue(s) % 10 == d;
      assert s == init + [s[|s| - 1]];
    }
  }

  /** A numeral is read up to the first character that is not a digit. */
  predicate EndsNumeral(rest: string)
  {
    rest == [] || !IsDigit(rest[0])
  }

  lemma DecodeNatOfDigits(n: nat, rest: string)
    requires EndsNumeral(rest)
    ensures DecodeNat(NatDigits(n) + rest) == Some((n, rest))
  {
    var d := NatDigits(n);
    var t := d + rest;
    var k := DigitSpan(t);
    assert forall i :: 0 <= i < |d| ==> IsDigit(t[i]);
    assert |d| < |t| ==> !IsDigit(t[|d|]);
    assert k == |d|;
    assert t[..k] == d && t[k..] == rest;
    assert !(k >= 2 && t[0] == '0');
    DigitsValueOfNatDigits(n);
  }

  function EncodeInt(i: int): string
  {
    if i < 0 then "-" + NatDigits(-i) else NatDigits(i)
  }

  function DecodeInt(t: string): (r: Option<(int, string)>)
    ensures r.Some? ==> |r.value.1| < |t|
  {
    if t != [] && t[0] == '-' then
      match DecodeNat(t[1..])
      case None => None
      case Some((n, rest)) => Some((-(n as int), rest))
    else
      match DecodeNat(t)
      case None => None
      case Some((n, rest)) => Some((n as int, rest))
  }

  lemma DecodeIntOfNegative(n: nat, rest: string)
    requires n > 0 && EndsNumeral(rest)
    ensures DecodeInt("-" + NatDigits(n) + rest) == Some((-(n as int), rest))
  {
    var t := "-" + NatDigits(n) + rest;
    assert t[1..] == NatDigits(n) + rest;
    DecodeNatOfDigits(n, rest);
  }

  lemma DecodeIntOfNatural(n: nat, rest: string)
    requires EndsNumeral(rest)
    ensures DecodeInt(NatDigits(n) + rest) == Some((n, rest))
  {
    DecodeNatOfDigits(n, rest);
    assert (NatDigits(n) + rest)[0] == NatDigits(n)[0];
  }

  lemma DecodeIntOfEncoded(i: int, rest: string)
    requires EndsNumeral(rest)
    ensures DecodeInt(EncodeInt(i) + rest) == Some((i, rest))
  {
    if i < 0 {
      DecodeIntOfNegative(-i, rest);
    } else {
      DecodeIntOfNatural(i, rest);
    }
  }

  // ----------------------------------------------------------------- values

  function EncodeValue(v: Value): string
  {
    match v
    case Str(s) => EncodeString(s)
    case Num(n) => EncodeInt(n)
  }

  function DecodeValue(t: string): (r: Option<(Value, string)>)
    ensures r.Some? ==> |r.value.1| < |t|
  {
    if t != [] && t[0] == '"' then
      match DecodeString(t)
      case None => None
      case Some((s, rest)) => Some((Str(s), rest))
    else
      match DecodeInt(t)
      case None => None
      case Some((n, rest)) => Some((Num(n), rest))
  }

  lemma DecodeValueOfEncoded(v: Value, rest: string)
    requires EndsNumeral(rest)
    ensures DecodeValue(EncodeValue(v) + rest) == Some((v, rest))
  {
    match v
    case Str(s) =>
      DecodeStringOfEncoded(s, rest);
    case Num(n) =>
      var d := if n < 0 then -n else n;
      assert NatDigits(d)[0] != '"';
      DecodeIntOfEncoded(n, rest);
  }

  // ---------------------------------------------------------------- objects

  function EncodeMember(m: (string, Value)): string
  {
    EncodeString(m.0) + ":" + EncodeValue(m.1)
  }

  /** The members of a non-empty object, separated by commas. */
  function EncodeMembers(o: Object): string
    requires o != []
  {
    if |o| == 1 then EncodeMember(o[0]) else EncodeMember(o[0]) + "," + EncodeMembers(o[1..])
  }

  function EncodeObject(o: Object): string
  {
    if o == [] then "{}" else "{" + EncodeMembers(o) + "}"
  }

  /** Reads `"key":value` and what follows it. */
  function DecodeMember(t: string): (r: Option<((string, Value), string)>)
    ensures r.Some? ==> |r.value.1| < |t|
  {
    match DecodeString(t)
    case None => None
    case Some((key, afterKey)) =>
      if afterKey == [] || afterKey[0] != ':' then None
      else
        match DecodeValue(afterKey[1..])
        case None => None
        case Some((v, rest)) => Some(((key, v), rest))
  }

  /**
   * Reads the members of an object whose `{` has been consumed and which
   * has at least one member, up to and including its closing `}`.
   */
  function DecodeMembers(t: string): (r: Option<(Object, string)>)
    ensures r.Some? ==> |r.value.1| < |t|
    decreases |t|
  {
    match DecodeMember(t)
    case None => None
    case Some((m, rest)) =>
      if rest == [] then None
      else if rest[0] == '}' then Some(([m], rest[1..]))
      else if rest[0] == ',' then
        match DecodeMembers(rest[1..])
        case None => None
        case Some((ms, after)) => Some(([m] + ms, after))
      else None
  }

  function DecodeObject(t: string): (r: Option<(Object, string)>)
    ensures r.Some? ==> |r.value.1| < |t|
  {
    if t == [] || t[0] != '{' then None
    else if |t| >= 2 && t[1] == '}' then Some(([], t[2..]))
    else DecodeMembers(t[1..])
  }

  lemma DecodeMemberOfEncoded(m: (string, Value), rest: string)
    requires EndsNumeral(rest)
    ensures DecodeMember(EncodeMember(m) + rest) == Some((m, rest))
  {
    var valueText := EncodeValue(m.1) + rest;
    assert EncodeMember(m) + rest == EncodeString(m.0) + (":" + valueText);
    DecodeStringOfEncoded(m.0, ":" + valueText);
    assert (":" + valueText)[1..] == valueText;
    DecodeValueOfEncoded(m.1, rest);
  }

  /** The last member of an object is read up to the closing brace. */
  lemma DecodeMembersOfLast(m: (string, Value), rest: string)
    ensures DecodeMembers(EncodeMembers([m]) + "}" + rest) == Some(([m], rest))
  {
    var t := EncodeMembers([m]) + "}" + rest;
    assert t == EncodeMember(m) + ("}" + rest);
    DecodeMemberOfEncoded(m, "}" + rest);
    assert ("}" + rest)[1..] == rest;
  }

  lemma DecodeMembersAtComma(t: string, m: (string, Value), tail: string, ms: Object, rest: string)
    requires DecodeMember(t) == Some((m, "," + tail))
    requires DecodeMembers(tail) == Some((ms, rest))
    ensures DecodeMembers(t) == Some(([m] + ms, rest))
  {
    assert ("," + tail)[1..] == tail;
  }

  lemma Regroup(a: string, sep: string, b: string, close: string, rest: string)
    ensures a + sep + b + close + rest == a + (sep + (b + close + rest))
  {
  }

  lemma EncodeMembersSplit(o: Object, rest: string)
    requires |o| >= 2
    ensures EncodeMembers(o) + "}" + rest == EncodeMember(o[0]) + ("," + (EncodeMembers(o[1..]) + "}" + rest))
  {
    var head, tail := EncodeMember(o[0]), EncodeMembers(o[1..]);
    assert EncodeMembers(o) == head + "," + tail;
    Regroup(head, ",", tail, "}", rest);
  }

  /** A member followed by a comma is read, then the members after it. */
  lemma DecodeMembersOfCons(o: Object, rest: string)
    requires |o| >= 2
    requires DecodeMembers(EncodeMembers(o[1..]) + "}" + rest) == Some((o[1..], rest))
    ensures DecodeMembers(EncodeMembers(o) + "}" + rest) == Some((o, rest))
  {
    var tail := EncodeMembers(o[1..]) + "}" + rest;
    EncodeMembersSplit(o, rest);
    DecodeMemberOfEncoded(o[0], "," + tail);
    DecodeMembersAtComma(EncodeMember(o[0]) + ("," + tail), o[0], tail, o[1..], rest);
    assert [o[0]] + o[1..] == o;
  }

  lemma {:induction false} DecodeMembersOfEncoded(o: Object, rest: string)
    requires o != []
    ensures DecodeMembers(EncodeMembers(o) + "}" + rest) == Some((o, rest))
    decreases |o|
  {
    if |o| == 1 {
      assert o == [o[0]];
      DecodeMembersOfLast(o[0], rest);
    } else {
      DecodeMembersOfEncoded(o[1..], rest);
      DecodeMembersOfCons(o, rest);
    }
  }

  lemma DecodeObjectAtMembers(t: string, o: Object, rest: string)
    requires |t| >= 2 && t[0] == '{' && t[1] != '}'
    requires DecodeMembers(t[1..]) == Some((o, rest))
    ensures DecodeObject(t) == Some((o, rest))
  {
  }

  lemma DecodeObjectOfNonEmpty(o: Object, rest: string)
    requires o != []
    ensures DecodeObject(EncodeObject(o) + rest) == Some((o, rest))
  {
    var body := EncodeMembers(o) + "}" + rest;
    var t := "{" + body;
    assert EncodeObject(o) + rest == t;
    assert body[0] == '"' by {
      assert EncodeMembers(o)[0] == EncodeString(o[0].0)[0];
    }
    assert t[1..] == body;
    DecodeMembersOfEncoded(o, rest);
    DecodeObjectAtMembers(t, o, rest);
  }

  lemma DecodeObjectOfEncoded(o: Object, rest: string)
    ensures DecodeObject(EncodeObject(o) + rest) == Some((o, rest))
  {
    if o == [] {
      assert (EncodeObject(o) + rest)[2..] == rest;
    } else {
      DecodeObjectOfNonEmpty(o, rest);
    }
  }

  // ----------------------------------------------------------------- arrays

  /** The elements of a non-empty array of objects, separated by commas. */
  function EncodeElements(os: seq<Object>): string
    requires os != []
  {
    if |os| == 1 then EncodeObject(os[0]) else EncodeObject(os[0]) + "," + EncodeElements(os[1..])
  }

  function EncodeArray(os: seq<Object>): string
  {
    if os == [] then "[]" else "[" + EncodeElements(os) + "]"
  }

  /**
   * Reads the elements of an array whose `[` has been consumed and which
   * has at least one element, up to and including its closing `]`.
   */
  function DecodeElements(t: string): (r: Option<(seq<Object>, string)>)
    ensures r.Some? ==> |r.value.1| < |t|
    decreases |t|
  {
    match DecodeObject(t)
    case None => None
    case Some((o, rest)) =>
      if rest == [] then None
      else if rest[0] == ']' then Some(([o], rest[1..]))
      else if rest[0] == ',' then
        match DecodeElements(rest[1..])
        case None => None
        case Some((os, after)) => Some(([o] + os, after))
      else None
  }

  /** Parses a whole text as an array of objects; trailing text is an error. */
  function DecodeArray(t: string): (r: Option<seq<Object>>)
  {
    if t == "[]" then Some([])
    else if |t| < 2 || t[0] != '[' then None
    else
      match DecodeElements(t[1..])
      case Some((os, rest)) => if rest == [] then Some(os) else None
      case None => None
  }

  /** An array whose first object starts with a numeral written with a leading zero is refused. */
  lemma DecodeArrayOfLeadingZero(key: string, d: char, rest: string)
    requires IsDigit(d)
    ensures DecodeArray("[{" + EncodeString(key) + ":0" + [d] + rest) == None
  {
    var text := "[{" + EncodeString(key) + ":0" + [d] + rest;
    var value := "0" + [d] + rest;
    var members := EncodeString(key) + (":" + value);
    assert text[1..][1..] == members;
    DecodeStringOfEncoded(key, ":" + value);
    assert (":" + value)[1..] == value;
    assert value[0] == '0' && value[1] == d;
    assert DecodeInt(value) == None;
    assert DecodeMember(members) == None;
    assert DecodeObject(text[1..]) == None;
  }

  lemma DecodeElementsAtClose(t: string, o: Object, rest: string)
    requires DecodeObject(t) == Some((o, "]" + rest))
    ensures DecodeElements(t) == Some(([o], rest))
  {
    assert ("]" + rest)[1..] == rest;
  }

  lemma DecodeElementsAtComma(t: string, o: Object, tail: string, os: seq<Object>, rest: string)
    requires DecodeObject(t) == Some((o, "," + tail))
    requires DecodeElements(tail) == Some((os, rest))
    ensures DecodeElements(t) == Some(([o] + os, rest))
  {
    assert ("," + tail)[1..] == tail;
  }

  lemma DecodeElementsOfLast(o: Object, rest: string)
    ensures DecodeElements(EncodeElements([o]) + "]" + rest) == Some(([o], rest))
  {
    var t := EncodeElements([o]) + "]" + rest;
    assert t == EncodeObject(o) + ("]" + rest);
    DecodeObjectOfEncoded(o, "]" + rest);
    DecodeElementsAtClose(t, o, rest);
  }

  lemma EncodeElementsSplit(os: seq<Object>, rest: string)
    requires |os| >= 2
    ensures EncodeElements(os) + "]" + rest == EncodeObject(os[0]) + ("," + (EncodeElements(os[1..]) + "]" + rest))
  {
    var head, tail := EncodeObject(os[0]), EncodeElements(os[1..]);
    assert EncodeElements(os) == head + "," + tail;
    Regroup(head, ",", tail, "]", rest);
  }

  lemma DecodeElementsOfCons(os: seq<Object>, rest: string)
    requires |os| >= 2
    requires DecodeElements(EncodeElements(os[1..]) + "]" + rest) == Some((os[1..], rest))
    ensures DecodeElements(EncodeElements(os) + "]" + rest) == Some((os, rest))
  {
    var tail := EncodeElements(os[1..]) + "]" + rest;
    EncodeElementsSplit(os, rest);
    DecodeObjectOfEncoded(os[0], "," + tail);
    DecodeElementsAtComma(EncodeObject(os[0]) + ("," + tail), os[0], tail, os[1..], rest);
    assert [os[0]] + os[1..] == os;
  }

  lemma {:induction false} DecodeElementsOfEncoded(os: seq<Object>, rest: string)
    requires os != []
    ensures DecodeElements(EncodeElements(os) + "]" + rest) == Some((os, rest))
    decreases |os|
  {
    if |os| == 1 {
      assert os == [os[0]];
      DecodeElementsOfLast(os[0], rest);
    } else {
      DecodeElementsOfEncoded(os[1..], rest);
      DecodeElementsOfCons(os, rest);
    }
  }

  lemma DecodeArrayAtElements(t: string, os: seq<Object>)
    requires |t| >= 2 && t[0] == '[' && t != "[]"
    requires DecodeElements(t[1..]) == Some((os, []))
    ensures DecodeArray(t) == Some(os)
  {
  }

  /** What `EncodeArray` writes, `DecodeArray` reads back unchanged. */
  lemma DecodeArrayOfEncoded(os: seq<Object>)
    ensures DecodeArray(EncodeArray(os)) == Some(os)
  {
    if os != [] {
      var body := EncodeElements(os) + "]";
      var t := "[" + body;
      assert EncodeArray(os) == t;
      assert body[0] == '{' by {
        assert EncodeElements(os)[0] == EncodeObject(os[0])[0];
      }
      assert t[1..] == body;
      assert body == EncodeElements(os) + "]" + [];
      DecodeElementsOfEncoded(os, []);
      DecodeArrayAtElements(t, os);
    }
  }

  // ---------------------------------------------------------------- records

  /** Writes a list of records as an array with one object per record. */
  function EncodeRecords<T>(xs: seq<T>, toObject: T -> Object): string
  {
    EncodeArray(seq(|xs|, i requires 0 <= i < |xs| => toObject(xs[i])))
  }

  /** Converts every object to a record; fails if any one of them does not fit. */
  function FromObjects<T>(os: seq<Object>, fromObject: Object -> Option<T>): (r: Option<seq<T>>)
    ensures r.Some? ==> |r.value| == |os|
  {
    if os == [] then Some([])
    else
      match (fromObject(os[0]), FromObjects(os[1..], fromObject))
      case (Some(x), Some(xs)) => Some([x] + xs)
      case _ => None
  }

  function DecodeRecords<T>(t: string, fromObject: Object -> Option<T>): Option<seq<T>>
  {
    match DecodeArray(t)
    case None => None
    case Some(os) => FromObjects(os, fromObject)
  }

  lemma {:induction false} FromObjectsOfConverted<T>(xs: seq<T>, toObject: T -> Object, fromObject: Object -> Option<T>)
    requires forall x :: fromObject(toObject(x)) == Some(x)
    ensures FromObjects(seq(|xs|, i requires 0 <= i < |xs| => toObject(xs[i])), fromObject) == Some(xs)
  {
    var os := seq(|xs|, i requires 0 <= i < |xs| => toObject(xs[i]));
    if xs != [] {
      var tail := seq(|xs| - 1, i requires 0 <= i < |xs| - 1 => toObject(xs[1..][i]));
      assert os[1..] == tail;
      FromObjectsOfConverted(xs[1..], toObject, fromObject);
      assert fromObject(os[0]) == Some(xs[0]);
      assert [xs[0]] + xs[1..] == xs;
    }
  }

  /**
   * Records written with a conversion that the reverse conversion undoes
   * are read back unchanged.
   */
  lemma DecodeRecordsOfEncoded<T>(xs: seq<T>, toObject: T -> Object, fromObject: Object -> Option<T>)
    requires forall x :: fromObject(toObject(x)) == Some(x)
    ensures DecodeRecords(EncodeRecords(xs, toObject), fromObject) == Some(xs)
  {
    DecodeArrayOfEncoded(seq(|xs|, i requires 0 <= i < |xs| => toObject(xs[i])));
    FromObjectsOfConverted(xs, toObject, fromObject);
  }
}
