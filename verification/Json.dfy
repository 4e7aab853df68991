/** JSON text: a compact printer laid out as JSON.stringify does and a parser for the grammar of
    sections 2 to 7 of RFC 8259, proved inverse to each other. */
module Json {
  import opened Text

  /** A finite number: plus or minus 0.d1 d2 ... dk times ten to the power `point`. */
  datatype Number = Number(negative: bool, digits: string, point: int)
  {
    predicate Normal() {
      && AllDigits(digits)
      && if digits == "" then !negative && point == 0
         else digits[0] != '0' && digits[|digits| - 1] != '0'
    }
  }

  datatype Member = Member(key: string, value: Value)

  /** A JSON value; the members of an object are in property order. */
  datatype Value =
    | Null
    | Bool(truth: bool)
    | Num(number: Number)
    | Str(text: string)
    | Arr(items: seq<Value>)
    | Obj(members: seq<Member>)

  predicate DistinctKeys(members: seq<Member>) {
    forall i, j | 0 <= i < j < |members| :: members[i].key != members[j].key
  }

  /** Numbers are in normal form and no object repeats a key. */
  predicate WellFormed(v: Value) {
    match v
    case Num(n) => n.Normal()
    case Arr(items) => forall i | 0 <= i < |items| :: WellFormed(items[i])
    case Obj(members) =>
      DistinctKeys(members) && forall i | 0 <= i < |members| :: WellFormed(members[i].value)
    case _ => true
  }

  // --- printing -------------------------------------------------------------------------------
  // Every printer takes the text that follows what it prints, so texts are built from the right.

  function Zeros(n: nat): (z: string)
    ensures |z| == n && AllDigits(z) && forall i | 0 <= i < n :: z[i] == '0'
  {
    seq(n, _ => '0')
  }

  /** The parts of a printed number: whole digits, fraction digits and a power of ten. */
  datatype Numeral = Numeral(whole: string, fraction: string, exponent: Option<int>)

  /** How Number::toString of ECMAScript lays a number out: plain digits, a decimal point, or a power of ten. */
  function NumeralOf(n: Number): (r: Numeral)
    requires n.Normal()
    ensures AllDigits(r.whole) && AllDigits(r.fraction)
    ensures r.whole != "" && (r.whole[0] == '0' ==> |r.whole| == 1)
  {
    var (d, p) := (n.digits, n.point);
    if d == "" then Numeral("0", "", None)
    else if |d| <= p <= 21 then Numeral(d + Zeros(p - |d|), "", None)
    else if 0 < p <= 21 then Numeral(d[..p], d[p..], None)
    else if -6 < p <= 0 then Numeral("0", Zeros(-p) + d, None)
    else Numeral(d[..1], d[1..], Some(p - 1))
  }

  function NumberThen(n: Number, rest: string): string
    requires n.Normal()
  {
    SignThen(n.negative, NumeralThen(NumeralOf(n), rest))
  }

  function SignThen(negative: bool, rest: string): string {
    if negative then "-" + rest else rest
  }

  function NumeralThen(n: Numeral, rest: string): string {
    n.whole + FractionThen(n.fraction, PowerThen(n.exponent, rest))
  }

  function FractionThen(fraction: string, rest: string): string {
    if fraction == "" then rest else "." + (fraction + rest)
  }

  function PowerThen(exponent: Option<int>, rest: string): string {
    match exponent
    case None => rest
    case Some(e) =>
      if e < 0 then "e" + ("-" + (NatText(-e) + rest)) else "e" + ("+" + (NatText(e) + rest))
  }

  function HexDigit(d: nat): char
    requires d < 16
  {
    "0123456789abcdef"[d]
  }

  /** The letter that follows the backslash in a two-character escape. */
  function ShortEscape(c: char): Option<char> {
    if c == '"' then Some('"')
    else if c == '\\' then Some('\\')
    else if c == '\U{0008}' then Some('b')
    else if c == '\U{000C}' then Some('f')
    else if c == '\n' then Some('n')
    else if c == '\r' then Some('r')
    else if c == '\t' then Some('t')
    else None
  }

  function CharThen(c: char, rest: string): string {
    match ShortEscape(c)
    case Some(letter) => "\\" + ([letter] + rest)
    case None =>
      if c < ' ' then "\\" + (['u', '0', '0', HexDigit(c as int / 16), HexDigit(c as int % 16)] + rest)
      else [c] + rest
  }

  /** The characters of a string literal, its closing quote and `rest`. */
  function CharsThen(s: string, rest: string): string {
    if s == "" then "\"" + rest else CharThen(s[0], CharsThen(s[1..], rest))
  }

  function ValueThen(v: Value, rest: string): string
    requires WellFormed(v)
    decreases v, 1
  {
    match v
    case Null => "null" + rest
    case Bool(b) => if b then "true" + rest else "false" + rest
    case Num(n) => NumberThen(n, rest)
    case Str(s) => "\"" + CharsThen(s, rest)
    case Arr(items) => "[" + if items == [] then "]" + rest else ItemsThen(items, rest)
    case Obj(members) => "{" + if members == [] then "}" + rest else MembersThen(members, rest)
  }

  /** One or more items, separated by commas, the closing bracket and `rest`. */
  function ItemsThen(items: seq<Value>, rest: string): string
    requires items != [] && forall i | 0 <= i < |items| :: WellFormed(items[i])
    decreases items, 0
  {
    ValueThen(items[0], if |items| == 1 then "]" + rest else "," + ItemsThen(items[1..], rest))
  }

  /** One or more members, separated by commas, the closing brace and `rest`. */
  function MembersThen(members: seq<Member>, rest: string): string
    requires members != [] && forall i | 0 <= i < |members| :: WellFormed(members[i].value)
    decreases members, 0
  {
    MemberThen(members[0], if |members| == 1 then "}" + rest else "," + MembersThen(members[1..], rest))
  }

  function MemberThen(m: Member, rest: string): string
    requires WellFormed(m.value)
    decreases m, 2
  {
    "\"" + CharsThen(m.key, ":" + ValueThen(m.value, rest))
  }

  /** JSON.stringify. */
  function Print(v: Value): string
    requires WellFormed(v)
  {
    ValueThen(v, "")
  }

  /** A character prints as itself, unless it is a quote, a backslash or a control character: then as an
      escape of two characters, or of six with small hexadecimal digits. */
  lemma PrintedChar(c: char)
    ensures var s := CharThen(c, "");
            if c >= ' ' && c != '"' && c != '\\' then s == [c]
            else if c in {'"', '\\', '\U{0008}', '\U{000C}', '\n', '\r', '\t'} then |s| == 2 && s[0] == '\\'
            else |s| == 6 && s[..4] == "\\u00" && forall i | 4 <= i < 6 :: '0' <= s[i] <= '9' || 'a' <= s[i] <= 'f'
  {
    var s := CharThen(c, "");
    if c < ' ' && ShortEscape(c).None? {
      assert s == ['\\', 'u', '0', '0', HexDigit(c as int / 16), HexDigit(c as int % 16)];
      assert s[..4] == ['\\', 'u', '0', '0'];
    } else if ShortEscape(c).None? {
      assert [c] + "" == [c];
    }
  }

  /** Where a number that is not zero is laid out with a power of ten, and where its decimal point is. */
  lemma NumberLayout(n: Number)
    requires n.Normal() && n.digits != ""
    ensures var r := NumeralOf(n);
            && r.exponent == (if -6 < n.point <= 21 then None else Some(n.point - 1))
            && |r.whole| == (if 0 < n.point <= 21 then n.point else 1)
            && (r.exponent.Some? ==> r.whole[0] != '0')
            && (r.fraction == "" || r.fraction[|r.fraction| - 1] != '0')
  {
  }

  // --- parsing --------------------------------------------------------------------------------

  /** A parsed value together with the text that follows it. */
  datatype Parsed<+T> = Failed | Ok(value: T, rest: string)

  predicate IsJsonSpace(c: char) {
    c == ' ' || c == '\t' || c == '\n' || c == '\r'
  }

  function SkipSpace(s: string): (r: string)
    ensures |r| <= |s|
  {
    if s != "" && IsJsonSpace(s[0]) then SkipSpace(s[1..]) else s
  }

  /** The longest prefix of digits, and what follows it. */
  function SpanDigits(s: string): (r: (string, string))
    ensures AllDigits(r.0) && s == r.0 + r.1
  {
    if s != "" && IsDigit(s[0]) then
      var (d, rest) := SpanDigits(s[1..]);
      (s[..1] + d, rest)
    else ("", s)
  }

  function StripTrailing(digits: string): (r: string)
    requires AllDigits(digits)
    ensures AllDigits(r) && |r| <= |digits| && (r == "" || (r[0] == digits[0] && r[|r| - 1] != '0'))
    ensures digits != "" && digits[0] != '0' ==> r != ""
  {
    if digits != "" && digits[|digits| - 1] == '0' then StripTrailing(digits[..|digits| - 1]) else digits
  }

  /** The normal form of a numeral's digits with the decimal point after `point` of them. */
  function Normalize(negative: bool, digits: string, point: int): (n: Number)
    requires AllDigits(digits)
    ensures n.Normal()
    decreases |digits|
  {
    if digits == "" then Number(false, "", 0)
    else if digits[0] == '0' then Normalize(negative, digits[1..], point - 1)
    else Number(negative, StripTrailing(digits), point)
  }

  function ParseFraction(s: string): (r: Parsed<string>)
    ensures r.Ok? ==> AllDigits(r.value) && |r.rest| <= |s|
  {
    if s != "" && s[0] == '.' then
      var (d, rest) := SpanDigits(s[1..]);
      if d == "" then Failed else Ok(d, rest)
    else Ok("", s)
  }

  function ParseExponent(s: string): (r: Parsed<int>)
    ensures r.Ok? ==> |r.rest| <= |s|
  {
    if s != "" && (s[0] == 'e' || s[0] == 'E') then
      var signed := |s| > 1 && (s[1] == '+' || s[1] == '-');
      var (d, rest) := SpanDigits(if signed then s[2..] else s[1..]);
      if d == "" then Failed
      else
        var e: int := NatValue(d);
        Ok(if signed && s[1] == '-' then -e else e, rest)
    else Ok(0, s)
  }

  function ParseNumber(s: string): (r: Parsed<Number>)
    ensures r.Ok? ==> r.value.Normal() && |r.rest| < |s|
  {
    if s != "" && s[0] == '-' then ParseMagnitude(true, s[1..]) else ParseMagnitude(false, s)
  }

  function ParseMagnitude(negative: bool, s: string): (r: Parsed<Number>)
    ensures r.Ok? ==> r.value.Normal() && |r.rest| < |s|
  {
    var (whole, afterWhole) := SpanDigits(s);
    if whole == "" || (whole[0] == '0' && |whole| > 1) then Failed
    else ParseDecimals(negative, whole, afterWhole)
  }

  /** The fraction and exponent after the whole digits of a numeral. */
  function ParseDecimals(negative: bool, whole: string, s: string): (r: Parsed<Number>)
    requires AllDigits(whole)
    ensures r.Ok? ==> r.value.Normal() && |r.rest| <= |s|
  {
    match ParseFraction(s)
    case Failed => Failed
    case Ok(fraction, afterFraction) =>
      match ParseExponent(afterFraction)
      case Failed => Failed
      case Ok(e, rest) => Ok(Normalize(negative, whole + fraction, |whole| + e), rest)
  }

  function HexValue(c: char): Option<nat> {
    if '0' <= c <= '9' then Some(c as int - '0' as int)
    else if 'a' <= c <= 'f' then Some(c as int - 'a' as int + 10)
    else if 'A' <= c <= 'F' then Some(c as int - 'A' as int + 10)
    else None
  }

  function ParseHex4(s: string): (r: Option<nat>)
    ensures r.Some? ==> |s| >= 4 && r.value < 0x10000
  {
    if |s| < 4 then None
    else
      match (HexValue(s[0]), HexValue(s[1]), HexValue(s[2]), HexValue(s[3]))
      case (Some(a), Some(b), Some(c), Some(d)) =>
        if a < 16 && b < 16 && c < 16 && d < 16 then Some(((a * 16 + b) * 16 + c) * 16 + d) else None
      case _ => None
  }

  /** The character a backslash escape stands for; `s` starts after the backslash. A pair of
      surrogate escapes stands for one character. */
  function ParseEscape(s: string): (r: Parsed<char>)
    ensures r.Ok? ==> |r.rest| < |s|
  {
    if s == "" then Failed
    else if s[0] == '"' || s[0] == '\\' || s[0] == '/' then Ok(s[0], s[1..])
    else if s[0] == 'b' then Ok('\U{0008}', s[1..])
    else if s[0] == 'f' then Ok('\U{000C}', s[1..])
    else if s[0] == 'n' then Ok('\n', s[1..])
    else if s[0] == 'r' then Ok('\r', s[1..])
    else if s[0] == 't' then Ok('\t', s[1..])
    else if s[0] == 'u' then
      match ParseHex4(s[1..])
      case None => Failed
      case Some(code) =>
        if code < 0xD800 || 0xE000 <= code then Ok(code as char, s[5..])
        else if code < 0xDC00 && |s| > 6 && s[5] == '\\' && s[6] == 'u' then
          match ParseHex4(s[7..])
          case None => Failed
          case Some(low) =>
            if 0xDC00 <= low < 0xE000 then
              Ok((0x10000 + (code - 0xD800) * 0x400 + (low - 0xDC00)) as char, s[11..])
            else Failed
        else Failed
    else Failed
  }

  /** The rest of a string literal; `s` starts after the opening quote. */
  function ParseChars(s: string): (r: Parsed<string>)
    ensures r.Ok? ==> |r.rest| < |s|
    decreases |s|
  {
    if s == "" || s[0] < ' ' then Failed
    else if s[0] == '"' then Ok("", s[1..])
    else if s[0] == '\\' then
      match ParseEscape(s[1..])
      case Failed => Failed
      case Ok(c, after) => Prepend(c, ParseChars(after))
    else Prepend(s[0], ParseChars(s[1..]))
  }

  function Prepend(c: char, r: Parsed<string>): Parsed<string> {
    match r
    case Failed => Failed
    case Ok(text, rest) => Ok([c] + text, rest)
  }

  /** JSON.parse keeps a repeated key where it first stood, with the value given last. */
  function AddMember(m: Member, later: seq<Member>): (r: seq<Member>)
    requires DistinctKeys(later) && WellFormed(m.value)
    requires forall i | 0 <= i < |later| :: WellFormed(later[i].value)
    ensures DistinctKeys(r) && forall i | 0 <= i < |r| :: WellFormed(r[i].value)
    ensures (forall i | 0 <= i < |later| :: later[i].key != m.key) ==> r == [m] + later
  {
    if i :| 0 <= i < |later| && later[i].key == m.key then
      [later[i]] + later[..i] + later[i + 1..]
    else [m] + later
  }

  predicate StartsWith(s: string, prefix: string) {
    |prefix| <= |s| && s[..|prefix|] == prefix
  }

  function ParseValue(text: string): (r: Parsed<Value>)
    ensures r.Ok? ==> |r.rest| < |text| && WellFormed(r.value)
    decreases |text|, 3
  {
    var s := SkipSpace(text);
    if s == "" then Failed
    else if s[0] == '[' then ParseArray(s)
    else if s[0] == '{' then ParseObject(s)
    else ParseScalar(s)
  }

  /** A literal, a number or a string. */
  function ParseScalar(s: string): (r: Parsed<Value>)
    requires s != ""
    ensures r.Ok? ==> |r.rest| < |s| && WellFormed(r.value)
  {
    if s[0] == '"' then
      match ParseChars(s[1..])
      case Failed => Failed
      case Ok(t, rest) => Ok(Str(t), rest)
    else if s[0] == 't' then if StartsWith(s, "true") then Ok(Bool(true), s[4..]) else Failed
    else if s[0] == 'f' then if StartsWith(s, "false") then Ok(Bool(false), s[5..]) else Failed
    else if s[0] == 'n' then if StartsWith(s, "null") then Ok(Null, s[4..]) else Failed
    else AsValue(ParseNumber(s))
  }

  function AsValue(r: Parsed<Number>): Parsed<Value> {
    match r
    case Failed => Failed
    case Ok(n, rest) => Ok(Num(n), rest)
  }

  function ParseArray(s: string): (r: Parsed<Value>)
    requires s != ""
    ensures r.Ok? ==> |r.rest| < |s| && WellFormed(r.value)
    decreases |s|, 2
  {
    var inside := SkipSpace(s[1..]);
    if inside != "" && inside[0] == ']' then Ok(Arr([]), inside[1..])
    else
      match ParseItems(s[1..])
      case Failed => Failed
      case Ok(items, rest) => Ok(Arr(items), rest)
  }

  function ParseObject(s: string): (r: Parsed<Value>)
    requires s != ""
    ensures r.Ok? ==> |r.rest| < |s| && WellFormed(r.value)
    decreases |s|, 2
  {
    var inside := SkipSpace(s[1..]);
    if inside != "" && inside[0] == '}' then Ok(Obj([]), inside[1..])
    else
      match ParseMembers(s[1..])
      case Failed => Failed
      case Ok(members, rest) => Ok(Obj(members), rest)
  }

  /** One or more array items up to and including the closing bracket. */
  function ParseItems(s: string): (r: Parsed<seq<Value>>)
    ensures r.Ok? ==> |r.rest| < |s| && forall i | 0 <= i < |r.value| :: WellFormed(r.value[i])
    decreases |s|, 4
  {
    match ParseValue(s)
    case Failed => Failed
    case Ok(v, after) =>
      var next := SkipSpace(after);
      if next != "" && next[0] == ']' then Ok([v], next[1..])
      else if next != "" && next[0] == ',' then
        match ParseItems(next[1..])
        case Failed => Failed
        case Ok(items, rest) => Ok([v] + items, rest)
      else Failed
  }

  /** One or more object members up to and including the closing brace. */
  function ParseMembers(s: string): (r: Parsed<seq<Member>>)
    ensures r.Ok? ==>
              && |r.rest| < |s| && DistinctKeys(r.value)
              && forall i | 0 <= i < |r.value| :: WellFormed(r.value[i].value)
    decreases |s|, 4
  {
    var quoted := SkipSpace(s);
    if quoted == "" || quoted[0] != '"' then Failed
    else
      match ParseChars(quoted[1..])
      case Failed => Failed
      case Ok(key, afterKey) =>
        var colon := SkipSpace(afterKey);
        if colon == "" || colon[0] != ':' then Failed
        else
          match ParseValue(colon[1..])
          case Failed => Failed
          case Ok(v, after) =>
            var next := SkipSpace(after);
            if next != "" && next[0] == '}' then Ok([Member(key, v)], next[1..])
            else if next != "" && next[0] == ',' then
              match ParseMembers(next[1..])
              case Failed => Failed
              case Ok(members, rest) => Ok(AddMember(Member(key, v), members), rest)
            else Failed
  }

  /** JSON.parse: the whole text is one value. */
  function Parse(text: string): (r: Option<Value>)
    ensures r.Some? ==> WellFormed(r.value)
  {
    match ParseValue(text)
    case Failed => None
    case Ok(v, rest) => if SkipSpace(rest) == "" then Some(v) else None
  }

  // --- the two are inverse --------------------------------------------------------------------

  /** Text that cannot lengthen a number it follows. */
  predicate EndsNumber(rest: string) {
    rest == "" || !(IsDigit(rest[0]) || rest[0] == '.' || rest[0] == 'e' || rest[0] == 'E')
  }

  lemma {:induction false} SpanDigitsOf(digits: string, rest: string)
    requires AllDigits(digits) && (rest == "" || !IsDigit(rest[0]))
    ensures SpanDigits(digits + rest) == (digits, rest)
  {
    if digits == "" {
      assert digits + rest == rest;
    } else {
      SpanDigitsOf(digits[1..], rest);
      assert (digits + rest)[1..] == digits[1..] + rest;
      assert (digits + rest)[..1] + digits[1..] == digits;
    }
  }

  lemma {:induction false} NormalizeZeros(negative: bool, zeros: nat, digits: string, point: int)
    requires Number(negative, digits, point).Normal() && digits != ""
    ensures Normalize(negative, Zeros(zeros) + digits, point + zeros) == Number(negative, digits, point)
  {
    if zeros == 0 {
      assert Zeros(0) + digits == digits;
    } else {
      NormalizeZeros(negative, zeros - 1, digits, point);
      assert (Zeros(zeros) + digits)[1..] == Zeros(zeros - 1) + digits;
    }
  }

  lemma {:induction false} StripZeros(digits: string, zeros: nat)
    requires AllDigits(digits) && digits != "" && digits[|digits| - 1] != '0'
    ensures StripTrailing(digits + Zeros(zeros)) == digits
  {
    if zeros == 0 {
      assert digits + Zeros(0) == digits;
    } else {
      StripZeros(digits, zeros - 1);
      var s := digits + Zeros(zeros);
      assert s[..|s| - 1] == digits + Zeros(zeros - 1);
    }
  }

  lemma SignedDigits(sign: char, digits: string, rest: string)
    requires sign == '+' || sign == '-'
    requires digits != "" && SpanDigits(digits + rest) == (digits, rest) && AllDigits(digits)
    ensures ParseExponent("e" + ([sign] + (digits + rest)))
            == Ok(if sign == '-' then -(NatValue(digits) as int) else NatValue(digits), rest)
  {
    hide NatValue, SpanDigits, AllDigits;
    var s := "e" + ([sign] + (digits + rest));
    assert s[0] == 'e' && s[1] == sign && s[2..] == digits + rest;
  }

  lemma PowerRoundTrip(exponent: Option<int>, rest: string)
    requires EndsNumber(rest)
    ensures ParseExponent(PowerThen(exponent, rest)) == Ok(PowerOf(exponent), rest)
  {
    if exponent.Some? {
      var e := exponent.value;
      var n: nat := if e < 0 then -e else e;
      NatRoundTrip(n);
      SpanDigitsOf(NatText(n), rest);
      hide NatText, NatValue, ParseExponent, AllDigits, SpanDigits;
      SignedDigits(if e < 0 then '-' else '+', NatText(n), rest);
    }
  }

  function PowerOf(exponent: Option<int>): int {
    match exponent
    case None => 0
    case Some(e) => e
  }

  lemma PowerStart(exponent: Option<int>, rest: string)
    requires EndsNumber(rest)
    ensures var s := PowerThen(exponent, rest); s == "" || !(IsDigit(s[0]) || s[0] == '.')
  {
    hide NatText;
  }

  lemma FractionRoundTrip(fraction: string, tail: string)
    requires AllDigits(fraction) && (tail == "" || !(IsDigit(tail[0]) || tail[0] == '.'))
    ensures ParseFraction(FractionThen(fraction, tail)) == Ok(fraction, tail)
  {
    if fraction != "" {
      assert FractionThen(fraction, tail)[1..] == fraction + tail;
      SpanDigitsOf(fraction, tail);
    }
  }

  lemma FractionStart(fraction: string, tail: string)
    requires tail == "" || !IsDigit(tail[0])
    ensures var s := FractionThen(fraction, tail); s == "" || !IsDigit(s[0])
  {
  }

  lemma MagnitudeParse(negative: bool, whole: string, after: string)
    requires whole != "" && (whole[0] == '0' ==> |whole| == 1)
    requires AllDigits(whole) && SpanDigits(whole + after) == (whole, after)
    ensures ParseMagnitude(negative, whole + after) == ParseDecimals(negative, whole, after)
  {
    hide SpanDigits, ParseDecimals, AllDigits;
  }

  lemma DecimalsParse(negative: bool, whole: string, fraction: string, s: string, tail: string, e: int, rest: string)
    requires AllDigits(whole) && AllDigits(fraction)
    requires ParseFraction(s) == Ok(fraction, tail) && ParseExponent(tail) == Ok(e, rest)
    ensures ParseDecimals(negative, whole, s) == Ok(Normalize(negative, whole + fraction, |whole| + e), rest)
  {
    hide ParseFraction, ParseExponent, AllDigits, Normalize;
  }

  lemma SignedParse(negative: bool, body: string)
    requires body != "" && body[0] != '-'
    ensures ParseNumber(SignThen(negative, body)) == ParseMagnitude(negative, body)
  {
    hide ParseMagnitude;
    assert negative ==> SignThen(negative, body)[1..] == body;
  }

  lemma NumeralParse(negative: bool, r: Numeral, rest: string)
    requires AllDigits(r.whole) && AllDigits(r.fraction) && EndsNumber(rest)
    requires r.whole != "" && (r.whole[0] == '0' ==> |r.whole| == 1)
    ensures ParseNumber(SignThen(negative, NumeralThen(r, rest)))
            == Ok(Normalize(negative, r.whole + r.fraction, |r.whole| + PowerOf(r.exponent)), rest)
  {
    hide ParseNumber, ParseMagnitude, ParseDecimals, Normalize, SpanDigits, ParseExponent, ParseFraction, SignThen;
    var tail := PowerThen(r.exponent, rest);
    var middle := FractionThen(r.fraction, tail);
    PowerRoundTrip(r.exponent, rest);
    PowerStart(r.exponent, rest);
    FractionStart(r.fraction, tail);
    FractionRoundTrip(r.fraction, tail);
    SpanDigitsOf(r.whole, middle);
    MagnitudeParse(negative, r.whole, middle);
    DecimalsParse(negative, r.whole, r.fraction, middle, tail, PowerOf(r.exponent), rest);
    assert (r.whole + middle)[0] == r.whole[0] && IsDigit(r.whole[0]);
    SignedParse(negative, r.whole + middle);
    assert NumeralThen(r, rest) == r.whole + middle;
    hide *;
  }

  lemma NumeralValue(n: Number)
    requires n.Normal()
    ensures var r := NumeralOf(n);
            Normalize(n.negative, r.whole + r.fraction, |r.whole| + PowerOf(r.exponent)) == n
  {
    var (d, p) := (n.digits, n.point);
    var r := NumeralOf(n);
    var all := r.whole + r.fraction;
    if d == "" {
      assert all == "0";
    } else if |d| <= p <= 21 {
      assert all == d + Zeros(p - |d|);
      StripZeros(d, p - |d|);
    } else if -6 < p <= 0 {
      assert all == Zeros(1 - p) + d && 1 + PowerOf(r.exponent) == p + (1 - p);
      NormalizeZeros(n.negative, 1 - p, d, p);
      hide Normalize;
    } else {
      assert all == Zeros(0) + d && |r.whole| + PowerOf(r.exponent) == p;
      NormalizeZeros(n.negative, 0, d, p);
      hide Normalize;
    }
  }

  lemma NumberRoundTrip(n: Number, rest: string)
    requires n.Normal() && EndsNumber(rest)
    ensures ParseNumber(NumberThen(n, rest)) == Ok(n, rest)
  {
    hide ParseNumber, Normalize, NumeralOf, SignThen, NumeralThen, EndsNumber;
    NumeralParse(n.negative, NumeralOf(n), rest);
    NumeralValue(n);
  }

  lemma NumberStart(n: Number, rest: string)
    requires n.Normal()
    ensures var s := NumberThen(n, rest); s != "" && (s[0] == '-' || IsDigit(s[0]))
  {
    hide NumeralOf;
  }

  lemma CharRoundTrip(c: char, rest: string)
    ensures ParseChars(CharThen(c, rest)) == Prepend(c, ParseChars(rest))
  {
    match ShortEscape(c) {
      case Some(letter) =>
        ShortEscapeParse(c, rest);
        EscapeStep([letter] + rest, c, rest);
      case None =>
        if c < ' ' {
          HexEscapeParse(c, rest);
          EscapeStep(['u', '0', '0', HexDigit(c as int / 16), HexDigit(c as int % 16)] + rest, c, rest);
        } else {
          PlainStep(c, rest);
        }
    }
  }

  lemma EscapeStep(escape: string, c: char, rest: string)
    requires ParseEscape(escape) == Ok(c, rest)
    ensures ParseChars("\\" + escape) == Prepend(c, ParseChars(rest))
  {
    hide ParseEscape, Prepend;
    assert ("\\" + escape)[1..] == escape;
  }

  lemma PlainStep(c: char, rest: string)
    requires c >= ' ' && ShortEscape(c).None?
    ensures ParseChars([c] + rest) == Prepend(c, ParseChars(rest))
  {
    hide ParseEscape, Prepend;
    assert ([c] + rest)[1..] == rest;
  }

  lemma ShortEscapeParse(c: char, rest: string)
    requires ShortEscape(c).Some?
    ensures ParseEscape([ShortEscape(c).value] + rest) == Ok(c, rest)
  {
    hide ParseHex4;
    assert ([ShortEscape(c).value] + rest)[1..] == rest;
  }

  lemma HexEscapeParse(c: char, rest: string)
    requires c < ' '
    ensures ParseEscape(['u', '0', '0', HexDigit(c as int / 16), HexDigit(c as int % 16)] + rest) == Ok(c, rest)
  {
    var s := ['u', '0', '0', HexDigit(c as int / 16), HexDigit(c as int % 16)] + rest;
    HexRoundTrip(c as int);
    assert ParseHex4(s[1..]) == Some(c as int) by {
      assert s[1..][..4] == ['0', '0', HexDigit(c as int / 16), HexDigit(c as int % 16)];
      HexPrefix(s[1..]);
    }
    assert s[5..] == rest;
    hide ParseHex4, HexDigit;
  }

  lemma HexPrefix(s: string)
    requires |s| >= 4
    ensures ParseHex4(s) == ParseHex4(s[..4])
  {
    hide HexValue;
  }

  lemma HexRoundTrip(n: nat)
    requires n < 32
    ensures ParseHex4(['0', '0', HexDigit(n / 16), HexDigit(n % 16)]) == Some(n)
  {
    HexDigitValue(n / 16);
    HexDigitValue(n % 16);
    hide HexDigit;
  }

  lemma HexDigitValue(d: nat)
    requires d < 16
    ensures HexValue(HexDigit(d)) == Some(d)
  {
  }

  lemma {:induction false} CharsRoundTrip(t: string, rest: string)
    ensures ParseChars(CharsThen(t, rest)) == Ok(t, rest)
  {
    if t == "" {
      assert ("\"" + rest)[1..] == rest;
    } else {
      CharRoundTrip(t[0], CharsThen(t[1..], rest));
      CharsRoundTrip(t[1..], rest);
      hide CharThen, ParseChars;
      assert [t[0]] + t[1..] == t;
    }
  }

  /** Printing then parsing gives the value back and leaves the text that followed. */
  lemma {:induction false} ValueRoundTrip(v: Value, rest: string)
    requires WellFormed(v) && EndsNumber(rest)
    ensures ParseValue(ValueThen(v, rest)) == Ok(v, rest)
    decreases v, 1
  {
    hide ParseValue, ParseNumber, ParseChars, ParseItems, ParseMembers, NumberThen, CharsThen, EndsNumber;
    match v {
      case Null => LiteralRoundTrip(v, rest);
      case Bool(b) => LiteralRoundTrip(v, rest);
      case Num(n) => NumRoundTrip(n, rest);
      case Str(t) =>
        CharsRoundTrip(t, rest);
        StringDispatch(CharsThen(t, rest), t, rest);
      case Arr(items) =>
        if items == [] {
          EmptyArray(rest);
        } else {
          ItemsRoundTrip(items, rest);
          ValueStart(items[0], if |items| == 1 then "]" + rest else "," + ItemsThen(items[1..], rest));
          ArrayDispatch(ItemsThen(items, rest), items, rest);
        }
      case Obj(members) =>
        if members == [] {
          EmptyObject(rest);
        } else {
          MembersRoundTrip(members, rest);
          MembersStart(members, rest);
          ObjectDispatch(MembersThen(members, rest), members, rest);
        }
    }
  }

  /** No printed value starts with whitespace or with a closing bracket. */
  lemma ValueStart(v: Value, rest: string)
    requires WellFormed(v)
    ensures var s := ValueThen(v, rest); s != "" && !IsJsonSpace(s[0]) && s[0] != ']'
  {
    if v.Num? {
      NumberStart(v.number, rest);
    }
    hide NumberThen, CharsThen, ItemsThen, MembersThen;
  }

  lemma LiteralRoundTrip(v: Value, rest: string)
    requires v.Null? || v.Bool?
    ensures ParseValue(ValueThen(v, rest)) == Ok(v, rest)
  {
    var s := ValueThen(v, rest);
    assert v.Null? ==> s[..4] == "null" && s[4..] == rest;
    assert v == Bool(true) ==> s[..4] == "true" && s[4..] == rest;
    assert v == Bool(false) ==> s[..5] == "false" && s[5..] == rest;
    ScalarDispatch(s);
    hide ParseNumber, ParseChars;
  }

  lemma NumRoundTrip(n: Number, rest: string)
    requires n.Normal() && EndsNumber(rest)
    ensures ParseValue(NumberThen(n, rest)) == Ok(Num(n), rest)
  {
    hide ParseValue, ParseScalar, ParseNumber, NumberThen, EndsNumber;
    var s := NumberThen(n, rest);
    NumberStart(n, rest);
    NumberRoundTrip(n, rest);
    ScalarDispatch(s);
    NumberDispatch(s);
  }

  lemma ScalarDispatch(s: string)
    requires s != "" && !IsJsonSpace(s[0]) && s[0] != '[' && s[0] != '{'
    ensures ParseValue(s) == ParseScalar(s)
  {
    hide ParseScalar;
    assert SkipSpace(s) == s;
  }

  lemma NumberDispatch(s: string)
    requires s != "" && (s[0] == '-' || IsDigit(s[0]))
    ensures ParseScalar(s) == AsValue(ParseNumber(s))
  {
    hide ParseNumber, AsValue, ParseChars, StartsWith;
  }

  lemma StringDispatch(chars: string, t: string, rest: string)
    requires ParseChars(chars) == Ok(t, rest)
    ensures ParseValue("\"" + chars) == Ok(Str(t), rest)
  {
    hide ParseChars, ParseNumber;
    var s := "\"" + chars;
    assert s[1..] == chars;
    ScalarDispatch(s);
    hide ParseValue;
  }

  lemma EmptyArray(rest: string)
    ensures ParseValue("[" + ("]" + rest)) == Ok(Arr([]), rest)
  {
    hide ParseItems;
    var s := "[" + ("]" + rest);
    assert s[1..] == "]" + rest && ("]" + rest)[1..] == rest;
    assert SkipSpace(s) == s && SkipSpace(s[1..]) == s[1..];
  }

  lemma ArrayDispatch(inside: string, items: seq<Value>, rest: string)
    requires inside != "" && !IsJsonSpace(inside[0]) && inside[0] != ']'
    requires ParseItems(inside) == Ok(items, rest)
    ensures ParseValue("[" + inside) == Ok(Arr(items), rest)
  {
    hide ParseItems;
    var s := "[" + inside;
    assert s[1..] == inside;
    assert SkipSpace(s) == s && SkipSpace(inside) == inside;
  }

  lemma EmptyObject(rest: string)
    ensures ParseValue("{" + ("}" + rest)) == Ok(Obj([]), rest)
  {
    hide ParseMembers;
    var s := "{" + ("}" + rest);
    assert s[1..] == "}" + rest && ("}" + rest)[1..] == rest;
    assert SkipSpace(s) == s && SkipSpace(s[1..]) == s[1..];
  }

  lemma ObjectDispatch(inside: string, members: seq<Member>, rest: string)
    requires inside != "" && inside[0] == '"'
    requires ParseMembers(inside) == Ok(members, rest)
    ensures ParseValue("{" + inside) == Ok(Obj(members), rest)
  {
    hide ParseMembers;
    var s := "{" + inside;
    assert s[1..] == inside;
    assert SkipSpace(s) == s && SkipSpace(inside) == inside;
  }

  lemma DelimiterEndsNumber(c: char, rest: string)
    requires c == ',' || c == ']' || c == '}'
    ensures EndsNumber([c] + rest)
  {
  }

  lemma {:induction false} ItemsRoundTrip(items: seq<Value>, rest: string)
    requires items != [] && forall i | 0 <= i < |items| :: WellFormed(items[i])
    ensures ParseItems(ItemsThen(items, rest)) == Ok(items, rest)
    decreases items, 0
  {
    hide ParseItems, ParseValue, ValueThen, EndsNumber, WellFormed;
    var s := ItemsThen(items, rest);
    if |items| == 1 {
      DelimiterEndsNumber(']', rest);
      ValueRoundTrip(items[0], "]" + rest);
      LastItem(s, items[0], rest);
      assert [items[0]] == items;
    } else {
      var others := ItemsThen(items[1..], rest);
      DelimiterEndsNumber(',', others);
      ValueRoundTrip(items[0], "," + others);
      ItemsRoundTrip(items[1..], rest);
      NextItem(s, items[0], others, items[1..], rest);
      assert [items[0]] + items[1..] == items;
    }
  }

  lemma LastItem(s: string, v: Value, rest: string)
    requires ParseValue(s) == Ok(v, "]" + rest)
    ensures ParseItems(s) == Ok([v], rest)
  {
    hide ParseValue;
    assert ("]" + rest)[1..] == rest && SkipSpace("]" + rest) == "]" + rest;
  }

  lemma NextItem(s: string, v: Value, others: string, items: seq<Value>, rest: string)
    requires ParseValue(s) == Ok(v, "," + others) && ParseItems(others) == Ok(items, rest)
    ensures ParseItems(s) == Ok([v] + items, rest)
  {
    hide ParseValue;
    assert ("," + others)[1..] == others && SkipSpace("," + others) == "," + others;
  }

  lemma {:induction false} MembersRoundTrip(members: seq<Member>, rest: string)
    requires members != [] && DistinctKeys(members)
    requires forall i | 0 <= i < |members| :: WellFormed(members[i].value)
    ensures ParseMembers(MembersThen(members, rest)) == Ok(members, rest)
    decreases members, 0
  {
    var m := members[0];
    DistinctTail(members);
    hide ParseMembers, ParseValue, ValueThen, EndsNumber, WellFormed, DistinctKeys, CharsThen;
    hide MemberThen;
    if |members| == 1 {
      assert MembersThen(members, rest) == MemberThen(m, "}" + rest);
      hide MembersThen;
      DelimiterEndsNumber('}', rest);
      ValueRoundTrip(m.value, "}" + rest);
      LastMember(m, rest);
      assert [m] == members;
    } else {
      var others := MembersThen(members[1..], rest);
      assert MembersThen(members, rest) == MemberThen(m, "," + others);
      hide MembersThen;
      DelimiterEndsNumber(',', others);
      ValueRoundTrip(m.value, "," + others);
      MembersRoundTrip(members[1..], rest);
      NextMember(m, others, members[1..], rest);
      assert [m] + members[1..] == members;
    }
  }

  lemma MembersStart(members: seq<Member>, rest: string)
    requires members != [] && forall i | 0 <= i < |members| :: WellFormed(members[i].value)
    ensures var s := MembersThen(members, rest); s != "" && s[0] == '"'
  {
    hide ValueThen, CharsThen, WellFormed;
  }

  lemma DistinctTail(members: seq<Member>)
    requires members != [] && DistinctKeys(members)
    ensures DistinctKeys(members[1..])
    ensures forall i | 0 <= i < |members[1..]| :: members[1..][i].key != members[0].key
  {
  }

  /** What ParseMembers finds before the value of a member. */
  predicate KeyParses(s: string, key: string, value: string) {
    var quoted := SkipSpace(s);
    && quoted != "" && quoted[0] == '"' && ParseChars(quoted[1..]).Ok? && ParseChars(quoted[1..]).value == key
    && var colon := SkipSpace(ParseChars(quoted[1..]).rest);
       colon != "" && colon[0] == ':' && colon[1..] == value
  }

  lemma LastOfMembers(s: string, m: Member, value: string, after: string, rest: string)
    requires KeyParses(s, m.key, value) && ParseValue(value) == Ok(m.value, after) && SkipSpace(after) == "}" + rest
    ensures ParseMembers(s) == Ok([m], rest)
  {
    hide ParseValue, SkipSpace, ParseChars;
    assert ("}" + rest)[1..] == rest;
  }

  lemma NextOfMembers(s: string, m: Member, value: string, after: string, others: string, members: seq<Member>,
                      rest: string)
    requires KeyParses(s, m.key, value) && ParseValue(value) == Ok(m.value, after) && SkipSpace(after) == "," + others
    requires ParseMembers(others) == Ok(members, rest) && WellFormed(m.value)
    ensures ParseMembers(s) == Ok(AddMember(m, members), rest)
  {
    hide ParseValue, SkipSpace, ParseChars, AddMember;
    assert ("," + others)[1..] == others;
  }

  lemma MemberKey(m: Member, after: string)
    requires WellFormed(m.value) && ParseValue(ValueThen(m.value, after)) == Ok(m.value, after)
    ensures KeyParses(MemberThen(m, after), m.key, ValueThen(m.value, after))
  {
    hide ParseValue, ValueThen, MemberThen, ParseChars, SkipSpace, WellFormed;
    MemberParse(m, after);
    var keyed := ":" + ValueThen(m.value, after);
    assert ParseChars(MemberThen(m, after)[1..]).rest == keyed;
  }

  lemma LastMember(m: Member, rest: string)
    requires WellFormed(m.value)
    requires ParseValue(ValueThen(m.value, "}" + rest)) == Ok(m.value, "}" + rest)
    ensures ParseMembers(MemberThen(m, "}" + rest)) == Ok([m], rest)
  {
    assert SkipSpace("}" + rest) == "}" + rest;
    hide *;
    MemberKey(m, "}" + rest);
    LastOfMembers(MemberThen(m, "}" + rest), m, ValueThen(m.value, "}" + rest), "}" + rest, rest);
  }

  lemma NextMember(m: Member, others: string, members: seq<Member>, rest: string)
    requires WellFormed(m.value)
    requires ParseValue(ValueThen(m.value, "," + others)) == Ok(m.value, "," + others)
    requires ParseMembers(others) == Ok(members, rest)
    requires forall i | 0 <= i < |members| :: members[i].key != m.key
    ensures ParseMembers(MemberThen(m, "," + others)) == Ok([m] + members, rest)
  {
    assert SkipSpace("," + others) == "," + others;
    hide *;
    MemberKey(m, "," + others);
    NextOfMembers(MemberThen(m, "," + others), m, ValueThen(m.value, "," + others), "," + others, others, members,
                  rest);
  }

  /** One printed member, read up to what follows its value. */
  lemma MemberParse(m: Member, after: string)
    requires WellFormed(m.value) && ParseValue(ValueThen(m.value, after)) == Ok(m.value, after)
    ensures var keyed := ":" + ValueThen(m.value, after);
            var s := MemberThen(m, after);
            && SkipSpace(s) == s && s != "" && s[0] == '"' && ParseChars(s[1..]) == Ok(m.key, keyed)
            && SkipSpace(keyed) == keyed && keyed != "" && keyed[0] == ':' && keyed[1..] == ValueThen(m.value, after)
  {
    var keyed := ":" + ValueThen(m.value, after);
    CharsRoundTrip(m.key, keyed);
    hide ParseValue, ValueThen, ParseChars, CharsThen;
    assert MemberThen(m, after)[1..] == CharsThen(m.key, keyed);
    assert keyed[1..] == ValueThen(m.value, after);
  }

  /** JSON.parse undoes JSON.stringify on every well-formed value. */
  lemma ParsePrint(v: Value)
    requires WellFormed(v)
    ensures Parse(Print(v)) == Some(v)
  {
    ValueRoundTrip(v, "");
    hide ParseValue, ValueThen;
  }

  /** Different values have different texts. */
  lemma PrintInjective(v: Value, w: Value)
    requires WellFormed(v) && WellFormed(w) && Print(v) == Print(w)
    ensures v == w
  {
    hide Print, Parse;
    ParsePrint(v);
    ParsePrint(w);
  }
}
