/** The grammar of JSON texts (sections 2 to 7 of RFC 8259) as trees with a text and a meaning. The parser
    of Json accepts exactly the texts of these trees, and answers their meaning. */
module JsonGrammar {
  import opened Text
  import opened Json

  /** A character of a string: itself, a two-character escape, or the code of one or two UTF-16 units. */
  datatype CharTree = Plain(c: char) | Escaped(letter: char) | Unit(hex: string) | Pair(high: string, low: string)

  datatype Exponent = Exponent(mark: char, sign: string, digits: string)

  /** A number; a fraction of no digits is none. */
  datatype NumberTree = NumberTree(negative: bool, whole: string, fraction: string, exponent: Option<Exponent>)

  datatype Tree =
    | NullTree
    | BoolTree(truth: bool)
    | NumTree(number: NumberTree)
    | StrTree(chars: seq<CharTree>)
    | ArrTree(elements: seq<Element>, blank: string)
    | ObjTree(members: seq<MemberTree>, blank: string)

  /** A value with the whitespace around it. A document is one element. */
  datatype Element = Element(before: string, tree: Tree, after: string)

  datatype MemberTree = MemberTree(before: string, key: seq<CharTree>, behindKey: string, element: Element)

  // --- which trees there are ------------------------------------------------------------------

  predicate IsBlank(s: string) {
    forall i | 0 <= i < |s| :: s[i] == ' ' || s[i] == '\t' || s[i] == '\n' || s[i] == '\r'
  }

  predicate IsHexDigit(c: char) {
    '0' <= c <= '9' || 'a' <= c <= 'f' || 'A' <= c <= 'F'
  }

  predicate IsHex(s: string) {
    |s| == 4 && forall i | 0 <= i < 4 :: IsHexDigit(s[i])
  }

  function DigitValue(c: char): (d: nat)
    requires IsHexDigit(c)
    ensures d < 16
  {
    if c <= '9' then c as int - '0' as int
    else if c <= 'F' then c as int - 'A' as int + 10
    else c as int - 'a' as int + 10
  }

  function Code(hex: string): (n: nat)
    requires IsHex(hex)
    ensures n < 0x10000
  {
    ((DigitValue(hex[0]) * 16 + DigitValue(hex[1])) * 16 + DigitValue(hex[2])) * 16 + DigitValue(hex[3])
  }

  /** What a letter behind a backslash stands for. */
  function Unescaped(letter: char): Option<char> {
    if letter == '"' || letter == '\\' || letter == '/' then Some(letter)
    else if letter == 'b' then Some('\U{0008}')
    else if letter == 'f' then Some('\U{000C}')
    else if letter == 'n' then Some('\n')
    else if letter == 'r' then Some('\r')
    else if letter == 't' then Some('\t')
    else None
  }

  predicate ValidChar(c: CharTree) {
    match c
    case Plain(c) => c >= ' ' && c != '"' && c != '\\'
    case Escaped(letter) => Unescaped(letter).Some?
    case Unit(hex) => IsHex(hex) && !(0xD800 <= Code(hex) < 0xE000)
    case Pair(high, low) => IsHex(high) && IsHex(low) && 0xD800 <= Code(high) < 0xDC00 <= Code(low) < 0xE000
  }

  predicate ValidChars(chars: seq<CharTree>) {
    forall i | 0 <= i < |chars| :: ValidChar(chars[i])
  }

  predicate ValidNumber(n: NumberTree) {
    && n.whole != "" && AllDigits(n.whole) && (n.whole[0] == '0' ==> |n.whole| == 1)
    && AllDigits(n.fraction)
    && (n.exponent.Some? ==> ValidExponent(n.exponent.value))
  }

  predicate ValidExponent(e: Exponent) {
    && (e.mark == 'e' || e.mark == 'E') && (e.sign == "" || e.sign == "+" || e.sign == "-")
    && e.digits != "" && AllDigits(e.digits)
  }

  predicate Valid(t: Tree) {
    match t
    case NumTree(n) => ValidNumber(n)
    case StrTree(chars) => ValidChars(chars)
    case ArrTree(elements, blank) => IsBlank(blank) && forall i | 0 <= i < |elements| :: ValidElement(elements[i])
    case ObjTree(members, blank) => IsBlank(blank) && forall i | 0 <= i < |members| :: ValidMember(members[i])
    case _ => true
  }

  predicate ValidElement(e: Element) {
    IsBlank(e.before) && Valid(e.tree) && IsBlank(e.after)
  }

  predicate ValidMember(m: MemberTree) {
    IsBlank(m.before) && ValidChars(m.key) && IsBlank(m.behindKey) && ValidElement(m.element)
  }

  // --- their texts, each in front of the text that follows ---------------------------------------

  function CharTreeThen(c: CharTree, rest: string): string {
    match c
    case Plain(c) => [c] + rest
    case Escaped(letter) => "\\" + ([letter] + rest)
    case Unit(hex) => "\\" + ("u" + (hex + rest))
    case Pair(high, low) => "\\" + ("u" + (high + ("\\" + ("u" + (low + rest)))))
  }

  /** The characters, the closing quote and `rest`. */
  function CharTreesThen(chars: seq<CharTree>, rest: string): string {
    if chars == [] then "\"" + rest else CharTreeThen(chars[0], CharTreesThen(chars[1..], rest))
  }

  function ExponentThen(exponent: Option<Exponent>, rest: string): string {
    match exponent
    case None => rest
    case Some(e) => [e.mark] + (e.sign + (e.digits + rest))
  }

  function NumberTreeThen(n: NumberTree, rest: string): string {
    SignThen(n.negative, n.whole + FractionThen(n.fraction, ExponentThen(n.exponent, rest)))
  }

  function TreeThen(t: Tree, rest: string): string
    decreases t, 1
  {
    match t
    case NullTree => "null" + rest
    case BoolTree(b) => if b then "true" + rest else "false" + rest
    case NumTree(n) => NumberTreeThen(n, rest)
    case StrTree(chars) => "\"" + CharTreesThen(chars, rest)
    case ArrTree(elements, blank) => "[" + if elements == [] then blank + ("]" + rest) else ElementsThen(elements, rest)
    case ObjTree(members, blank) => "{" + if members == [] then blank + ("}" + rest) else MemberTreesThen(members, rest)
  }

  function ElementThen(e: Element, rest: string): string
    decreases e, 2
  {
    e.before + TreeThen(e.tree, e.after + rest)
  }

  function ElementsThen(elements: seq<Element>, rest: string): string
    requires elements != []
    decreases elements, 0
  {
    ElementThen(elements[0], if |elements| == 1 then "]" + rest else "," + ElementsThen(elements[1..], rest))
  }

  function MemberTreeThen(m: MemberTree, rest: string): string
    decreases m, 3
  {
    m.before + ("\"" + CharTreesThen(m.key, m.behindKey + (":" + ElementThen(m.element, rest))))
  }

  function MemberTreesThen(members: seq<MemberTree>, rest: string): string
    requires members != []
    decreases members, 0
  {
    MemberTreeThen(members[0], if |members| == 1 then "}" + rest else "," + MemberTreesThen(members[1..], rest))
  }

  // --- their meanings -------------------------------------------------------------------------

  function CharMeaning(c: CharTree): char
    requires ValidChar(c)
  {
    match c
    case Plain(c) => c
    case Escaped(letter) => Unescaped(letter).value
    case Unit(hex) => Code(hex) as char
    case Pair(high, low) => (0x10000 + (Code(high) - 0xD800) * 0x400 + (Code(low) - 0xDC00)) as char
  }

  function CharsMeaning(chars: seq<CharTree>): string
    requires ValidChars(chars)
  {
    if chars == [] then "" else [CharMeaning(chars[0])] + CharsMeaning(chars[1..])
  }

  function ExponentMeaning(exponent: Option<Exponent>): int
    requires exponent.Some? ==> ValidExponent(exponent.value)
  {
    match exponent
    case None => 0
    case Some(e) => if e.sign == "-" then -(NatValue(e.digits) as int) else NatValue(e.digits)
  }

  function NumberMeaning(n: NumberTree): (r: Number)
    requires ValidNumber(n)
    ensures r.Normal()
  {
    Normalize(n.negative, n.whole + n.fraction, |n.whole| + ExponentMeaning(n.exponent))
  }

  function Meaning(t: Tree): (v: Value)
    requires Valid(t)
    ensures WellFormed(v)
    decreases t, 1
  {
    match t
    case NullTree => Null
    case BoolTree(b) => Bool(b)
    case NumTree(n) => Num(NumberMeaning(n))
    case StrTree(chars) => Str(CharsMeaning(chars))
    case ArrTree(elements, _) => Arr(ItemsMeaning(elements))
    case ObjTree(members, _) => Obj(MembersMeaning(members))
  }

  function ItemsMeaning(elements: seq<Element>): (items: seq<Value>)
    requires forall i | 0 <= i < |elements| :: ValidElement(elements[i])
    ensures |items| == |elements| && forall i | 0 <= i < |items| :: WellFormed(items[i])
    decreases elements, 0
  {
    if elements == [] then []
    else
      assert ValidElement(elements[0]);
      [Meaning(elements[0].tree)] + ItemsMeaning(elements[1..])
  }

  /** A repeated key keeps its first place and its last value. */
  function MembersMeaning(members: seq<MemberTree>): (r: seq<Member>)
    requires forall i | 0 <= i < |members| :: ValidMember(members[i])
    ensures DistinctKeys(r) && forall i | 0 <= i < |r| :: WellFormed(r[i].value)
    decreases members, 0
  {
    if members == [] then []
    else
      var m := members[0];
      assert ValidMember(m) && ValidElement(m.element);
      AddMember(Member(CharsMeaning(m.key), Meaning(m.element.tree)), MembersMeaning(members[1..]))
  }

  // --- every tree's text is accepted ------------------------------------------------------------

  lemma {:induction false} SkipBlank(blank: string, s: string)
    requires IsBlank(blank) && (s == "" || !IsJsonSpace(s[0]))
    ensures SkipSpace(blank + s) == s
  {
    if blank == "" {
      assert blank + s == s;
    } else {
      SkipBlank(blank[1..], s);
      assert (blank + s)[0] == blank[0] && (blank + s)[1..] == blank[1..] + s;
    }
  }

  lemma HexDigitParses(c: char)
    ensures IsHexDigit(c) <==> HexValue(c).Some?
    ensures IsHexDigit(c) ==> HexValue(c) == Some(DigitValue(c))
  {
  }

  lemma HexParses(hex: string, rest: string)
    requires IsHex(hex)
    ensures ParseHex4(hex + rest) == Some(Code(hex))
  {
    var s := hex + rest;
    assert s[0] == hex[0] && s[1] == hex[1] && s[2] == hex[2] && s[3] == hex[3];
    HexDigitParses(hex[0]);
    HexDigitParses(hex[1]);
    HexDigitParses(hex[2]);
    HexDigitParses(hex[3]);
    hide HexValue, DigitValue, IsHexDigit;
  }

  lemma UnitParses(hex: string, rest: string)
    requires IsHex(hex) && !(0xD800 <= Code(hex) < 0xE000)
    ensures ParseEscape("u" + (hex + rest)) == Ok(Code(hex) as char, rest)
  {
    var s := "u" + (hex + rest);
    assert s[1..] == hex + rest && s[5..] == rest;
    HexParses(hex, rest);
    hide ParseHex4, Code, IsHex;
  }

  lemma PairParses(high: string, low: string, rest: string)
    requires IsHex(high) && IsHex(low) && 0xD800 <= Code(high) < 0xDC00 <= Code(low) < 0xE000
    ensures ParseEscape("u" + (high + ("\\" + ("u" + (low + rest)))))
            == Ok((0x10000 + (Code(high) - 0xD800) * 0x400 + (Code(low) - 0xDC00)) as char, rest)
  {
    var tail := "\\" + ("u" + (low + rest));
    var s := "u" + (high + tail);
    assert s[1..] == high + tail && s[5] == '\\' && s[6] == 'u' && s[7..] == low + rest && s[11..] == rest;
    HexParses(high, tail);
    HexParses(low, rest);
    hide ParseHex4, Code, IsHex;
  }

  lemma EscapedParses(letter: char, rest: string)
    requires Unescaped(letter).Some?
    ensures ParseEscape([letter] + rest) == Ok(Unescaped(letter).value, rest)
  {
    assert ([letter] + rest)[1..] == rest;
    hide ParseHex4;
  }

  lemma PlainParses(c: char, rest: string)
    requires ValidChar(Plain(c))
    ensures ParseChars([c] + rest) == Prepend(c, ParseChars(rest))
  {
    hide ParseEscape, Prepend;
    assert ([c] + rest)[1..] == rest;
  }

  lemma CharTreeParses(c: CharTree, rest: string)
    requires ValidChar(c)
    ensures ParseChars(CharTreeThen(c, rest)) == Prepend(CharMeaning(c), ParseChars(rest))
  {
    hide ParseChars, Prepend, ParseEscape, Unescaped;
    match c {
      case Plain(p) => PlainParses(p, rest);
      case Escaped(letter) =>
        EscapedParses(letter, rest);
        EscapeStep([letter] + rest, CharMeaning(c), rest);
      case Unit(hex) =>
        UnitParses(hex, rest);
        EscapeStep("u" + (hex + rest), CharMeaning(c), rest);
      case Pair(high, low) =>
        PairParses(high, low, rest);
        EscapeStep("u" + (high + ("\\" + ("u" + (low + rest)))), CharMeaning(c), rest);
    }
  }

  lemma {:induction false} CharTreesParse(chars: seq<CharTree>, rest: string)
    requires ValidChars(chars)
    ensures ParseChars(CharTreesThen(chars, rest)) == Ok(CharsMeaning(chars), rest)
  {
    if chars == [] {
      assert ("\"" + rest)[1..] == rest;
    } else {
      hide ValidChar, CharTreeThen, CharMeaning, ParseChars;
      CharTreeParses(chars[0], CharTreesThen(chars[1..], rest));
      CharTreesParse(chars[1..], rest);
    }
  }

  lemma SignedExponent(e: Exponent, rest: string)
    requires ValidExponent(e) && e.sign != "" && SpanDigits(e.digits + rest) == (e.digits, rest)
    ensures ParseExponent([e.mark] + (e.sign + (e.digits + rest))) == Ok(ExponentMeaning(Some(e)), rest)
  {
    hide NatValue, SpanDigits, AllDigits;
    var s := [e.mark] + (e.sign + (e.digits + rest));
    assert s[0] == e.mark && s[1] == e.sign[0] && s[2..] == e.digits + rest;
  }

  lemma UnsignedExponent(e: Exponent, rest: string)
    requires ValidExponent(e) && e.sign == "" && SpanDigits(e.digits + rest) == (e.digits, rest)
    requires IsDigit(e.digits[0])
    ensures ParseExponent([e.mark] + (e.sign + (e.digits + rest))) == Ok(ExponentMeaning(Some(e)), rest)
  {
    hide NatValue, SpanDigits, AllDigits;
    var s := [e.mark] + (e.sign + (e.digits + rest));
    assert s[0] == e.mark && s[1] == e.digits[0] && s[1..] == e.digits + rest;
  }

  lemma ExponentParses(exponent: Option<Exponent>, rest: string)
    requires (exponent.Some? ==> ValidExponent(exponent.value)) && EndsNumber(rest)
    ensures ParseExponent(ExponentThen(exponent, rest)) == Ok(ExponentMeaning(exponent), rest)
    ensures var s := ExponentThen(exponent, rest); s == "" || !(IsDigit(s[0]) || s[0] == '.')
  {
    if exponent.Some? {
      var e := exponent.value;
      assert IsDigit(e.digits[0]);
      SpanDigitsOf(e.digits, rest);
      hide NatValue, SpanDigits, AllDigits, ParseExponent;
      if e.sign == "" {
        UnsignedExponent(e, rest);
      } else {
        SignedExponent(e, rest);
      }
    }
  }

  lemma DigitsParse(n: NumberTree, tail: string, e: int, rest: string)
    requires ValidNumber(n) && ParseExponent(tail) == Ok(e, rest)
    requires tail == "" || !(IsDigit(tail[0]) || tail[0] == '.')
    ensures var middle := FractionThen(n.fraction, tail);
            ParseMagnitude(n.negative, n.whole + middle)
            == Ok(Normalize(n.negative, n.whole + n.fraction, |n.whole| + e), rest)
  {
    var middle := FractionThen(n.fraction, tail);
    hide ParseMagnitude, ParseDecimals, Normalize, SpanDigits, ParseExponent, ParseFraction, FractionThen,
        ValidExponent;
    FractionStart(n.fraction, tail);
    FractionRoundTrip(n.fraction, tail);
    SpanDigitsOf(n.whole, middle);
    hide AllDigits;
    MagnitudeParse(n.negative, n.whole, middle);
    DecimalsParse(n.negative, n.whole, n.fraction, middle, tail, e, rest);
  }

  lemma WholeStart(n: NumberTree, middle: string)
    requires ValidNumber(n)
    ensures n.whole + middle != "" && (n.whole + middle)[0] != '-'
  {
    assert IsDigit(n.whole[0]) && (n.whole + middle)[0] == n.whole[0];
    hide ValidExponent;
  }

  lemma NumberTreeParses(n: NumberTree, rest: string)
    requires ValidNumber(n) && EndsNumber(rest)
    ensures ParseNumber(NumberTreeThen(n, rest)) == Ok(NumberMeaning(n), rest)
  {
    var tail := ExponentThen(n.exponent, rest);
    var middle := FractionThen(n.fraction, tail);
    hide ParseNumber, ParseMagnitude, Normalize, ParseExponent, FractionThen, ExponentThen, ValidExponent, AllDigits,
        SignThen, ExponentMeaning, EndsNumber;
    ExponentParses(n.exponent, rest);
    DigitsParse(n, tail, ExponentMeaning(n.exponent), rest);
    WholeStart(n, middle);
    SignedParse(n.negative, n.whole + middle);
  }

  lemma NumberTreeStart(n: NumberTree, rest: string)
    requires ValidNumber(n)
    ensures var s := NumberTreeThen(n, rest); s != "" && (s[0] == '-' || IsDigit(s[0]))
  {
    hide FractionThen, ExponentThen;
  }

  lemma TreeStart(t: Tree, rest: string)
    requires Valid(t)
    ensures var s := TreeThen(t, rest); s != "" && !IsJsonSpace(s[0]) && s[0] != ']'
  {
    if t.NumTree? {
      NumberTreeStart(t.number, rest);
    }
    hide NumberTreeThen, CharTreesThen, ElementsThen, MemberTreesThen;
  }

  lemma ElementStart(e: Element, rest: string)
    requires ValidElement(e)
    ensures SkipSpace(ElementThen(e, rest)) == TreeThen(e.tree, e.after + rest)
  {
    TreeStart(e.tree, e.after + rest);
    SkipBlank(e.before, TreeThen(e.tree, e.after + rest));
    hide SkipSpace, TreeThen;
  }

  /** A value is read from behind the whitespace. */
  lemma SameSkipped(a: string, b: string)
    requires SkipSpace(a) == SkipSpace(b)
    ensures ParseValue(a) == ParseValue(b)
  {
    hide SkipSpace, ParseScalar, ParseArray, ParseObject;
  }

  lemma BlankEndsNumber(blank: string, rest: string)
    requires IsBlank(blank) && EndsNumber(rest)
    ensures EndsNumber(blank + rest)
  {
    assert blank == "" ==> blank + rest == rest;
    assert blank != "" ==> IsJsonSpace(blank[0]);
  }

  lemma NumParses(n: NumberTree, rest: string)
    requires ValidNumber(n) && EndsNumber(rest)
    ensures ParseValue(NumberTreeThen(n, rest)) == Ok(Num(NumberMeaning(n)), rest)
  {
    hide ParseValue, ParseScalar, ParseNumber, NumberTreeThen, NumberMeaning, EndsNumber, ValidNumber;
    NumberTreeStart(n, rest);
    NumberTreeParses(n, rest);
    ScalarDispatch(NumberTreeThen(n, rest));
    NumberDispatch(NumberTreeThen(n, rest));
  }

  lemma EmptyArrayParses(blank: string, rest: string)
    requires IsBlank(blank)
    ensures ParseValue("[" + (blank + ("]" + rest))) == Ok(Arr([]), rest)
  {
    hide ParseItems, IsBlank;
    var s := "[" + (blank + ("]" + rest));
    assert s[1..] == blank + ("]" + rest) && ("]" + rest)[1..] == rest && SkipSpace(s) == s;
    SkipBlank(blank, "]" + rest);
  }

  lemma EmptyObjectParses(blank: string, rest: string)
    requires IsBlank(blank)
    ensures ParseValue("{" + (blank + ("}" + rest))) == Ok(Obj([]), rest)
  {
    hide ParseMembers, IsBlank;
    var s := "{" + (blank + ("}" + rest));
    assert s[1..] == blank + ("}" + rest) && ("}" + rest)[1..] == rest && SkipSpace(s) == s;
    SkipBlank(blank, "}" + rest);
  }

  lemma ArrayParses(inside: string, items: seq<Value>, rest: string)
    requires SkipSpace(inside) != "" && SkipSpace(inside)[0] != ']'
    requires ParseItems(inside) == Ok(items, rest)
    ensures ParseValue("[" + inside) == Ok(Arr(items), rest)
  {
    hide ParseItems;
    var s := "[" + inside;
    assert s[1..] == inside && SkipSpace(s) == s;
  }

  lemma ObjectParses(inside: string, members: seq<Member>, rest: string)
    requires SkipSpace(inside) != "" && SkipSpace(inside)[0] == '"'
    requires ParseMembers(inside) == Ok(members, rest)
    ensures ParseValue("{" + inside) == Ok(Obj(members), rest)
  {
    hide ParseMembers;
    var s := "{" + inside;
    assert s[1..] == inside && SkipSpace(s) == s;
  }

  /** The text of a tree, before any text that cannot lengthen a number, is read as the tree's meaning. */
  lemma {:induction false} TreeParses(t: Tree, rest: string)
    requires Valid(t) && EndsNumber(rest)
    ensures ParseValue(TreeThen(t, rest)) == Ok(Meaning(t), rest)
    decreases t, 1
  {
    hide ParseValue, ParseChars, ParseItems, ParseMembers, NumberTreeThen, CharTreesThen, CharsMeaning, EndsNumber,
        NumberMeaning, IsBlank, ValidNumber, ValidChars;
    match t {
      case NullTree => LiteralRoundTrip(Null, rest);
      case BoolTree(b) => LiteralRoundTrip(Bool(b), rest);
      case NumTree(n) => NumParses(n, rest);
      case StrTree(chars) =>
        CharTreesParse(chars, rest);
        StringDispatch(CharTreesThen(chars, rest), CharsMeaning(chars), rest);
      case ArrTree(elements, blank) =>
        if elements == [] {
          EmptyArrayParses(blank, rest);
        } else {
          ElementsParse(elements, rest);
          ElementsStart(elements, rest);
          ArrayParses(ElementsThen(elements, rest), ItemsMeaning(elements), rest);
        }
      case ObjTree(members, blank) =>
        if members == [] {
          EmptyObjectParses(blank, rest);
        } else {
          MemberTreesParse(members, rest);
          MembersFront(members, rest);
          ObjectParses(MemberTreesThen(members, rest), MembersMeaning(members), rest);
        }
    }
  }

  lemma ElementsStart(elements: seq<Element>, rest: string)
    requires elements != [] && forall i | 0 <= i < |elements| :: ValidElement(elements[i])
    ensures var s := SkipSpace(ElementsThen(elements, rest)); s != "" && s[0] != ']'
  {
    var (e, tail) := (elements[0], if |elements| == 1 then "]" + rest else "," + ElementsThen(elements[1..], rest));
    assert ValidElement(e) && Valid(e.tree);
    ElementStart(e, tail);
    TreeStart(e.tree, e.after + tail);
    hide SkipSpace, TreeThen;
  }

  lemma MembersFront(members: seq<MemberTree>, rest: string)
    requires members != [] && forall i | 0 <= i < |members| :: ValidMember(members[i])
    ensures var s := SkipSpace(MemberTreesThen(members, rest)); s != "" && s[0] == '"'
  {
    var (m, tail) := (members[0], if |members| == 1 then "}" + rest else "," + MemberTreesThen(members[1..], rest));
    assert ValidMember(m);
    SkipBlank(m.before, "\"" + CharTreesThen(m.key, m.behindKey + (":" + ElementThen(m.element, tail))));
    hide SkipSpace, CharTreesThen, ElementThen, ValidMember;
  }

  lemma {:induction false} ElementParses(e: Element, rest: string)
    requires ValidElement(e) && EndsNumber(rest)
    ensures ParseValue(ElementThen(e, rest)) == Ok(Meaning(e.tree), e.after + rest)
    decreases e, 2
  {
    BlankEndsNumber(e.after, rest);
    TreeParses(e.tree, e.after + rest);
    ElementStart(e, rest);
    TreeStart(e.tree, e.after + rest);
    hide ParseValue, TreeThen, ElementThen, Meaning, EndsNumber;
    assert SkipSpace(TreeThen(e.tree, e.after + rest)) == TreeThen(e.tree, e.after + rest);
    SameSkipped(ElementThen(e, rest), TreeThen(e.tree, e.after + rest));
  }

  lemma LastOfItems(s: string, v: Value, after: string, rest: string)
    requires ParseValue(s) == Ok(v, after) && SkipSpace(after) == "]" + rest
    ensures ParseItems(s) == Ok([v], rest)
  {
    hide ParseValue, SkipSpace;
    assert ("]" + rest)[1..] == rest;
  }

  lemma NextOfItems(s: string, v: Value, after: string, others: string, items: seq<Value>, rest: string)
    requires ParseValue(s) == Ok(v, after) && SkipSpace(after) == "," + others && ParseItems(others) == Ok(items, rest)
    ensures ParseItems(s) == Ok([v] + items, rest)
  {
    hide ParseValue, SkipSpace;
    assert ("," + others)[1..] == others;
  }

  lemma {:induction false} ElementsParse(elements: seq<Element>, rest: string)
    requires elements != [] && forall i | 0 <= i < |elements| :: ValidElement(elements[i])
    ensures ParseItems(ElementsThen(elements, rest)) == Ok(ItemsMeaning(elements), rest)
    decreases elements, 0
  {
    var (e, s) := (elements[0], ElementsThen(elements, rest));
    assert ValidElement(e) && IsBlank(e.after) && Valid(e.tree);
    hide ParseItems, ParseValue, ElementThen, Meaning, IsBlank, ValidElement, Valid;
    if |elements| == 1 {
      assert ItemsMeaning(elements[1..]) == [] && [Meaning(e.tree)] + [] == [Meaning(e.tree)];
      DelimiterEndsNumber(']', rest);
      SkipBlank(e.after, "]" + rest);
      hide EndsNumber, SkipSpace;
      ElementParses(e, "]" + rest);
      LastOfItems(s, Meaning(e.tree), e.after + ("]" + rest), rest);
    } else {
      var others := ElementsThen(elements[1..], rest);
      DelimiterEndsNumber(',', others);
      SkipBlank(e.after, "," + others);
      hide EndsNumber, SkipSpace;
      ElementParses(e, "," + others);
      ElementsParse(elements[1..], rest);
      NextOfItems(s, Meaning(e.tree), e.after + ("," + others), others, ItemsMeaning(elements[1..]), rest);
    }
  }

  lemma MemberKeyParses(m: MemberTree, rest: string)
    requires ValidMember(m)
    ensures KeyParses(MemberTreeThen(m, rest), CharsMeaning(m.key), ElementThen(m.element, rest))
  {
    var colon := ":" + ElementThen(m.element, rest);
    var quoted := "\"" + CharTreesThen(m.key, m.behindKey + colon);
    assert quoted[1..] == CharTreesThen(m.key, m.behindKey + colon) && colon[1..] == ElementThen(m.element, rest);
    SkipBlank(m.before, quoted);
    SkipBlank(m.behindKey, colon);
    CharTreesParse(m.key, m.behindKey + colon);
    hide SkipSpace, ParseChars, CharTreesThen, ElementThen, CharsMeaning;
  }

  lemma {:induction false} MemberTreesParse(members: seq<MemberTree>, rest: string)
    requires members != [] && forall i | 0 <= i < |members| :: ValidMember(members[i])
    ensures ParseMembers(MemberTreesThen(members, rest)) == Ok(MembersMeaning(members), rest)
    decreases members, 0
  {
    var (m, s) := (members[0], MemberTreesThen(members, rest));
    var e := m.element;
    assert ValidMember(m) && ValidElement(e) && IsBlank(e.after) && Valid(e.tree);
    var member := Member(CharsMeaning(m.key), Meaning(e.tree));
    assert MembersMeaning(members) == AddMember(member, MembersMeaning(members[1..]));
    hide ParseMembers, ParseValue, ElementThen, MemberTreeThen, Meaning, CharsMeaning, IsBlank, ValidElement, Valid,
        ValidMember, KeyParses, AddMember;
    if |members| == 1 {
      assert s == MemberTreeThen(m, "}" + rest) && MembersMeaning(members[1..]) == [];
      assert AddMember(member, []) == [member] + [] == [member];
      DelimiterEndsNumber('}', rest);
      SkipBlank(e.after, "}" + rest);
      hide EndsNumber, SkipSpace, MemberTreesThen, MembersMeaning;
      MemberKeyParses(m, "}" + rest);
      ElementParses(e, "}" + rest);
      LastOfMembers(s, member, ElementThen(e, "}" + rest), e.after + ("}" + rest), rest);
    } else {
      var others := MemberTreesThen(members[1..], rest);
      assert s == MemberTreeThen(m, "," + others);
      DelimiterEndsNumber(',', others);
      SkipBlank(e.after, "," + others);
      hide EndsNumber, SkipSpace, MemberTreesThen, MembersMeaning;
      MemberKeyParses(m, "," + others);
      ElementParses(e, "," + others);
      MemberTreesParse(members[1..], rest);
      NextOfMembers(s, member, ElementThen(e, "," + others), e.after + ("," + others), others,
                    MembersMeaning(members[1..]), rest);
    }
  }

  // --- every accepted text is a tree's ------------------------------------------------------------

  lemma {:induction false} BlankFront(s: string) returns (blank: string)
    ensures IsBlank(blank) && s == blank + SkipSpace(s)
  {
    if s != "" && IsJsonSpace(s[0]) {
      blank := BlankFront(s[1..]);
      blank := [s[0]] + blank;
    } else {
      blank := "";
    }
  }

  lemma HexOf(s: string)
    requires ParseHex4(s).Some?
    ensures |s| >= 4 && IsHex(s[..4]) && ParseHex4(s) == Some(Code(s[..4])) && s == s[..4] + s[4..]
  {
    HexDigitParses(s[0]);
    HexDigitParses(s[1]);
    HexDigitParses(s[2]);
    HexDigitParses(s[3]);
    hide HexValue, DigitValue, IsHexDigit;
  }

  /** The escape behind a backslash. */
  lemma EscapeOf(s: string) returns (c: CharTree)
    requires ParseEscape(s).Ok?
    ensures ValidChar(c) && CharMeaning(c) == ParseEscape(s).value
    ensures "\\" + s == CharTreeThen(c, ParseEscape(s).rest)
  {
    if s[0] == 'u' {
      c := CodeOf(s);
    } else {
      c := Escaped(s[0]);
      assert s == [s[0]] + s[1..];
      hide ParseHex4, Code;
    }
  }

  lemma CodeOf(s: string) returns (c: CharTree)
    requires s != "" && s[0] == 'u' && ParseEscape(s).Ok?
    ensures ValidChar(c) && CharMeaning(c) == ParseEscape(s).value
    ensures "\\" + s == CharTreeThen(c, ParseEscape(s).rest)
  {
    HexOf(s[1..]);
    var hex := s[1..][..4];
    assert s == "u" + (hex + s[5..]);
    if Code(hex) < 0xD800 || 0xE000 <= Code(hex) {
      c := Unit(hex);
    } else {
      HexOf(s[7..]);
      var low := s[7..][..4];
      assert s[5..] == "\\" + ("u" + (low + s[11..]));
      c := Pair(hex, low);
    }
    hide ParseHex4, Code, IsHex;
  }

  lemma {:induction false} CharsOf(s: string) returns (chars: seq<CharTree>)
    requires ParseChars(s).Ok?
    ensures ValidChars(chars) && CharsMeaning(chars) == ParseChars(s).value
    ensures s == CharTreesThen(chars, ParseChars(s).rest)
    decreases |s|
  {
    if s[0] == '"' {
      chars := [];
      assert s == "\"" + s[1..];
    } else {
      var c, after := FirstCharOf(s);
      var others := CharsOf(after);
      chars := [c] + others;
      hide ParseChars, ValidChar, CharMeaning, CharTreeThen;
      assert chars[1..] == others;
    }
  }

  lemma FirstCharOf(s: string) returns (c: CharTree, after: string)
    requires ParseChars(s).Ok? && s != "" && s[0] != '"'
    ensures ValidChar(c) && |after| < |s| && ParseChars(after).Ok?
    ensures ParseChars(s) == Prepend(CharMeaning(c), ParseChars(after))
    ensures s == CharTreeThen(c, after)
  {
    if s[0] == '\\' {
      c := EscapeOf(s[1..]);
      after := ParseEscape(s[1..]).rest;
      hide ParseEscape, ValidChar, CharMeaning, CharTreeThen;
      assert "\\" + s[1..] == s;
    } else {
      c, after := Plain(s[0]), s[1..];
      assert s == [s[0]] + s[1..];
    }
  }

  lemma ExponentOf(s: string) returns (e: Option<Exponent>)
    requires ParseExponent(s).Ok?
    ensures (e.Some? ==> ValidExponent(e.value)) && ExponentMeaning(e) == ParseExponent(s).value
    ensures s == ExponentThen(e, ParseExponent(s).rest)
  {
    hide NatValue, SpanDigits, AllDigits;
    if s != "" && (s[0] == 'e' || s[0] == 'E') {
      var signed := |s| > 1 && (s[1] == '+' || s[1] == '-');
      var sign := if signed then [s[1]] else "";
      var digits := SpanDigits(if signed then s[2..] else s[1..]).0;
      e := Some(Exponent(s[0], sign, digits));
      assert s == [s[0]] + (sign + if signed then s[2..] else s[1..]);
    } else {
      e := None;
    }
  }

  lemma FractionOf(s: string)
    requires ParseFraction(s).Ok?
    ensures s == FractionThen(ParseFraction(s).value, ParseFraction(s).rest)
  {
    if s != "" && s[0] == '.' {
      assert s == "." + s[1..];
    }
    hide SpanDigits;
  }

  lemma MagnitudeOf(negative: bool, s: string) returns (n: NumberTree)
    requires ParseMagnitude(negative, s).Ok?
    ensures n.negative == negative && ValidNumber(n) && NumberMeaning(n) == ParseMagnitude(negative, s).value
    ensures s == n.whole + FractionThen(n.fraction, ExponentThen(n.exponent, ParseMagnitude(negative, s).rest))
  {
    var (whole, after) := SpanDigits(s);
    hide SpanDigits, ParseFraction, ParseExponent, Normalize, AllDigits;
    FractionOf(after);
    var fraction := ParseFraction(after);
    var exponent := ExponentOf(fraction.rest);
    n := NumberTree(negative, whole, fraction.value, exponent);
    hide ExponentThen, FractionThen, ExponentMeaning, ValidExponent;
  }

  lemma NumberOf(s: string) returns (n: NumberTree)
    requires ParseNumber(s).Ok?
    ensures ValidNumber(n) && NumberMeaning(n) == ParseNumber(s).value
    ensures s == NumberTreeThen(n, ParseNumber(s).rest)
  {
    hide ParseMagnitude, NumberMeaning, ValidNumber;
    if s != "" && s[0] == '-' {
      n := MagnitudeOf(true, s[1..]);
      assert s == "-" + s[1..];
    } else {
      n := MagnitudeOf(false, s);
    }
  }

  lemma ScalarOf(s: string) returns (t: Tree)
    requires s != "" && ParseScalar(s).Ok?
    ensures Valid(t) && Meaning(t) == ParseScalar(s).value && s == TreeThen(t, ParseScalar(s).rest)
  {
    hide ParseChars, ParseNumber, NumberTreeThen, CharTreesThen, ValidNumber, ValidChars, NumberMeaning, CharsMeaning;
    if s[0] == '"' {
      var chars := CharsOf(s[1..]);
      t := StrTree(chars);
      assert s == "\"" + s[1..];
    } else if s[0] == 't' {
      t := BoolTree(true);
      assert s == s[..4] + s[4..];
    } else if s[0] == 'f' {
      t := BoolTree(false);
      assert s == s[..5] + s[5..];
    } else if s[0] == 'n' {
      t := NullTree;
      assert s == s[..4] + s[4..];
    } else {
      var n := NumberOf(s);
      t := NumTree(n);
    }
  }

  /** What the parser reads is the text of a tree, behind whitespace. */
  lemma {:induction false} ValueOf(text: string) returns (before: string, t: Tree)
    requires ParseValue(text).Ok?
    ensures IsBlank(before) && Valid(t) && Meaning(t) == ParseValue(text).value
    ensures text == before + TreeThen(t, ParseValue(text).rest)
    decreases |text|, 3
  {
    var s := SkipSpace(text);
    before := BlankFront(text);
    hide SkipSpace, ParseScalar, ParseArray, ParseObject, IsBlank, Valid, Meaning, TreeThen;
    if s[0] == '[' {
      t := ArrayOf(s);
    } else if s[0] == '{' {
      t := ObjectOf(s);
    } else {
      t := ScalarOf(s);
    }
  }

  lemma {:induction false} ArrayOf(s: string) returns (t: Tree)
    requires s != "" && s[0] == '[' && ParseArray(s).Ok?
    ensures Valid(t) && Meaning(t) == ParseArray(s).value && s == TreeThen(t, ParseArray(s).rest)
    decreases |s|, 2
  {
    var inside := SkipSpace(s[1..]);
    assert s == "[" + s[1..];
    hide SkipSpace, ParseItems, IsBlank, ElementsThen, ItemsMeaning, ValidElement;
    assert ParseArray(s)
           == if inside != "" && inside[0] == ']' then Ok(Arr([]), inside[1..])
              else Ok(Arr(ParseItems(s[1..]).value), ParseItems(s[1..]).rest);
    hide ParseArray;
    if inside != "" && inside[0] == ']' {
      var blank := BlankFront(s[1..]);
      t := ArrTree([], blank);
      assert inside == "]" + inside[1..] && ItemsMeaning([]) == [];
    } else {
      var elements := ItemsOf(s[1..]);
      t := ArrTree(elements, "");
      assert IsBlank("");
    }
  }

  lemma {:induction false} ObjectOf(s: string) returns (t: Tree)
    requires s != "" && s[0] == '{' && ParseObject(s).Ok?
    ensures Valid(t) && Meaning(t) == ParseObject(s).value && s == TreeThen(t, ParseObject(s).rest)
    decreases |s|, 2
  {
    var inside := SkipSpace(s[1..]);
    assert s == "{" + s[1..];
    hide SkipSpace, ParseMembers, IsBlank, MemberTreesThen, MembersMeaning, ValidMember;
    assert ParseObject(s)
           == if inside != "" && inside[0] == '}' then Ok(Obj([]), inside[1..])
              else Ok(Obj(ParseMembers(s[1..]).value), ParseMembers(s[1..]).rest);
    hide ParseObject;
    if inside != "" && inside[0] == '}' {
      var blank := BlankFront(s[1..]);
      t := ObjTree([], blank);
      assert inside == "}" + inside[1..] && MembersMeaning([]) == [];
    } else {
      var members := MembersOf(s[1..]);
      t := ObjTree(members, "");
      assert IsBlank("");
    }
  }

  lemma {:induction false} ItemsOf(s: string) returns (elements: seq<Element>)
    requires ParseItems(s).Ok?
    ensures elements != [] && forall i | 0 <= i < |elements| :: ValidElement(elements[i])
    ensures ItemsMeaning(elements) == ParseItems(s).value && s == ElementsThen(elements, ParseItems(s).rest)
    decreases |s|, 4
  {
    var before, t := ValueOf(s);
    var after := ParseValue(s).rest;
    var next := SkipSpace(after);
    var blank := BlankFront(after);
    var e := Element(before, t, blank);
    assert next == [next[0]] + next[1..];
    hide ParseValue, SkipSpace, TreeThen, Meaning, Valid, IsBlank;
    if next[0] == ']' {
      elements := [e];
      assert ItemsMeaning([]) == [] && elements[1..] == [];
    } else {
      var others := ItemsOf(next[1..]);
      elements := [e] + others;
      assert elements[1..] == others;
    }
    hide ParseItems;
  }

  lemma KeyIsThere(s: string) returns (key: string, value: string)
    requires ParseMembers(s).Ok?
    ensures KeyParses(s, key, value)
  {
    hide ParseValue, ParseChars, SkipSpace, AddMember;
    var quoted := SkipSpace(s);
    var colon := SkipSpace(ParseChars(quoted[1..]).rest);
    key, value := ParseChars(quoted[1..]).value, colon[1..];
  }

  lemma KeyOf(s: string) returns (front: string, key: seq<CharTree>, behindKey: string, value: string)
    requires ParseMembers(s).Ok?
    ensures IsBlank(front) && ValidChars(key) && IsBlank(behindKey) && |value| < |s|
    ensures KeyParses(s, CharsMeaning(key), value)
    ensures s == front + ("\"" + CharTreesThen(key, behindKey + (":" + value)))
  {
    var name;
    name, value := KeyIsThere(s);
    hide ParseMembers, ParseChars, SkipSpace, IsBlank, CharTreesThen, ValidChars, CharsMeaning;
    var quoted := SkipSpace(s);
    front := BlankFront(s);
    key := CharsOf(quoted[1..]);
    var afterKey := ParseChars(quoted[1..]).rest;
    behindKey := BlankFront(afterKey);
    assert quoted == "\"" + quoted[1..] && SkipSpace(afterKey) == ":" + value;
  }

  lemma MembersStep(s: string, key: string, value: string)
    requires ParseMembers(s).Ok? && KeyParses(s, key, value)
    ensures ParseValue(value).Ok?
    ensures var m := Member(key, ParseValue(value).value);
            var next := SkipSpace(ParseValue(value).rest);
            && next != ""
            && if next[0] == '}' then ParseMembers(s) == Ok([m], next[1..])
               else next[0] == ',' && ParseMembers(next[1..]).Ok?
                    && ParseMembers(s)
                       == Ok(AddMember(m, ParseMembers(next[1..]).value), ParseMembers(next[1..]).rest)
  {
    hide ParseValue, ParseChars, SkipSpace, AddMember;
  }

  lemma AllValid(m: MemberTree, others: seq<MemberTree>)
    requires ValidMember(m) && forall i | 0 <= i < |others| :: ValidMember(others[i])
    ensures Valid(m.element.tree)
    ensures forall i | 0 <= i < |[m] + others| :: ValidMember(([m] + others)[i])
  {
    hide IsBlank, ValidChars;
    assert ValidElement(m.element);
  }

  lemma MembersMeaningStep(members: seq<MemberTree>, member: Member)
    requires members != [] && forall i | 0 <= i < |members| :: ValidMember(members[i])
    requires ValidChars(members[0].key) && Valid(members[0].element.tree)
    requires member == Member(CharsMeaning(members[0].key), Meaning(members[0].element.tree))
    ensures MembersMeaning(members) == AddMember(member, MembersMeaning(members[1..]))
    ensures |members| == 1 ==> MembersMeaning(members) == [member]
  {
    hide ValidMember, ValidChars, Valid, Meaning, CharsMeaning;
    if |members| == 1 {
      assert MembersMeaning(members[1..]) == [] && [member] + [] == [member];
    }
    hide AddMember;
  }

  lemma MemberTreesThenStep(m: MemberTree, others: seq<MemberTree>, rest: string)
    ensures MemberTreesThen([m] + others, rest)
            == MemberTreeThen(m, if others == [] then "}" + rest else "," + MemberTreesThen(others, rest))
  {
    assert ([m] + others)[1..] == others;
    hide MemberTreeThen;
  }

  lemma {:induction false} MembersOf(s: string) returns (members: seq<MemberTree>)
    requires ParseMembers(s).Ok?
    ensures members != [] && forall i | 0 <= i < |members| :: ValidMember(members[i])
    ensures MembersMeaning(members) == ParseMembers(s).value && s == MemberTreesThen(members, ParseMembers(s).rest)
    decreases |s|, 4
  {
    var front, key, behindKey, value := KeyOf(s);
    MembersStep(s, CharsMeaning(key), value);
    var before, t := ValueOf(value);
    var next := SkipSpace(ParseValue(value).rest);
    var blank := BlankFront(ParseValue(value).rest);
    var m := MemberTree(front, key, behindKey, Element(before, t, blank));
    assert next == [next[0]] + next[1..] && ValidMember(m);
    var others := [];
    if next[0] != '}' {
      others := MembersOf(next[1..]);
    }
    members := [m] + others;
    var rest := ParseMembers(s).rest;
    assert ElementThen(m.element, next) == value;
    assert MemberTreeThen(m, next) == s;
    assert members[1..] == others && members[0] == m;
    hide *;
    AllValid(m, others);
    MembersMeaningStep(members, Member(CharsMeaning(key), Meaning(t)));
    MemberTreesThenStep(m, others, rest);
  }

  /** JSON.parse accepts exactly the documents of the grammar and answers what they mean. */
  lemma ParseExactly(text: string, v: Value)
    ensures Parse(text) == Some(v)
            <==> exists e: Element | ValidElement(e) :: ElementThen(e, "") == text && Meaning(e.tree) == v
  {
    if Parse(text) == Some(v) {
      var before, t := ValueOf(text);
      var after := BlankFront(ParseValue(text).rest);
      var e := Element(before, t, after);
      hide ParseValue, Meaning, TreeThen, Valid, IsBlank;
      assert after + "" == after;
      assert ElementThen(e, "") == text;
    }
    if e: Element :| ValidElement(e) && ElementThen(e, "") == text && Meaning(e.tree) == v {
      ElementParses(e, "");
      SkipBlank(e.after, "");
      hide ParseValue, Meaning, TreeThen, Valid, IsBlank, ElementThen;
    }
  }
}
