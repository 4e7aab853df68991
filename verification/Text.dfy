/** Text helpers shared by the models: JavaScript whitespace, trimming and decimal numerals. */
module Text {

  datatype Option<+T> = None | Some(value: T)
  {
    function GetOr(other: T): T {
      if Some? then value else other
    }
  }

  // --- JavaScript whitespace and trim -----------------------------------------------------------

  /** The code points that String.prototype.trim removes. */
  predicate IsSpace(c: char) {
    || '\t' <= c <= '\r'
    || c == ' '
    || c == '\U{00A0}'
    || c == '\U{1680}'
    || '\U{2000}' <= c <= '\U{200A}'
    || c == '\U{2028}' || c == '\U{2029}' || c == '\U{202F}' || c == '\U{205F}' || c == '\U{3000}'
    || c == '\U{FEFF}'
  }

  predicate AllSpace(s: string) {
    forall i | 0 <= i < |s| :: IsSpace(s[i])
  }

  function TrimStart(s: string): (r: string)
    ensures |r| <= |s| && (r == "" || !IsSpace(r[0]))
  {
    if s != "" && IsSpace(s[0]) then TrimStart(s[1..]) else s
  }

  function TrimEnd(s: string): (r: string)
    ensures |r| <= |s| && (r == "" || (r[0] == s[0] && !IsSpace(r[|r| - 1])))
  {
    if s != "" && IsSpace(s[|s| - 1]) then TrimEnd(s[..|s| - 1]) else s
  }

  function Trim(s: string): (r: string)
    ensures |r| <= |s| && (r == "" || (!IsSpace(r[0]) && !IsSpace(r[|r| - 1])))
  {
    TrimEnd(TrimStart(s))
  }

  lemma {:induction false} TrimStartSplits(s: string) returns (before: string)
    ensures s == before + TrimStart(s) && AllSpace(before)
  {
    if s != "" && IsSpace(s[0]) {
      before := TrimStartSplits(s[1..]);
      before := [s[0]] + before;
    } else {
      before := "";
    }
  }

  lemma {:induction false} TrimEndSplits(s: string) returns (after: string)
    ensures s == TrimEnd(s) + after && AllSpace(after)
  {
    if s != "" && IsSpace(s[|s| - 1]) {
      after := TrimEndSplits(s[..|s| - 1]);
      after := after + [s[|s| - 1]];
    } else {
      after := "";
    }
  }

  /** Trimming removes a run of whitespace at each end and nothing else. */
  lemma TrimSplits(s: string) returns (before: string, after: string)
    ensures s == before + Trim(s) + after && AllSpace(before) && AllSpace(after)
  {
    hide AllSpace, TrimStart, TrimEnd;
    before := TrimStartSplits(s);
    after := TrimEndSplits(TrimStart(s));
    assert s == before + (Trim(s) + after);
  }

  /** Which characters trim removes, by their code points. */
  lemma SpaceCodes(c: char)
    ensures var code := c as int;
            Trim([c]) == ""
            <==> 9 <= code <= 13 || 0x2000 <= code <= 0x200A
                 || code in {0x20, 0xA0, 0x1680, 0x2028, 0x2029, 0x202F, 0x205F, 0x3000, 0xFEFF}
  {
    assert [c][1..] == "" && [c][..0] == "";
    if IsSpace(c) {
      assert TrimStart([c]) == "";
    } else {
      TrimFixed([c]);
    }
  }

  lemma {:induction false} TrimStartPadded(before: string, s: string)
    requires AllSpace(before) && s != "" && !IsSpace(s[0])
    ensures TrimStart(before + s) == s
  {
    if before == "" {
      assert before + s == s;
    } else {
      TrimStartPadded(before[1..], s);
      assert (before + s)[0] == before[0] && (before + s)[1..] == before[1..] + s;
    }
  }

  lemma {:induction false} TrimEndPadded(s: string, after: string)
    requires AllSpace(after) && s != "" && !IsSpace(s[|s| - 1])
    ensures TrimEnd(s + after) == s
  {
    if after == "" {
      assert s + after == s;
    } else {
      TrimEndPadded(s, after[..|after| - 1]);
      assert (s + after)[|s + after| - 1] == after[|after| - 1];
      assert (s + after)[..|s + after| - 1] == s + after[..|after| - 1];
    }
  }

  /** Padding with whitespace does not change a trimmed text. */
  lemma TrimPadded(before: string, s: string, after: string)
    requires AllSpace(before) && AllSpace(after) && s != "" && !IsSpace(s[0]) && !IsSpace(s[|s| - 1])
    ensures Trim(before + s + after) == s
  {
    assert before + s + after == before + (s + after) && (s + after)[0] == s[0];
    TrimStartPadded(before, s + after);
    TrimEndPadded(s, after);
    hide TrimStart, TrimEnd, AllSpace;
  }

  /** A string with no whitespace at either end is its own trim. */
  lemma TrimFixed(s: string)
    requires s == "" || (!IsSpace(s[0]) && !IsSpace(s[|s| - 1]))
    ensures Trim(s) == s
  {
  }

  // --- decimal numerals -----------------------------------------------------------------------

  predicate IsDigit(c: char) {
    '0' <= c <= '9'
  }

  predicate AllDigits(s: string) {
    forall i | 0 <= i < |s| :: IsDigit(s[i])
  }

  function DigitChar(d: nat): (c: char)
    requires d < 10
    ensures IsDigit(c)
  {
    ('0' as int + d) as char
  }

  /** The decimal numeral of a natural number, as a template literal prints it. */
  function NatText(n: nat): (s: string)
    ensures s != "" && AllDigits(s)
    ensures s[0] == '0' ==> n == 0
  {
    if n < 10 then [DigitChar(n)] else NatText(n / 10) + [DigitChar(n % 10)]
  }

  function NatValue(s: string): nat
    requires AllDigits(s)
  {
    if s == "" then 0 else 10 * NatValue(s[..|s| - 1]) + (s[|s| - 1] as int - '0' as int)
  }

  lemma {:induction false} NatRoundTrip(n: nat)
    ensures NatValue(NatText(n)) == n
  {
    if n >= 10 {
      NatRoundTrip(n / 10);
      var s := NatText(n);
      assert s[..|s| - 1] == NatText(n / 10);
    }
  }

  lemma NatTextInjective(m: nat, n: nat)
    requires NatText(m) == NatText(n)
    ensures m == n
  {
    NatRoundTrip(m);
    NatRoundTrip(n);
  }

  // --- lists separated by commas ---------------------------------------------------------------

  /** split(',') */
  function CommaSplit(s: string): (parts: seq<string>)
    ensures parts != []
  {
    if s == "" then [""]
    else
      var rest := CommaSplit(s[1..]);
      if s[0] == ',' then [""] + rest else [[s[0]] + rest[0]] + rest[1..]
  }

  function CommaJoin(parts: seq<string>): string
    requires parts != []
  {
    if |parts| == 1 then parts[0] else parts[0] + "," + CommaJoin(parts[1..])
  }

  /** The parts hold no comma, and joined with commas they are the string again. */
  lemma {:induction false} CommaSplitJoins(s: string)
    ensures CommaJoin(CommaSplit(s)) == s
    ensures forall i | 0 <= i < |CommaSplit(s)| :: ',' !in CommaSplit(s)[i]
  {
    if s != "" {
      CommaSplitJoins(s[1..]);
      var (parts, rest) := (CommaSplit(s), CommaSplit(s[1..]));
      assert parts[1..] == if s[0] == ',' then rest else rest[1..];
      assert s == [s[0]] + s[1..];
    }
  }
}
