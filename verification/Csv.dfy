/** The CSV splitter and the formula sanitiser of the upload middleware
    (src/middleware/file-upload-middleware.ts). */
module Csv {
  import opened Text

  // --- splitting a line into cells ------------------------------------------------------------

  function Flip(c: char, inQuotes: bool): bool {
    if c == '"' then !inQuotes else inQuotes
  }

  /** Whether a position after `s` lies inside double quotes. */
  function Quoted(s: string, inQuotes: bool): bool {
    if s == "" then inQuotes else Quoted(s[1..], Flip(s[0], inQuotes))
  }

  /** Every comma of `s` lies inside double quotes. */
  predicate Uncut(s: string, inQuotes: bool) {
    s != "" ==> (s[0] == ',' ==> inQuotes) && Uncut(s[1..], Flip(s[0], inQuotes))
  }

  function Prefix(head: string, cells: seq<string>): seq<string>
    requires cells != []
  {
    [head + cells[0]] + cells[1..]
  }

  /** The cells of a line: what the commas outside double quotes separate. */
  function Split(line: string, inQuotes: bool): (cells: seq<string>)
    ensures cells != []
  {
    if line == "" then [""]
    else if line[0] == ',' && !inQuotes then [""] + Split(line[1..], false)
    else Prefix([line[0]], Split(line[1..], Flip(line[0], inQuotes)))
  }

  lemma PrefixNothing(cells: seq<string>)
    requires cells != []
    ensures Prefix("", cells) == cells
  {
    assert "" + cells[0] == cells[0];
  }

  lemma PrefixTwice(a: string, b: string, cells: seq<string>)
    requires cells != []
    ensures Prefix(a, Prefix(b, cells)) == Prefix(a + b, cells)
  {
    assert a + (b + cells[0]) == (a + b) + cells[0];
  }

  /** splitCsvLine: one pass over the line with a current cell and a quote flag. */
  method SplitCsvLine(line: string) returns (cells: seq<string>)
    ensures cells == Split(line, false)
  {
    cells := [];
    var current := "";
    var inQuotes := false;
    PrefixNothing(Split(line, false));
    assert line[0..] == line;
    for i := 0 to |line|
      invariant Split(line, false) == cells + Prefix(current, Split(line[i..], inQuotes))
    {
      var c := line[i];
      assert line[i..][0] == c && line[i..][1..] == line[i + 1..];
      if c == '"' {
        PrefixTwice(current, [c], Split(line[i + 1..], !inQuotes));
        inQuotes := !inQuotes;
        current := current + [c];
      } else if c == ',' && !inQuotes {
        PrefixNothing(Split(line[i + 1..], false));
        assert current + "" == current;
        cells := cells + [current];
        current := "";
      } else {
        PrefixTwice(current, [c], Split(line[i + 1..], inQuotes));
        current := current + [c];
      }
    }
    assert current + "" == current;
    cells := cells + [current];
  }

  lemma {:induction false} JoinPrefix(head: string, cells: seq<string>)
    requires cells != []
    ensures CommaJoin(Prefix(head, cells)) == head + CommaJoin(cells)
  {
    if |cells| > 1 {
      assert Prefix(head, cells)[1..] == cells[1..];
    }
  }

  /** Joining the cells of a line with commas gives back the line. */
  lemma {:induction false} JoinSplit(line: string, inQuotes: bool)
    ensures CommaJoin(Split(line, inQuotes)) == line
  {
    if line != "" {
      var q := Flip(line[0], inQuotes);
      var tail := Split(line[1..], q);
      SplitStep(line, inQuotes);
      hide Split;
      JoinSplit(line[1..], q);
      if line[0] == ',' && !inQuotes {
        assert ([""] + tail)[1..] == tail;
      } else {
        JoinPrefix([line[0]], tail);
      }
    }
  }

  /** The shape of a list of cells: no comma stands outside quotes, and only the last cell may
      leave a quote open. */
  ghost predicate Cells(cells: seq<string>, inQuotes: bool) {
    && cells != []
    && Uncut(cells[0], inQuotes)
    && (|cells| > 1 ==> !Quoted(cells[0], inQuotes) && Cells(cells[1..], false))
  }

  lemma {:induction false} SplitIsCells(line: string, inQuotes: bool)
    ensures Cells(Split(line, inQuotes), inQuotes)
  {
    if line != "" {
      if line[0] == ',' && !inQuotes {
        SplitIsCells(line[1..], false);
        assert Split(line, inQuotes)[1..] == Split(line[1..], false);
      } else {
        var rest := Split(line[1..], Flip(line[0], inQuotes));
        SplitIsCells(line[1..], Flip(line[0], inQuotes));
        var first := [line[0]] + rest[0];
        assert Split(line, inQuotes)[1..] == rest[1..] && first[1..] == rest[0];
      }
    }
  }

  /** An uncut piece stays in one cell. */
  lemma {:induction false} SplitUncut(s: string, rest: string, inQuotes: bool)
    requires Uncut(s, inQuotes)
    ensures Split(s + rest, inQuotes) == Prefix(s, Split(rest, Quoted(s, inQuotes)))
  {
    if s == "" {
      assert s + rest == rest;
      PrefixNothing(Split(rest, inQuotes));
    } else {
      var q := Flip(s[0], inQuotes);
      SplitUncut(s[1..], rest, q);
      assert (s + rest)[0] == s[0] && (s + rest)[1..] == s[1..] + rest;
      PrefixTwice([s[0]], s[1..], Split(rest, Quoted(s, inQuotes)));
      assert [s[0]] + s[1..] == s;
    }
  }

  /** Splitting is the only way to cut a line into such cells. */
  lemma {:induction false} SplitJoin(cells: seq<string>, inQuotes: bool)
    requires Cells(cells, inQuotes)
    ensures Split(CommaJoin(cells), inQuotes) == cells
  {
    if |cells| == 1 {
      WholeCell(cells[0], inQuotes);
    } else {
      var rest := "," + CommaJoin(cells[1..]);
      assert CommaJoin(cells) == cells[0] + rest && rest[1..] == CommaJoin(cells[1..]);
      SplitUncut(cells[0], rest, inQuotes);
      SplitJoin(cells[1..], false);
      assert cells[0] + "" == cells[0];
      assert Split(rest, false) == [""] + cells[1..];
    }
  }

  lemma WholeCell(s: string, inQuotes: bool)
    requires Uncut(s, inQuotes)
    ensures Split(s, inQuotes) == [s]
  {
    SplitUncut(s, "", inQuotes);
    assert s + "" == s;
  }

  // --- sanitising -----------------------------------------------------------------------------

  predicate StartsFormula(s: string) {
    && s != ""
    && (s[0] == '=' || s[0] == '+' || s[0] == '-' || s[0] == '@' || s[0] == '\t' || s[0] == '\r' || s[0] == '|')
  }

  predicate Enclosed(s: string, quote: char) {
    s != "" && s[0] == quote && s[|s| - 1] == quote
  }

  /** s.slice(1, -1) */
  function Inner(s: string): string {
    if |s| < 2 then "" else s[1..|s| - 1]
  }

  predicate IsQuoted(trimmed: string) {
    Enclosed(trimmed, '"') || Enclosed(trimmed, '\'')
  }

  /** What a spreadsheet would evaluate: the trimmed cell without its quotes of either kind. */
  function Content(cell: string): string {
    if IsQuoted(Trim(cell)) then Inner(Trim(cell)) else Trim(cell)
  }

  function SanitizeCell(cell: string): string {
    if StartsFormula(Content(cell)) then
      if IsQuoted(Trim(cell)) then "\"'" + Content(cell) + "\"" else "'" + Trim(cell)
    else cell
  }

  function SanitizeCells(cells: seq<string>): (r: seq<string>)
    ensures |r| == |cells| && forall i | 0 <= i < |cells| :: r[i] == SanitizeCell(cells[i])
  {
    seq(|cells|, i requires 0 <= i < |cells| => SanitizeCell(cells[i]))
  }

  function SanitizeLine(line: string): string {
    if Trim(line) == "" then line else CommaJoin(SanitizeCells(Split(line, false)))
  }

  /** A cell no spreadsheet evaluates: trimmed, and without one enclosing pair of double quotes, it
      does not start a formula. */
  predicate Safe(cell: string) {
    var trimmed := Trim(cell);
    !StartsFormula(if Enclosed(trimmed, '"') then Inner(trimmed) else trimmed)
  }

  /** The cells the sanitiser tears apart: a formula in single quotes that contains a comma. */
  predicate Torn(cell: string) {
    Enclosed(Trim(cell), '\'') && StartsFormula(Content(cell)) && ',' in cell
  }

  /** What a torn cell falls into behind its first piece: the text behind each of its commas, up to
      the next one or to the closing quote, which sanitising has made a double quote. */
  function Splinters(cell: string): seq<string> {
    CommaSplit(Content(cell) + "\"")[1..]
  }

  /** A torn cell with a splinter that starts a formula: sanitising brings to life what was text. */
  predicate Live(cell: string) {
    Torn(cell) && exists piece | piece in Splinters(cell) :: !Safe(piece)
  }

  lemma SanitizedIsSafe(cell: string)
    ensures Safe(SanitizeCell(cell))
  {
    var trimmed := Trim(cell);
    var c := SanitizeCell(cell);
    if StartsFormula(Content(cell)) {
      assert c[|c| - 1] == '"' || c[|c| - 1] == trimmed[|trimmed| - 1];
      TrimFixed(c);
    }
    hide Trim;
  }

  /** The seven characters that make a formula, in a cell that is not quoted and in one that is. */
  lemma FormulaCells(text: string, before: string, after: string)
    requires text != "" && !IsSpace(text[0]) && !IsSpace(text[|text| - 1]) && AllSpace(before) && AllSpace(after)
    requires text[0] != '"' && text[0] != '\''
    ensures SanitizeCell(before + text + after)
            == if text[0] in {'=', '+', '-', '@', '|'} then "'" + text else before + text + after
  {
    TrimPadded(before, text, after);
    hide Trim;
  }

  lemma QuotedFormulaCells(inner: string, quote: char, before: string, after: string)
    requires (quote == '"' || quote == '\'') && AllSpace(before) && AllSpace(after)
    ensures var cell := before + ([quote] + inner + [quote]) + after;
            SanitizeCell(cell)
            == if inner != "" && inner[0] in {'=', '+', '-', '@', '\t', '\r', '|'} then "\"'" + inner + "\"" else cell
  {
    var text := [quote] + inner + [quote];
    assert text[|text| - 1] == quote && Inner(text) == inner;
    TrimPadded(before, text, after);
    hide Trim;
  }

  // --- quotes and commas under concatenation --------------------------------------------------

  lemma {:induction false} UncutAppend(a: string, b: string, inQuotes: bool)
    ensures Uncut(a + b, inQuotes) <==> Uncut(a, inQuotes) && Uncut(b, Quoted(a, inQuotes))
    ensures Quoted(a + b, inQuotes) == Quoted(b, Quoted(a, inQuotes))
  {
    if a == "" {
      assert a + b == b;
    } else {
      UncutAppend(a[1..], b, Flip(a[0], inQuotes));
      assert (a + b)[1..] == a[1..] + b;
    }
  }

  lemma {:induction false} SpaceIsPlain(s: string, inQuotes: bool)
    requires AllSpace(s)
    ensures Uncut(s, inQuotes) && Quoted(s, inQuotes) == inQuotes && ',' !in s
  {
    if s != "" {
      SpaceIsPlain(s[1..], inQuotes);
      assert s == [s[0]] + s[1..];
    }
  }

  /** Without commas nothing is cut; with one, an uncut text is cut once its quotes are inverted. */
  lemma {:induction false} UncutInverted(s: string, inQuotes: bool)
    ensures ',' !in s ==> Uncut(s, inQuotes)
    ensures ',' in s && Uncut(s, inQuotes) ==> !Uncut(s, !inQuotes)
    ensures Quoted(s, !inQuotes) == !Quoted(s, inQuotes)
  {
    if s != "" {
      UncutInverted(s[1..], Flip(s[0], inQuotes));
      assert Flip(s[0], !inQuotes) == !Flip(s[0], inQuotes);
      assert s == [s[0]] + s[1..];
    }
  }

  /** Trimming changes neither the cutting commas nor the quote parity. */
  lemma TrimUncut(cell: string, inQuotes: bool)
    ensures Uncut(Trim(cell), inQuotes) <==> Uncut(cell, inQuotes)
    ensures Quoted(Trim(cell), inQuotes) == Quoted(cell, inQuotes)
    ensures ',' in Trim(cell) <==> ',' in cell
  {
    hide Trim, Uncut, Quoted, AllSpace;
    var before, after := TrimSplits(cell);
    var t := Trim(cell);
    SpaceIsPlain(before, inQuotes);
    SpaceIsPlain(after, Quoted(t, inQuotes));
    assert cell == before + (t + after);
    UncutAppend(before, t + after, inQuotes);
    UncutAppend(t, after, inQuotes);
  }

  /** Sanitising keeps a cell whole, unless it is torn, and always keeps its quote parity. */
  lemma SanitizedUncut(cell: string)
    requires Uncut(cell, false)
    ensures Uncut(SanitizeCell(cell), false) <==> !Torn(cell)
    ensures Quoted(SanitizeCell(cell), false) == Quoted(cell, false)
  {
    hide Uncut, Quoted, Trim;
    var trimmed := Trim(cell);
    TrimUncut(cell, false);
    if StartsFormula(Content(cell)) {
      if Enclosed(trimmed, '"') {
        DoubleQuotedUncut(trimmed);
      } else if Enclosed(trimmed, '\'') {
        SingleQuotedUncut(trimmed);
      } else {
        PlainUncut("'", false);
        UncutAppend("'", trimmed, false);
      }
    }
  }

  lemma PlainUncut(s: string, inQuotes: bool)
    requires |s| == 1 && s[0] != ',' && s[0] != '"'
    ensures Uncut(s, inQuotes) && Quoted(s, inQuotes) == inQuotes
  {
    assert s[1..] == "";
  }

  lemma QuoteUncut(inQuotes: bool)
    ensures Uncut("\"", inQuotes) && Quoted("\"", inQuotes) == !inQuotes
    ensures Uncut("\"'", inQuotes) && Quoted("\"'", inQuotes) == !inQuotes
  {
    var quote := "\"";
    assert quote[1..] == "";
    PlainUncut("'", !inQuotes);
    UncutAppend(quote, "'", inQuotes);
    assert quote + "'" == "\"'";
  }

  lemma DoubleQuotedUncut(trimmed: string)
    requires Enclosed(trimmed, '"') && Inner(trimmed) != "" && Uncut(trimmed, false)
    ensures var r := "\"'" + Inner(trimmed) + "\"";
            Uncut(r, false) && Quoted(r, false) == Quoted(trimmed, false)
  {
    hide Uncut, Quoted;
    var tail := Inner(trimmed) + "\"";
    assert trimmed == "\"" + tail;
    assert "\"'" + Inner(trimmed) + "\"" == "\"'" + tail;
    QuoteUncut(false);
    UncutAppend("\"", tail, false);
    UncutAppend("\"'", tail, false);
  }

  lemma SingleQuotedUncut(trimmed: string)
    requires Enclosed(trimmed, '\'') && Inner(trimmed) != "" && Uncut(trimmed, false)
    ensures var r := "\"'" + Inner(trimmed) + "\"";
            (Uncut(r, false) <==> ',' !in trimmed) && Quoted(r, false) == Quoted(trimmed, false)
  {
    hide Uncut, Quoted;
    var inner := Inner(trimmed);
    assert trimmed == "'" + (inner + "'");
    assert "\"'" + inner + "\"" == "\"'" + (inner + "\"");
    PlainUncut("'", false);
    PlainUncut("'", Quoted(inner, false));
    UncutAppend("'", inner + "'", false);
    UncutAppend(inner, "'", false);
    UncutInverted(inner, false);
    UncutInverted(inner, true);
    assert ',' in trimmed <==> ',' in inner;
    QuoteUncut(false);
    UncutAppend("\"'", inner + "\"", false);
    UncutAppend(inner, "\"", true);
    QuoteUncut(Quoted(inner, true));
  }

  // --- re-splitting a sanitised line ----------------------------------------------------------

  /** Cells joined with commas split into as many cells as their parts do. */
  lemma {:induction false} SplitCount(cells: seq<string>)
    requires cells != [] && forall i | 0 <= i < |cells| - 1 :: !Quoted(cells[i], false)
    ensures |Split(CommaJoin(cells), false)| >= |cells|
    ensures |Split(CommaJoin(cells), false)| == |cells| <==> forall i | 0 <= i < |cells| :: Uncut(cells[i], false)
  {
    if |cells| == 1 {
      CutCount(cells[0], "", false);
      assert cells[0] + "" == cells[0];
    } else {
      var rest := "," + CommaJoin(cells[1..]);
      assert CommaJoin(cells) == cells[0] + rest && rest[1..] == CommaJoin(cells[1..]);
      CutCount(cells[0], rest, false);
      SplitCount(cells[1..]);
      assert forall i | 0 < i < |cells| :: cells[i] == cells[1..][i - 1];
    }
  }

  /** A piece that has a cutting comma adds cells. */
  lemma {:induction false} CutCount(s: string, rest: string, inQuotes: bool)
    ensures var (whole, tail) := (|Split(s + rest, inQuotes)|, |Split(rest, Quoted(s, inQuotes))|);
            whole >= tail && (whole == tail <==> Uncut(s, inQuotes))
  {
    if s == "" {
      assert s + rest == rest;
    } else {
      CutCount(s[1..], rest, Flip(s[0], inQuotes));
      assert (s + rest)[1..] == s[1..] + rest;
    }
  }

  lemma {:induction false} CellsAreUncut(cells: seq<string>, i: nat)
    requires Cells(cells, false) && i < |cells|
    ensures Uncut(cells[i], false) && (i < |cells| - 1 ==> !Quoted(cells[i], false))
  {
    if i > 0 {
      CellsAreUncut(cells[1..], i - 1);
    }
  }

  lemma {:induction false} UncutAreCells(cells: seq<string>)
    requires cells != [] && forall i | 0 <= i < |cells| :: Uncut(cells[i], false)
    requires forall i | 0 <= i < |cells| - 1 :: !Quoted(cells[i], false)
    ensures Cells(cells, false)
  {
    if |cells| > 1 {
      UncutAreCells(cells[1..]);
    }
  }

  ghost predicate NoneTorn(line: string) {
    forall cell | cell in Split(line, false) :: !Torn(cell)
  }

  /** Splitting a sanitised line finds as many cells as before, and then exactly the sanitised
      cells, if and only if no cell is a single-quoted formula with a comma in it. */
  lemma ResplitExactly(line: string)
    ensures |Split(SanitizeLine(line), false)| == |Split(line, false)| <==> NoneTorn(line)
    ensures Split(SanitizeLine(line), false) == SanitizeCells(Split(line, false)) <==> NoneTorn(line)
    ensures |Split(SanitizeLine(line), false)| >= |Split(line, false)|
  {
    hide Split, Uncut, Quoted, Torn, SanitizeCell, Cells, Trim;
    var cells := Split(line, false);
    var clean := SanitizeCells(cells);
    SplitIsCells(line, false);
    JoinSplit(line, false);
    forall i | 0 <= i < |cells|
      ensures Uncut(clean[i], false) <==> !Torn(cells[i])
      ensures i < |cells| - 1 ==> !Quoted(clean[i], false)
    {
      CellsAreUncut(cells, i);
      SanitizedUncut(cells[i]);
    }
    if Trim(line) == "" {
      BlankLine(line);
    } else {
      SplitCount(clean);
      assert NoneTorn(line) <==> forall i | 0 <= i < |cells| :: !Torn(cells[i]);
      if NoneTorn(line) {
        UncutAreCells(clean);
        SplitJoin(clean, false);
      }
    }
  }

  /** A blank line is one blank cell, which sanitising leaves alone. */
  lemma BlankLine(line: string)
    requires Trim(line) == ""
    ensures NoneTorn(line) && SanitizeCells(Split(line, false)) == Split(line, false)
  {
    hide Trim, Split, Uncut, Quoted, AllSpace;
    TrimUncut(line, false);
    TrimmedAwayIsUncut();
    WholeCell(line, false);
  }

  lemma TrimmedAwayIsUncut()
    ensures Uncut("", false)
  {
  }

  // --- what a reader finds in a sanitised line --------------------------------------------------

  ghost predicate AllSafe(cells: seq<string>) {
    forall i | 0 <= i < |cells| :: Safe(cells[i])
  }

  /** A comma behind closed quotes separates what is read before it from what is read behind it. */
  lemma {:induction false} SplitAtComma(s: string, rest: string, inQuotes: bool)
    requires !Quoted(s, inQuotes)
    ensures Split(s + ("," + rest), inQuotes) == Split(s, inQuotes) + Split(rest, false)
  {
    var line := s + ("," + rest);
    if s == "" {
      assert line[1..] == rest;
      SplitStep(line, false);
    } else {
      var q := Flip(s[0], inQuotes);
      SplitAtComma(s[1..], rest, q);
      assert line[0] == s[0] && line[1..] == s[1..] + ("," + rest);
      SplitStep(s, inQuotes);
      SplitStep(line, inQuotes);
      hide *;
      if s[0] == ',' && !inQuotes {
        EmptyAppend(Split(s[1..], q), Split(rest, false));
      } else {
        PrefixAppend([s[0]], Split(s[1..], q), Split(rest, false));
      }
    }
  }

  lemma EmptyAppend(a: seq<string>, b: seq<string>)
    ensures [""] + (a + b) == ([""] + a) + b
  {
  }

  lemma PrefixAppend(head: string, a: seq<string>, b: seq<string>)
    requires a != []
    ensures Prefix(head, a + b) == Prefix(head, a) + b
  {
  }

  lemma {:induction false} JoinedSafe(cells: seq<string>)
    requires cells != [] && forall i | 0 <= i < |cells| - 1 :: !Quoted(cells[i], false)
    ensures AllSafe(Split(CommaJoin(cells), false)) <==> forall i | 0 <= i < |cells| :: AllSafe(Split(cells[i], false))
  {
    if |cells| > 1 {
      var (first, rest) := (cells[0], cells[1..]);
      assert CommaJoin(cells) == first + ("," + CommaJoin(rest));
      SplitAtComma(first, CommaJoin(rest), false);
      JoinedSafe(rest);
      assert forall i | 0 < i < |cells| :: cells[i] == rest[i - 1];
      hide Split, Safe, CommaJoin, Quoted;
      SafeAppend(Split(first, false), Split(CommaJoin(rest), false));
    }
  }

  lemma SafeAppend(a: seq<string>, b: seq<string>)
    ensures AllSafe(a + b) <==> AllSafe(a) && AllSafe(b)
  {
    hide Safe;
    assert forall i | 0 <= i < |b| :: (a + b)[|a| + i] == b[i];
    assert forall i | 0 <= i < |a| :: (a + b)[i] == a[i];
  }

  /** With its quotes inverted an uncut text is cut at every comma. */
  lemma {:induction false} SplitInverted(s: string, inQuotes: bool)
    requires Uncut(s, inQuotes)
    ensures Split(s, !inQuotes) == CommaSplit(s)
  {
    if s != "" {
      SplitInverted(s[1..], Flip(s[0], inQuotes));
      assert Flip(s[0], !inQuotes) == !Flip(s[0], inQuotes);
      SplitStep(s, !inQuotes);
      hide Split;
    }
  }

  /** What a torn cell reads as: a safe first piece and the splinters. */
  lemma TornPieces(cell: string)
    requires Uncut(cell, false) && Torn(cell)
    ensures var pieces := Split(SanitizeCell(cell), false);
            pieces[1..] == Splinters(cell) && Safe(pieces[0])
  {
    var (trimmed, inner) := (Trim(cell), Content(cell));
    var tail := inner + "\"";
    TrimUncut(cell, false);
    hide Uncut, Quoted, Trim;
    assert trimmed == "'" + (inner + "'") && SanitizeCell(cell) == "\"'" + tail;
    PlainUncut("'", false);
    UncutAppend("'", inner + "'", false);
    UncutAppend(inner, "'", false);
    QuoteUncut(false);
    QuoteUncut(Quoted(inner, false));
    UncutAppend(inner, "\"", false);
    SplitInverted(tail, false);
    SplitUncut("\"'", tail, false);
    hide Split, CommaSplit;
    FirstPieceSafe(CommaSplit(tail)[0]);
  }

  lemma {:induction false} TrimEndKeeps(s: string, n: nat)
    requires 0 < n <= |s| && !IsSpace(s[n - 1])
    ensures |TrimEnd(s)| >= n && TrimEnd(s)[..n] == s[..n]
    decreases |s|
  {
    if IsSpace(s[|s| - 1]) {
      TrimEndKeeps(s[..|s| - 1], n);
      assert s[..|s| - 1][..n] == s[..n];
    }
  }

  lemma FirstPieceSafe(s: string)
    ensures Safe("\"'" + s)
  {
    var c := "\"'" + s;
    assert TrimStart(c) == c;
    TrimEndKeeps(c, 2);
    var trimmed := Trim(c);
    assert trimmed[0] == trimmed[..2][0] && trimmed[1] == trimmed[..2][1];
    hide Trim, StartsFormula;
    NeitherStarts(trimmed);
  }

  lemma NeitherStarts(trimmed: string)
    requires |trimmed| >= 2 && trimmed[0] == '"' && trimmed[1] == '\''
    ensures !StartsFormula(if Enclosed(trimmed, '"') then Inner(trimmed) else trimmed)
  {
  }

  lemma FirstSafe(pieces: seq<string>, others: seq<string>)
    requires pieces != [] && pieces[1..] == others && Safe(pieces[0])
    ensures AllSafe(pieces) <==> forall piece | piece in others :: Safe(piece)
  {
    hide Safe;
    assert forall i | 0 < i < |pieces| :: pieces[i] == others[i - 1];
    if AllSafe(pieces) {
      forall piece | piece in others ensures Safe(piece) {
        var i :| 0 <= i < |others| && others[i] == piece;
        assert pieces[i + 1] == piece;
      }
    }
  }

  /** A sanitised cell reads back safe exactly when it does not come to life. */
  lemma CellReadsSafe(cell: string)
    requires Uncut(cell, false)
    ensures AllSafe(Split(SanitizeCell(cell), false)) <==> !Live(cell)
  {
    hide Split, Safe, Splinters, SanitizeCell, Torn, Uncut, Quoted;
    if Torn(cell) {
      TornPieces(cell);
      FirstSafe(Split(SanitizeCell(cell), false), Splinters(cell));
    } else {
      SanitizedUncut(cell);
      WholeCell(SanitizeCell(cell), false);
      SanitizedIsSafe(cell);
    }
  }

  ghost predicate NoneLive(line: string) {
    forall cell | cell in Split(line, false) :: !Live(cell)
  }

  /** Every cell a reader finds in the sanitised line is safe if and only if no cell of the line is a
      single-quoted formula with a comma behind which, up to the next comma or the closing quote,
      trimmed and without double quotes around it, another formula starts. */
  lemma SanitizedLineIsSafe(line: string)
    ensures AllSafe(Split(SanitizeLine(line), false)) <==> NoneLive(line)
    ensures NoneTorn(line) ==> NoneLive(line)
  {
    hide Split, Uncut, Quoted, Torn, SanitizeCell, Cells, Trim, Safe, AllSafe, Splinters;
    var cells := Split(line, false);
    var clean := SanitizeCells(cells);
    SplitIsCells(line, false);
    if Trim(line) == "" {
      BlankLineIsSafe(line);
    } else {
      forall i | 0 <= i < |cells|
        ensures AllSafe(Split(clean[i], false)) <==> !Live(cells[i])
        ensures i < |cells| - 1 ==> !Quoted(clean[i], false)
      {
        CellsAreUncut(cells, i);
        SanitizedUncut(cells[i]);
        CellReadsSafe(cells[i]);
      }
      hide Live;
      JoinedSafe(clean);
      assert NoneLive(line) <==> forall i | 0 <= i < |cells| :: !Live(cells[i]);
    }
  }

  lemma BlankLineIsSafe(line: string)
    requires Trim(line) == ""
    ensures AllSafe(Split(line, false)) && NoneLive(line) && SanitizeLine(line) == line
  {
    BlankLine(line);
    TrimUncut(line, false);
    TrimmedAwayIsUncut();
    WholeCell(line, false);
    hide Trim, Split, Uncut, Quoted, Splinters;
  }

  /** Sanitising a cell twice changes it again exactly when it was an unquoted formula that ends in
      a single quote: the added quote then completes a pair. */
  lemma SanitizeTwice(cell: string)
    ensures SanitizeCell(SanitizeCell(cell)) == SanitizeCell(cell)
            <==> !(StartsFormula(Trim(cell)) && Trim(cell)[|Trim(cell)| - 1] == '\'')
  {
    hide Trim;
    var trimmed := Trim(cell);
    if StartsFormula(Content(cell)) {
      if IsQuoted(trimmed) {
        SanitizedQuoted(Content(cell));
      } else {
        SanitizedPlain(trimmed);
      }
    }
  }

  lemma SanitizedQuoted(inner: string)
    ensures var c := "\"'" + inner + "\""; SanitizeCell(c) == c
  {
    var c := "\"'" + inner + "\"";
    assert c[|c| - 1] == '"';
    TrimFixed(c);
    hide Trim;
    assert Inner(c)[0] == '\'';
  }

  lemma SanitizedPlain(trimmed: string)
    requires StartsFormula(trimmed) && !IsSpace(trimmed[0]) && !IsSpace(trimmed[|trimmed| - 1])
    ensures SanitizeCell("'" + trimmed) == "'" + trimmed <==> trimmed[|trimmed| - 1] != '\''
  {
    var c := "'" + trimmed;
    assert c[|c| - 1] == trimmed[|trimmed| - 1];
    TrimFixed(c);
    hide Trim, IsSpace;
    if trimmed[|trimmed| - 1] == '\'' {
      assert Inner(c)[0] == trimmed[0];
      assert SanitizeCell(c)[0] == '"';
    }
  }

  /** A torn line: one cell before, more after. */
  lemma TornExample()
    ensures var line := "'=\",\"'"; |Split(line, false)| == 1 < |Split(SanitizeLine(line), false)|
  {
    var line := "'=\",\"'";
    UncutSteps(line);
    TrimFixed(line);
    hide Trim, Uncut;
    assert line[3] == ',' && Inner(line)[0] == '=';
    assert Torn(line);
    WholeCell(line, false);
    hide Split, SanitizeLine, Torn;
    assert line in Split(line, false);
    ResplitExactly(line);
  }

  lemma UncutSteps(line: string)
    requires line == "'=\",\"'"
    ensures Uncut(line, false)
  {
    assert Uncut(line[5..], false);
    assert Uncut(line[4..], true) by { assert line[4..][1..] == line[5..]; }
    assert Uncut(line[3..], true) by { assert line[3..][1..] == line[4..]; }
    assert Uncut(line[2..], false) by { assert line[2..][1..] == line[3..]; }
    assert Uncut(line[1..], false) by { assert line[1..][1..] == line[2..]; }
  }

  /** A line that the sanitiser makes dangerous: one cell of text before, a cell that starts a formula
      after. */
  lemma LiveExample()
    ensures var line := "'=\",=1\"'";
            !NoneLive(line) && exists cell | cell in Split(SanitizeLine(line), false) :: !Safe(cell)
  {
    var line := "'=\",=1\"'";
    LiveLineUncut(line);
    LiveLineIsLive(line);
    hide *;
    WholeCell(line, false);
    LiveInLine(line, line);
    SanitizedLineIsSafe(line);
    UnsafeCell(Split(SanitizeLine(line), false));
  }

  lemma LiveInLine(line: string, cell: string)
    requires Split(line, false) == [cell] && Live(cell)
    ensures !NoneLive(line)
  {
    hide Split, Live;
    assert cell in Split(line, false);
  }

  lemma UnsafeCell(cells: seq<string>)
    requires !AllSafe(cells)
    ensures exists cell | cell in cells :: !Safe(cell)
  {
    hide Safe;
    var i :| 0 <= i < |cells| && !Safe(cells[i]);
  }

  lemma LiveLineIsLive(line: string)
    requires line == "'=\",=1\"'"
    ensures Live(line)
  {
    TrimFixed(line);
    hide Trim, CommaSplit;
    var inner := "=\",=1\"";
    assert Content(line) == inner && line[3] == ',';
    LiveSplinter();
    assert Splinters(line)[0] == "=1\"\"";
    hide Safe, StartsFormula;
    assert Splinters(line)[0] in Splinters(line);
  }

  lemma CommaStep(c: char, rest: string)
    ensures var parts := CommaSplit(rest);
            CommaSplit([c] + rest) == if c == ',' then [""] + parts else [[c] + parts[0]] + parts[1..]
  {
    assert ([c] + rest)[1..] == rest;
  }

  lemma LiveSplinter()
    ensures CommaSplit("=\",=1\"" + "\"") == ["=\"", "=1\"\""] && !Safe("=1\"\"")
  {
    TrimFixed("=1\"\"");
    assert CommaSplit("") == [""];
    hide Trim, CommaSplit;
    CommaStep('"', "");
    assert ['"'] + "" == "\"" && CommaSplit("\"") == ["\""];
    CommaStep('"', "\"");
    assert ['"'] + "\"" == "\"\"" && CommaSplit("\"\"") == ["\"\""];
    CommaStep('1', "\"\"");
    assert ['1'] + "\"\"" == "1\"\"" && CommaSplit("1\"\"") == ["1\"\""];
    CommaStep('=', "1\"\"");
    assert ['='] + "1\"\"" == "=1\"\"" && CommaSplit("=1\"\"") == ["=1\"\""];
    LiveHead("=1\"\"");
    assert "=\"," + "=1\"\"" == "=\",=1\"" + "\"";
  }

  lemma LiveHead(tail: string)
    requires CommaSplit(tail) == [tail]
    ensures CommaSplit("=\"," + tail) == ["=\"", tail]
  {
    hide CommaSplit;
    CommaStep(',', tail);
    CommaStep('"', [','] + tail);
    CommaStep('=', ['"'] + ([','] + tail));
    assert ['='] + (['"'] + ([','] + tail)) == "=\"," + tail;
    assert ['='] + (['"'] + "") == "=\"";
  }

  lemma LiveLineUncut(line: string)
    requires line == "'=\",=1\"'"
    ensures Uncut(line, false)
  {
    assert Uncut(line[7..], false) by { assert line[7..][1..] == ""; }
    assert Uncut(line[6..], true) by { assert line[6..][1..] == line[7..]; }
    assert Uncut(line[5..], true) by { assert line[5..][1..] == line[6..]; }
    assert Uncut(line[4..], true) by { assert line[4..][1..] == line[5..]; }
    assert Uncut(line[3..], true) by { assert line[3..][1..] == line[4..]; }
    assert Uncut(line[2..], false) by { assert line[2..][1..] == line[3..]; }
    assert Uncut(line[1..], false) by { assert line[1..][1..] == line[2..]; }
  }

  // --- whole files ----------------------------------------------------------------------------

  /** content.split(/\r?\n/) */
  function SplitLines(text: string): (lines: seq<string>)
    ensures lines != []
  {
    if text == "" then [""]
    else if text[0] == '\n' then [""] + SplitLines(text[1..])
    else if text[0] == '\r' && |text| > 1 && text[1] == '\n' then [""] + SplitLines(text[2..])
    else Prefix([text[0]], SplitLines(text[1..]))
  }

  function JoinLines(lines: seq<string>): string
    requires lines != []
  {
    if |lines| == 1 then lines[0] else lines[0] + ("\n" + JoinLines(lines[1..]))
  }

  function SanitizeLines(lines: seq<string>): (r: seq<string>)
    ensures |r| == |lines| && forall i | 0 <= i < |lines| :: r[i] == SanitizeLine(lines[i])
  {
    seq(|lines|, i requires 0 <= i < |lines| => SanitizeLine(lines[i]))
  }

  /** sanitizeCsvBuffer on the decoded text of the file. */
  function SanitizeCsv(text: string): string {
    JoinLines(SanitizeLines(SplitLines(text)))
  }

  predicate OneLine(s: string) {
    forall i | 0 <= i < |s| :: s[i] != '\n'
  }

  function DropReturn(line: string): string {
    if line != "" && line[|line| - 1] == '\r' then line[..|line| - 1] else line
  }

  lemma {:induction false} LinesHaveNoNewline(text: string)
    ensures forall i | 0 <= i < |SplitLines(text)| :: OneLine(SplitLines(text)[i])
  {
    if text != "" {
      if text[0] == '\n' {
        LinesHaveNoNewline(text[1..]);
      } else if text[0] == '\r' && |text| > 1 && text[1] == '\n' {
        LinesHaveNoNewline(text[2..]);
      } else {
        LinesHaveNoNewline(text[1..]);
      }
    }
  }

  lemma {:induction false} FirstLine(line: string, rest: string)
    requires OneLine(line)
    ensures SplitLines(line + ("\n" + rest)) == [DropReturn(line)] + SplitLines(rest)
  {
    var text := line + ("\n" + rest);
    if line == "" {
      assert text[1..] == rest;
    } else if line == "\r" {
      assert text[1] == '\n' && text[2..] == rest;
    } else {
      FirstLine(line[1..], rest);
      assert text[1..] == line[1..] + ("\n" + rest);
      assert |line| > 1 ==> text[1] == line[1];
      assert [line[0]] + DropReturn(line[1..]) == DropReturn(line);
    }
  }

  lemma {:induction false} OnlyLine(line: string)
    requires OneLine(line)
    ensures SplitLines(line) == [line]
  {
    if line != "" {
      assert line[0] != '\n' && (|line| > 1 ==> line[1] != '\n');
      OnlyLine(line[1..]);
      assert [line[0]] + line[1..] == line;
      assert Prefix([line[0]], [line[1..]]) == [line];
    }
  }

  /** Lines joined with newlines come back, each at most without a final carriage return. */
  lemma {:induction false} RejoinLines(lines: seq<string>, i: nat)
    requires i < |lines| && forall k | 0 <= k < |lines| :: OneLine(lines[k])
    ensures |SplitLines(JoinLines(lines))| == |lines|
    ensures SplitLines(JoinLines(lines))[i] == lines[i] || SplitLines(JoinLines(lines))[i] == DropReturn(lines[i])
  {
    hide DropReturn, OneLine;
    if |lines| == 1 {
      OnlyLine(lines[0]);
    } else {
      FirstLine(lines[0], JoinLines(lines[1..]));
      RejoinLines(lines[1..], if i == 0 then 0 else i - 1);
    }
  }

  lemma {:induction false} JoinIsOneLine(cells: seq<string>)
    requires cells != []
    ensures OneLine(CommaJoin(cells)) <==> forall i | 0 <= i < |cells| :: OneLine(cells[i])
  {
    if |cells| > 1 {
      JoinIsOneLine(cells[1..]);
      var (head, tail) := (cells[0] + ",", CommaJoin(cells[1..]));
      assert CommaJoin(cells) == head + tail;
      assert OneLine(head + tail) <==> OneLine(head) && OneLine(tail) by { OneLineAppend(head, tail); }
      assert OneLine(head) <==> OneLine(cells[0]) by { OneLineAppend(cells[0], ","); }
      assert forall i | 0 < i < |cells| :: cells[i] == cells[1..][i - 1];
    }
  }

  lemma OneLineAppend(a: string, b: string)
    ensures OneLine(a + b) <==> OneLine(a) && OneLine(b)
  {
    assert forall i | 0 <= i < |a| :: (a + b)[i] == a[i];
    assert forall i | 0 <= i < |b| :: (a + b)[|a| + i] == b[i];
  }

  lemma SanitizedCellIsOneLine(cell: string)
    requires OneLine(cell)
    ensures OneLine(SanitizeCell(cell))
  {
    var before, after := TrimSplits(cell);
    OneLineAppend(before + Trim(cell), after);
    OneLineAppend(before, Trim(cell));
    hide Trim;
  }

  lemma SanitizedLineIsOneLine(line: string)
    requires OneLine(line)
    ensures OneLine(SanitizeLine(line))
  {
    hide Split, SanitizeCell, Trim, OneLine;
    var cells := Split(line, false);
    JoinSplit(line, false);
    JoinIsOneLine(cells);
    forall i | 0 <= i < |cells| ensures OneLine(SanitizeCells(cells)[i]) {
      SanitizedCellIsOneLine(cells[i]);
    }
    JoinIsOneLine(SanitizeCells(cells));
  }

  // --- a trailing carriage return -------------------------------------------------------------

  lemma {:induction false} TrimStartReturn(s: string)
    ensures TrimStart(s + "\r") == if TrimStart(s) == "" then "" else TrimStart(s) + "\r"
  {
    var t := s + "\r";
    if s == "" {
      assert t[1..] == "";
      TrimStartStep(t);
    } else {
      assert t[0] == s[0] && t[1..] == s[1..] + "\r";
      TrimStartStep(s);
      TrimStartStep(t);
      hide TrimStart, IsSpace;
      TrimStartReturn(s[1..]);
    }
  }

  lemma TrimStartStep(s: string)
    requires s != ""
    ensures TrimStart(s) == if IsSpace(s[0]) then TrimStart(s[1..]) else s
  {
  }

  lemma TrimReturn(s: string)
    ensures Trim(s + "\r") == Trim(s)
  {
    TrimStartReturn(s);
    var t := TrimStart(s) + "\r";
    assert t[..|t| - 1] == TrimStart(s);
  }

  lemma SuffixCons(cells: seq<string>, end: string)
    requires cells != []
    ensures Suffix([""] + cells, end) == [""] + Suffix(cells, end)
  {
  }

  lemma SplitReturnStep(line: string, inQuotes: bool)
    requires line != ""
    requires var q := Flip(line[0], inQuotes); Split(line[1..] + "\r", q) == Suffix(Split(line[1..], q), "\r")
    ensures Split(line + "\r", inQuotes) == Suffix(Split(line, inQuotes), "\r")
  {
    var longer := line + "\r";
    assert longer != "" && longer[0] == line[0] && longer[1..] == line[1..] + "\r";
    hide *;
    SplitStep(line, inQuotes);
    SplitStep(longer, inQuotes);
    var tail := Split(line[1..], Flip(line[0], inQuotes));
    SuffixPrefix([line[0]], tail, "\r");
    SuffixCons(tail, "\r");
  }

  lemma {:induction false} SplitReturn(line: string, inQuotes: bool)
    ensures Split(line + "\r", inQuotes) == Suffix(Split(line, inQuotes), "\r")
  {
    if line == "" {
      PlainUncut("\r", inQuotes);
      WholeCell("\r", inQuotes);
      assert line + "\r" == "\r";
    } else {
      hide *;
      SplitReturn(line[1..], Flip(line[0], inQuotes));
      SplitReturnStep(line, inQuotes);
    }
  }

  function Suffix(cells: seq<string>, end: string): (r: seq<string>)
    requires cells != []
    ensures |r| == |cells|
  {
    cells[..|cells| - 1] + [cells[|cells| - 1] + end]
  }

  lemma SuffixPrefix(head: string, cells: seq<string>, end: string)
    requires cells != []
    ensures Suffix(Prefix(head, cells), end) == Prefix(head, Suffix(cells, end))
  {
    assert (head + cells[0]) + end == head + (cells[0] + end);
  }

  lemma SplitStep(line: string, inQuotes: bool)
    requires line != ""
    ensures var tail := Split(line[1..], Flip(line[0], inQuotes));
            Split(line, inQuotes) == if line[0] == ',' && !inQuotes then [""] + tail else Prefix([line[0]], tail)
  {
  }

  lemma ReturnIsSafe(cell: string)
    ensures Safe(cell + "\r") <==> Safe(cell)
  {
    TrimReturn(cell);
    hide Trim, StartsFormula;
  }

  lemma SuffixIsSafe(cells: seq<string>, end: string)
    requires cells != []
    requires Safe(cells[|cells| - 1] + end) <==> Safe(cells[|cells| - 1])
    ensures AllSafe(Suffix(cells, end)) <==> AllSafe(cells)
  {
    hide Safe;
    assert forall i | 0 <= i < |cells| - 1 :: Suffix(cells, end)[i] == cells[i];
  }

  /** A carriage return at the end of a line changes nothing for the safety of its cells. */
  lemma DropReturnIsSafe(line: string)
    ensures AllSafe(Split(DropReturn(line), false)) <==> AllSafe(Split(line, false))
  {
    if line != "" && line[|line| - 1] == '\r' {
      var shorter := line[..|line| - 1];
      assert shorter + "\r" == line && DropReturn(line) == shorter;
      hide *;
      SplitReturn(shorter, false);
      var cells := Split(shorter, false);
      ReturnIsSafe(cells[|cells| - 1]);
      SuffixIsSafe(cells, "\r");
    }
  }

  /** Reading a sanitised file finds as many lines as the original had, and a line reads back with
      safe cells only if and only if no cell of the original line comes to life. */
  lemma SanitizedLinesAreSafe(text: string, i: nat)
    requires i < |SplitLines(text)|
    ensures var (lines, again) := (SplitLines(text), SplitLines(SanitizeCsv(text)));
            && |again| == |lines|
            && (AllSafe(Split(again[i], false)) <==> NoneLive(lines[i]))
  {
    hide SplitLines, JoinLines, SanitizeLine, Split, OneLine, Safe, DropReturn, NoneLive, AllSafe;
    var lines := SplitLines(text);
    LinesHaveNoNewline(text);
    forall k | 0 <= k < |lines| ensures OneLine(SanitizeLines(lines)[k]) {
      SanitizedLineIsOneLine(lines[k]);
    }
    RejoinLines(SanitizeLines(lines), i);
    SanitizedLineIsSafe(lines[i]);
    DropReturnIsSafe(SanitizeLine(lines[i]));
  }

  // --- reading with line breaks inside quotes ---------------------------------------------------

  /** The records of a text: a line break inside double quotes does not end one (section 2 of RFC 4180,
      rule 6). */
  function SplitRecords(text: string, inQuotes: bool): (records: seq<string>)
    ensures records != []
  {
    if text == "" then [""]
    else if text[0] == '\n' && !inQuotes then [""] + SplitRecords(text[1..], false)
    else if text[0] == '\r' && |text| > 1 && text[1] == '\n' && !inQuotes then [""] + SplitRecords(text[2..], false)
    else Prefix([text[0]], SplitRecords(text[1..], Flip(text[0], inQuotes)))
  }

  /** The lines of each record: one that leaves a quote open goes on with the next. */
  function Records(lines: seq<string>, inQuotes: bool): (records: seq<seq<string>>)
    requires lines != []
    ensures records != [] && forall k | 0 <= k < |records| :: records[k] != []
  {
    if |lines| == 1 then [lines]
    else
      var rest := Records(lines[1..], Quoted(lines[0], inQuotes));
      if Quoted(lines[0], inQuotes) then [[lines[0]] + rest[0]] + rest[1..] else [[lines[0]]] + rest
  }

  lemma {:induction false} FirstRecord(line: string, rest: string, inQuotes: bool)
    requires OneLine(line)
    ensures SplitRecords(line + ("\n" + rest), inQuotes)
            == if Quoted(line, inQuotes) then Prefix(line + "\n", SplitRecords(rest, true))
               else [DropReturn(line)] + SplitRecords(rest, false)
  {
    var text := line + ("\n" + rest);
    if line == "" {
      assert text[1..] == rest;
      assert Flip('\n', inQuotes) == inQuotes;
      assert "" + "\n" == ['\n'];
    } else if line == "\r" && !inQuotes {
      assert text[1] == '\n' && text[2..] == rest;
      assert Quoted("", false) == false && line[1..] == "";
    } else {
      var q := Flip(line[0], inQuotes);
      FirstRecord(line[1..], rest, q);
      assert text[1..] == line[1..] + ("\n" + rest);
      assert |line| > 1 ==> text[1] == line[1];
      assert Quoted(line, inQuotes) == Quoted(line[1..], q);
      LineFront(line, SplitRecords(rest, true));
    }
  }

  lemma LineFront(line: string, rest: seq<string>)
    requires line != "" && rest != []
    ensures Prefix([line[0]], Prefix(line[1..] + "\n", rest)) == Prefix(line + "\n", rest)
    ensures line != "\r" ==> [line[0]] + DropReturn(line[1..]) == DropReturn(line)
  {
    PrefixTwice([line[0]], line[1..] + "\n", rest);
    assert [line[0]] + (line[1..] + "\n") == line + "\n";
  }

  lemma {:induction false} OnlyRecord(line: string, inQuotes: bool)
    requires OneLine(line)
    ensures SplitRecords(line, inQuotes) == [line]
  {
    if line != "" {
      assert line[0] != '\n' && (|line| > 1 ==> line[1] != '\n');
      OnlyRecord(line[1..], Flip(line[0], inQuotes));
      assert [line[0]] + line[1..] == line;
      assert Prefix([line[0]], [line[1..]]) == [line];
    }
  }

  lemma DropReturnAppend(line: string, rest: string)
    ensures line + ("\n" + DropReturn(rest)) == DropReturn(line + ("\n" + rest))
  {
    var s := line + ("\n" + rest);
    if rest != "" {
      assert s[|s| - 1] == rest[|rest| - 1];
      assert s[..|s| - 1] == line + ("\n" + rest[..|rest| - 1]);
    } else {
      assert s[|s| - 1] == '\n';
    }
  }

  /** Lines joined with newlines read back record by record, each at most without a final carriage
      return. */
  lemma {:induction false} RejoinRecords(lines: seq<string>, inQuotes: bool, k: nat)
    requires lines != [] && forall i | 0 <= i < |lines| :: OneLine(lines[i])
    requires k < |Records(lines, inQuotes)|
    ensures |SplitRecords(JoinLines(lines), inQuotes)| == |Records(lines, inQuotes)|
    ensures var (read, record) := (SplitRecords(JoinLines(lines), inQuotes)[k], JoinLines(Records(lines, inQuotes)[k]));
            read == record || read == DropReturn(record)
  {
    hide DropReturn, OneLine, Quoted, SplitRecords;
    if |lines| == 1 {
      OnlyRecord(lines[0], inQuotes);
    } else {
      var (line, later) := (lines[0], lines[1..]);
      var open := Quoted(line, inQuotes);
      FirstRecord(line, JoinLines(later), inQuotes);
      RejoinRecords(later, open, if open || k == 0 then k else k - 1);
      if open && k == 0 {
        OpenRecord(line, Records(later, true)[0], SplitRecords(JoinLines(later), true)[0]);
      }
    }
  }

  lemma OpenRecord(line: string, later: seq<string>, read: string)
    requires later != [] && (read == JoinLines(later) || read == DropReturn(JoinLines(later)))
    ensures (line + "\n") + read == JoinLines([line] + later)
            || (line + "\n") + read == DropReturn(JoinLines([line] + later))
  {
    assert ([line] + later)[1..] == later;
    assert JoinLines([line] + later) == line + ("\n" + JoinLines(later));
    assert (line + "\n") + read == line + ("\n" + read);
    DropReturnAppend(line, JoinLines(later));
    hide DropReturn, JoinLines;
  }

  lemma RecordsPrefix(c: char, lines: seq<string>, inQuotes: bool)
    requires lines != []
    ensures |Records(Prefix([c], lines), inQuotes)| == |Records(lines, Flip(c, inQuotes))|
  {
    var first := [c] + lines[0];
    assert first[1..] == lines[0] && Prefix([c], lines)[1..] == lines[1..];
    assert Quoted(first, inQuotes) == Quoted(lines[0], Flip(c, inQuotes));
  }

  /** The original file has as many records as its lines make. */
  lemma {:induction false} RecordsOfText(text: string, inQuotes: bool)
    ensures |SplitRecords(text, inQuotes)| == |Records(SplitLines(text), inQuotes)|
  {
    if text != "" {
      assert Quoted("", inQuotes) == inQuotes;
      if text[0] == '\n' {
        RecordsOfText(text[1..], inQuotes);
      } else if text[0] == '\r' && |text| > 1 && text[1] == '\n' {
        RecordsOfText(text[2..], inQuotes);
        assert text[1..][1..] == text[2..] && text[1..][0] == '\n';
      } else {
        RecordsOfText(text[1..], Flip(text[0], inQuotes));
        RecordsPrefix(text[0], SplitLines(text[1..]), inQuotes);
      }
    }
  }

  lemma {:induction false} SameParity(a: seq<string>, b: seq<string>, inQuotes: bool)
    requires a != [] && |a| == |b| && forall i | 0 <= i < |a| :: Quoted(a[i], false) == Quoted(b[i], false)
    ensures Quoted(CommaJoin(a), inQuotes) == Quoted(CommaJoin(b), inQuotes)
  {
    hide Quoted;
    UncutInverted(a[0], false);
    UncutInverted(b[0], false);
    if |a| > 1 {
      var q := Quoted(a[0], inQuotes);
      SameParity(a[1..], b[1..], q);
      CommaParity(a[0], CommaJoin(a[1..]), inQuotes);
      CommaParity(b[0], CommaJoin(b[1..]), inQuotes);
      assert CommaJoin(a) == a[0] + ("," + CommaJoin(a[1..])) && CommaJoin(b) == b[0] + ("," + CommaJoin(b[1..]));
    }
  }

  lemma CommaParity(s: string, rest: string, inQuotes: bool)
    ensures Quoted(s + ("," + rest), inQuotes) == Quoted(rest, Quoted(s, inQuotes))
  {
    UncutAppend(s, "," + rest, inQuotes);
    assert ("," + rest)[1..] == rest;
    assert Quoted("," + rest, Quoted(s, inQuotes)) == Quoted(rest, Quoted(s, inQuotes));
  }

  /** Sanitising leaves a line's quotes balanced or open as they were. */
  lemma SanitizeKeepsParity(line: string, inQuotes: bool)
    ensures Quoted(SanitizeLine(line), inQuotes) == Quoted(line, inQuotes)
  {
    hide Split, Quoted, Uncut, SanitizeCell, Trim;
    var cells := Split(line, false);
    SplitIsCells(line, false);
    JoinSplit(line, false);
    forall i | 0 <= i < |cells| ensures Quoted(SanitizeCells(cells)[i], false) == Quoted(cells[i], false) {
      CellsAreUncut(cells, i);
      SanitizedUncut(cells[i]);
    }
    SameParity(SanitizeCells(cells), cells, inQuotes);
  }

  lemma SanitizeLinesCons(line: string, lines: seq<string>)
    ensures SanitizeLines([line] + lines) == [SanitizeLine(line)] + SanitizeLines(lines)
  {
    hide SanitizeLine;
  }

  /** A line in front of records: part of the first if it leaves a quote open. */
  function AddLine(line: string, open: bool, rest: seq<seq<string>>): seq<seq<string>>
    requires rest != []
  {
    if open then [[line] + rest[0]] + rest[1..] else [[line]] + rest
  }

  lemma RecordsStep(line: string, later: seq<string>, inQuotes: bool)
    requires later != []
    ensures var open := Quoted(line, inQuotes);
            Records([line] + later, inQuotes) == AddLine(line, open, Records(later, open))
  {
    assert ([line] + later)[1..] == later;
    hide Quoted;
  }

  ghost predicate SanitizedRecords(records: seq<seq<string>>, clean: seq<seq<string>>) {
    |records| == |clean| && forall k | 0 <= k < |records| :: clean[k] == SanitizeLines(records[k])
  }

  lemma AddSanitized(line: string, open: bool, rest: seq<seq<string>>, clean: seq<seq<string>>)
    requires rest != [] && SanitizedRecords(rest, clean)
    ensures SanitizedRecords(AddLine(line, open, rest), AddLine(SanitizeLine(line), open, clean))
  {
    SanitizeLinesCons(line, if open then rest[0] else []);
    assert SanitizeLines([]) == [];
    hide SanitizeLines, SanitizeLine;
    assert [line] + [] == [line] && [SanitizeLine(line)] + [] == [SanitizeLine(line)];
  }

  /** So it keeps the grouping of lines into records. */
  lemma {:induction false} RecordsSanitized(lines: seq<string>, inQuotes: bool)
    requires lines != []
    ensures SanitizedRecords(Records(lines, inQuotes), Records(SanitizeLines(lines), inQuotes))
  {
    if |lines| == 1 {
      assert Records(lines, inQuotes) == [lines];
    } else {
      var (line, later) := (lines[0], lines[1..]);
      var open := Quoted(line, inQuotes);
      assert lines == [line] + later;
      hide *;
      RecordsSanitized(later, open);
      SanitizeLinesCons(line, later);
      SanitizeKeepsParity(line, inQuotes);
      RecordsStep(line, later, inQuotes);
      RecordsStep(SanitizeLine(line), SanitizeLines(later), inQuotes);
      AddSanitized(line, open, Records(later, open), Records(SanitizeLines(later), open));
    }
  }

  lemma {:induction false} BalancedRecords(lines: seq<string>, k: nat)
    requires k < |lines| && forall i | 0 <= i < |lines| :: !Quoted(lines[i], false)
    ensures |Records(lines, false)| == |lines| && Records(lines, false)[k] == [lines[k]]
  {
    hide Quoted;
    if |lines| > 1 {
      BalancedRecords(lines[1..], if k == 0 then 0 else k - 1);
    }
  }

  /** A sanitised file has as many records as the original, and each reads as its sanitised lines. So a
      record of one line reads back safe if and only if none of its cells comes to life; one whose lines
      the sanitiser leaves alone, as it does where a formula begins behind a line break inside quotes, is
      as safe as it was. */
  lemma SanitizedRecord(text: string, k: nat)
    requires k < |Records(SplitLines(text), false)|
    ensures var record := Records(SplitLines(text), false)[k];
            var again := SplitRecords(SanitizeCsv(text), false);
            && |again| == |SplitRecords(text, false)| == |Records(SplitLines(text), false)|
            && (AllSafe(Split(again[k], false)) <==> AllSafe(Split(JoinLines(SanitizeLines(record)), false)))
            && (|record| == 1 ==> (AllSafe(Split(again[k], false)) <==> NoneLive(record[0])))
            && (SanitizeLines(record) == record ==>
                  (AllSafe(Split(again[k], false)) <==> AllSafe(Split(JoinLines(record), false))))
  {
    hide SplitLines, SanitizeLine, Split, OneLine, Safe, DropReturn, NoneLive, AllSafe, SplitRecords, Records;
    var lines := SplitLines(text);
    var record := Records(lines, false)[k];
    LinesHaveNoNewline(text);
    forall i | 0 <= i < |lines| ensures OneLine(SanitizeLines(lines)[i]) {
      SanitizedLineIsOneLine(lines[i]);
    }
    RecordsOfText(text, false);
    RecordsSanitized(lines, false);
    RejoinRecords(SanitizeLines(lines), false, k);
    DropReturnIsSafe(JoinLines(SanitizeLines(record)));
    if |record| == 1 {
      SanitizedLineIsSafe(record[0]);
    }
  }

  /** When no line leaves a quote open, the lines are the records, and the file reads back safe if and
      only if no cell of it comes to life. */
  lemma SanitizedFileIsSafe(text: string)
    requires forall i | 0 <= i < |SplitLines(text)| :: !Quoted(SplitLines(text)[i], false)
    ensures var (lines, again) := (SplitLines(text), SplitRecords(SanitizeCsv(text), false));
            && |again| == |lines|
            && (forall i | 0 <= i < |lines| :: AllSafe(Split(again[i], false)) <==> NoneLive(lines[i]))
  {
    hide *;
    var (lines, again) := (SplitLines(text), SplitRecords(SanitizeCsv(text), false));
    BalancedRecords(lines, 0);
    SanitizedRecord(text, 0);
    forall i | 0 <= i < |lines| ensures AllSafe(Split(again[i], false)) <==> NoneLive(lines[i]) {
      BalancedRecords(lines, i);
      SanitizedRecord(text, i);
    }
  }

  /** A cell that starts like text is left alone and comes to nothing. */
  lemma TextCell(cell: string)
    requires cell != "" && !IsSpace(cell[0]) && !IsSpace(cell[|cell| - 1])
    requires !StartsFormula(cell) && !IsQuoted(cell)
    ensures SanitizeCell(cell) == cell && !Live(cell)
  {
    TrimFixed(cell);
    hide Trim, Splinters, Safe;
  }

  lemma TextLine(line: string)
    requires forall cell | cell in Split(line, false) :: SanitizeCell(cell) == cell && !Live(cell)
    ensures SanitizeLine(line) == line && NoneLive(line)
  {
    hide Split, SanitizeCell, Live, Trim;
    var cells := Split(line, false);
    assert forall i | 0 <= i < |cells| :: cells[i] in cells;
    assert SanitizeCells(cells) == cells;
    JoinSplit(line, false);
  }

  lemma OpenFirst()
    ensures Split("x,\"a", false) == ["x", "\"a"] && Quoted("x,\"a", false)
  {
    var (a, b) := ("x", "\"a");
    assert a[1..] == "" && b[1..] == "a" && b[1..][1..] == "";
    assert Quoted(b, false) && Quoted(b[1..], true);
    assert Cells([b], false) && [a, b][1..] == [b];
    SplitJoin([a, b], false);
    CommaParity(a, b, false);
    assert CommaJoin([a, b]) == "x,\"a" && a + ("," + b) == "x,\"a";
  }

  lemma OpenSecond()
    ensures Split("b\",=1", false) == ["b\",=1"]
  {
    var (head, tail) := ("b\"", ",=1");
    assert head[1..] == "\"" && head[1..][1..] == "" && Uncut(head[1..], false);
    assert tail[1..] == "=1" && tail[1..][1..] == "1" && tail[1..][1..][1..] == "";
    assert Uncut(tail[1..][1..], true) && Uncut(tail[1..], true);
    assert Quoted(head[1..], false);
    UncutAppend(head, tail, false);
    assert head + tail == "b\",=1";
    WholeCell("b\",=1", false);
  }

  lemma BreakCells(text: string)
    requires text == "x,\"a\nb\",=1"
    ensures Split(text, false) == ["x", "\"a\nb\"", "=1"] && !Safe("=1")
  {
    var (a, b, c) := ("x", "\"a\nb\"", "=1");
    TrimFixed(c);
    hide Trim;
    assert a[1..] == "" && c[1..] == "1" && c[1..][1..] == "";
    BreakCell(b);
    assert Uncut(c[1..], false);
    assert Cells([c], false) && [b, c][1..] == [c] && [a, b, c][1..] == [b, c];
    assert Cells([b, c], false);
    SplitJoin([a, b, c], false);
    assert CommaJoin([b, c]) == "\"a\nb\",=1";
    assert CommaJoin([a, b, c]) == text;
  }

  lemma BreakCell(b: string)
    requires b == "\"a\nb\""
    ensures Uncut(b, false) && !Quoted(b, false)
  {
    assert b[4..][1..] == "" && Uncut(b[4..], true) && !Quoted(b[4..], true);
    assert b[3..][1..] == b[4..] && Uncut(b[3..], true) && !Quoted(b[3..], true);
    assert b[2..][1..] == b[3..] && Uncut(b[2..], true) && !Quoted(b[2..], true);
    assert b[1..][1..] == b[2..] && Uncut(b[1..], true) && !Quoted(b[1..], true);
  }

  lemma BreakLines()
    ensures var (first, second) := ("x,\"a", "b\",=1");
            && OneLine(first) && OneLine(second) && Quoted(first, false)
            && SanitizeLine(first) == first && NoneLive(first)
            && SanitizeLine(second) == second && NoneLive(second)
  {
    var (first, second) := ("x,\"a", "b\",=1");
    TextCells();
    assert OneLine(first) && OneLine(second);
    assert forall cell | cell in ["x", "\"a"] :: cell == "x" || cell == "\"a";
    assert forall cell | cell in [second] :: cell == second;
    hide *;
    OpenFirst();
    OpenSecond();
    TextLine(first);
    TextLine(second);
  }

  lemma TextCells()
    ensures SanitizeCell("x") == "x" && !Live("x")
    ensures SanitizeCell("\"a") == "\"a" && !Live("\"a")
    ensures SanitizeCell("b\",=1") == "b\",=1" && !Live("b\",=1")
  {
    hide SanitizeCell, Live;
    TextCell("x");
    TextCell("\"a");
    TextCell("b\",=1");
  }

  /** Two lines that sanitising leaves alone, the first with an open quote: one record. */
  lemma TwoLines(first: string, second: string)
    requires OneLine(first) && OneLine(second) && Quoted(first, false) && DropReturn(first) == first
    requires SanitizeLine(first) == first && SanitizeLine(second) == second
    ensures var text := first + ("\n" + second);
            SplitLines(text) == [first, second] && SanitizeCsv(text) == text && SplitRecords(text, false) == [text]
  {
    hide SplitLines, SplitRecords, Quoted, SanitizeLine, OneLine, DropReturn;
    FirstLine(first, second);
    OnlyLine(second);
    FirstRecord(first, second, false);
    OnlyRecord(second, true);
    var text := first + ("\n" + second);
    assert (first + "\n") + second == text;
    assert SplitLines(text) == [first, second] && SanitizeLines([first, second]) == [first, second];
    assert [first, second][1..] == [second] && JoinLines([second]) == second;
    assert JoinLines([first, second]) == text;
    assert Prefix(first + "\n", [second]) == [text];
  }

  /** A record over two lines that the sanitiser, reading line by line, takes for harmless text and leaves
      as it is: read with its quotes it has a cell that starts a formula. */
  lemma BreakExample()
    ensures var text := "x,\"a\nb\",=1";
            && SanitizeCsv(text) == text
            && (forall line | line in SplitLines(text) :: NoneLive(line))
            && SplitRecords(text, false) == [text]
            && Split(text, false) == ["x", "\"a\nb\"", "=1"] && !Safe("=1")
  {
    var (first, second) := ("x,\"a", "b\",=1");
    var text := "x,\"a\nb\",=1";
    assert first + ("\n" + second) == text && DropReturn(first) == first;
    BreakCells(text);
    BreakLines();
    hide *;
    TwoLines(first, second);
  }
}
