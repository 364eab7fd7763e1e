/** The line classifier of the chat markdown renderer. The whole message is
    trimmed and split on `\n`; every line becomes exactly one block, chosen
    by the first rule that applies: heading, unordered item, ordered item,
    blockquote, table row (or table separator, which renders nothing),
    paragraph, blank spacer. */
module Markdown {
  import opened Text
  import opened Options
  import Decimal
  import Inline
  import Sequences

  /** A classified line. Contents are raw text; `Formatted` applies the
      inline passes the renderer applies to them. */
  datatype Block =
    | Heading(level: nat, content: string)
    | Bullet(margin: nat, content: string)
    | Numbered(number: string, content: string)
    | Quote(content: string)
    | Row(cells: seq<string>)
    | Separator
    | Paragraph(content: string)
    | Spacer

  /** Length of the run of `c` at the start of `s`. */
  function RunOf(c: char, s: string): (n: nat)
    ensures n <= |s|
    ensures forall i :: 0 <= i < n ==> s[i] == c
    ensures n == |s| || s[n] != c
  {
    if s == [] || s[0] != c then 0 else RunOf(c, s[1..]) + 1
  }

  /** `t.replace(/^#+\s/, '')`: the `#` run and one whitespace character go
      only when whitespace follows the whole run. */
  function HeadingContent(t: string): string {
    var n := RunOf('#', t);
    if 1 <= n < |t| && IsWs(t[n]) then t[n + 1..] else t
  }

  /** `/^[-*]\s/` matches `t`. */
  predicate BulletPrefix(t: string) {
    |t| >= 2 && (t[0] == '-' || t[0] == '*') && IsWs(t[1])
  }

  /** Length of the match of `/^\d+\.\s/` on `t`, or 0 when it does not
      match. */
  function NumberPrefix(t: string): (n: nat)
    ensures n == 0 || 3 <= n <= |t|
  {
    var k := |Decimal.DigitRun(t)|;
    if 1 <= k && k + 2 <= |t| && t[k] == '.' && IsWs(t[k + 1]) then k + 2 else 0
  }

  /** `/^\d+\.\s/` matches `t` with `k` digits. */
  ghost predicate NumberedAt(t: string, k: nat) {
    1 <= k && k + 2 <= |t| && Decimal.AllDigits(t[..k]) && t[k] == '.' && IsWs(t[k + 1])
  }

  /** `NumberPrefix` finds the regular-expression match exactly when there
      is one, and it is unique. */
  lemma NumberPrefixIff(t: string)
    ensures NumberPrefix(t) > 0 <==> exists k :: NumberedAt(t, k)
    ensures forall k: nat :: NumberedAt(t, k) ==> NumberPrefix(t) == k + 2
  {
    var d := Decimal.DigitRun(t);
    if NumberPrefix(t) > 0 {
      assert t[..|d|] == d;
      assert NumberedAt(t, |d|);
    }
  }

  /** `t.replace(/^>\s?/, '')`. */
  function QuoteContent(t: string): string {
    if StartsWith(t, ">") then (if |t| >= 2 && IsWs(t[1]) then t[2..] else t[1..]) else t
  }

  /** `parts.filter(cell => cell.trim())`, each kept cell trimmed. */
  function Cells(parts: seq<string>): (r: seq<string>)
    ensures |r| <= |parts|
  {
    if parts == [] then []
    else
      var c := Trim(parts[0]);
      (if c != [] then [c] else []) + Cells(parts[1..])
  }

  /** Classification of one line, first matching rule wins. */
  function Classify(line: string): Block {
    var t := Trim(line);
    if StartsWith(t, "#") then Heading(RunOf('#', t), HeadingContent(t))
    else if BulletPrefix(t) then Bullet(LeadingWs(line) / 2, t[2..])
    else if NumberPrefix(t) > 0 then Numbered(Decimal.DigitRun(line), t[NumberPrefix(t)..])
    else if StartsWith(t, ">") then Quote(QuoteContent(t))
    else if '|' in line then (if Includes(line, "|-") then Separator else Row(Cells(Split(line, '|'))))
    else if t != [] then Paragraph(line)
    else Spacer
  }

  /** The rules in the order they are tried: each kind is chosen exactly when
      its own test passes and every earlier one fails. */
  lemma ClassifyOrder(line: string)
    ensures var t, b := Trim(line), Classify(line);
      var h, u := StartsWith(t, "#"), BulletPrefix(t);
      var o, q := NumberPrefix(t) > 0, StartsWith(t, ">");
      && (b.Heading? <==> h)
      && (b.Bullet? <==> !h && u)
      && (b.Numbered? <==> !h && !u && o)
      && (b.Quote? <==> !h && !u && !o && q)
      && (b.Row? <==> !h && !u && !o && !q && '|' in line && !Occurs(line, "|-"))
      && (b.Separator? <==> !h && !u && !o && !q && Occurs(line, "|-"))
      && (b.Paragraph? <==> !h && !u && !o && !q && '|' !in line && !AllWs(line))
      && (b.Spacer? <==> AllWs(line))
  {
    var t := Trim(line);
    TrimEmptyIff(line);
    IncludesSpec(line, "|-");
    if Occurs(line, "|-") {
      var k: nat :| At(line, k, "|-");
      assert line[k] == line[k..k + 2][0] == '|';
    }
    if AllWs(line) {
      assert '|' !in line by {
        assert forall i :: 0 <= i < |line| ==> line[i] != '|';
      }
      assert t == [];
    }
  }

  /** A heading's level is the length of the leading `#` run; its content
      drops the run and one whitespace character when whitespace follows,
      and otherwise is the whole trimmed line, `#`s included. */
  lemma HeadingShape(line: string)
    requires Classify(line).Heading?
    ensures var t, b := Trim(line), Classify(line);
      && 1 <= b.level <= |t|
      && (forall i :: 0 <= i < b.level ==> t[i] == '#')
      && (b.level == |t| || t[b.level] != '#')
      && (b.level < |t| && IsWs(t[b.level]) ==> t == t[..b.level + 1] + b.content)
      && (b.level == |t| || !IsWs(t[b.level]) ==> b.content == t)
  {
    var t := Trim(line);
    assert t[0] == t[..1][0] == '#';
  }

  /** An unordered item: the trimmed line is the marker, one whitespace
      character and the content; the margin is half the indentation of the
      untrimmed line, rounded down. */
  lemma BulletShape(line: string)
    requires Classify(line).Bullet?
    ensures var t, b := Trim(line), Classify(line);
      && (t[0] == '-' || t[0] == '*') && IsWs(t[1])
      && t == t[..2] + b.content
      && 2 * b.margin <= LeadingWs(line) < 2 * b.margin + 2
  {
    var t := Trim(line);
    assert t == t[..2] + t[2..];
  }

  /** An ordered item: the trimmed line is digits, `.`, one whitespace
      character and the content. */
  lemma NumberedShape(line: string)
    requires Classify(line).Numbered?
    ensures var t, b := Trim(line), Classify(line);
      && NumberedAt(t, |t| - |b.content| - 2)
      && t[|t| - |b.content|..] == b.content
  {
    var t, b := Trim(line), Classify(line);
    var k := NumberPrefix(t) - 2;
    assert b.content == t[k + 2..];
    assert |t| - |b.content| - 2 == k;
    NumberedParts(t);
  }

  /** The number of an ordered item is read from the untrimmed line, so it
      is empty when the item is indented and is the item's digits
      otherwise. */
  lemma NumberedNumber(line: string)
    requires Classify(line).Numbered?
    ensures var b := Classify(line);
      && b.number == Decimal.DigitRun(line)
      && (LeadingWs(line) > 0 ==> b.number == [])
      && (LeadingWs(line) == 0 ==> b.number == Decimal.DigitRun(Trim(line)))
  {
    var t := Trim(line);
    assert Classify(line) == Numbered(Decimal.DigitRun(line), t[NumberPrefix(t)..]);
    NumberOfLine(line);
  }

  /** The number shown: empty for an indented line, the leading digits
      otherwise. */
  lemma NumberOfLine(line: string)
    ensures LeadingWs(line) > 0 ==> Decimal.DigitRun(line) == []
    ensures LeadingWs(line) == 0 ==> Decimal.DigitRun(line) == Decimal.DigitRun(Trim(line))
  {
    if LeadingWs(line) > 0 {
      WsNotDigit(line[0]);
    } else {
      NumberOfUnindented(line);
    }
  }

  lemma WsNotDigit(c: char)
    requires IsWs(c)
    ensures !Decimal.IsDigit(c)
  {
  }

  /** The parts of a line that `/^\d+\.\s/` matches. */
  lemma NumberedParts(t: string)
    requires NumberPrefix(t) > 0
    ensures var k := NumberPrefix(t) - 2;
      && NumberedAt(t, k)
      && t == t[..k + 2] + t[k + 2..]
      && t[..k] == Decimal.DigitRun(t)
  {
    var d := Decimal.DigitRun(t);
    assert t[..|d|] == d;
    assert t == t[..|d| + 2] + t[|d| + 2..];
  }

  /** Without indentation the digit run of the line is that of the trimmed
      line. */
  lemma NumberOfUnindented(line: string)
    requires LeadingWs(line) == 0
    ensures Decimal.DigitRun(line) == Decimal.DigitRun(Trim(line))
  {
    var t := Trim(line);
    assert t == line[..|t|];
    if |t| < |line| {
      WsNotDigit(line[|t|]);
    }
    Decimal.DigitRunOfPrefix(line, |t|);
  }

  /** A blockquote drops the `>` and at most one whitespace character. */
  lemma QuoteShape(line: string)
    requires Classify(line).Quote?
    ensures var t, b := Trim(line), Classify(line);
      && t[0] == '>'
      && (t == ">" + b.content || (IsWs(t[1]) && t == t[..2] + b.content))
      && (|t| >= 2 && IsWs(t[1]) ==> b.content == t[2..])
  {
    var t := Trim(line);
    assert t[0] == t[..1][0];
    assert t == t[..1] + t[1..];
    assert |t| >= 2 ==> t == t[..2] + t[2..];
  }

  /** A table row: its cells are the `|`-separated fragments that are not
      blank, trimmed and in order; none contains a `|`. */
  lemma RowShape(line: string)
    requires Classify(line).Row?
    ensures var b := Classify(line);
      && '|' in line && !Occurs(line, "|-")
      && b.cells == Cells(Split(line, '|'))
      && |b.cells| <= Count('|', line) + 1
      && (forall i :: 0 <= i < |b.cells| ==> '|' !in b.cells[i])
      && (forall i :: 0 <= i < |b.cells| ==> b.cells[i] != [] && Trim(b.cells[i]) == b.cells[i])
  {
    ClassifyOrder(line);
    var parts := Split(line, '|');
    SplitCount(line, '|');
    SplitSpec(line, '|');
    CellsWithout(parts, '|');
    CellsTrimmed(parts);
  }

  /** Every cell is non-blank and trims to itself. */
  lemma {:induction false} CellsTrimmed(parts: seq<string>)
    ensures forall i :: 0 <= i < |Cells(parts)| ==> Cells(parts)[i] != [] && Trim(Cells(parts)[i]) == Cells(parts)[i]
  {
    if parts != [] {
      CellsTrimmed(parts[1..]);
      var c := Trim(parts[0]);
      if c != [] {
        TrimOfTrimmed(c);
      }
    }
  }

  /** No cell holds a character that no fragment holds. */
  lemma {:induction false} CellsWithout(parts: seq<string>, c: char)
    requires forall i :: 0 <= i < |parts| ==> c !in parts[i]
    ensures forall i :: 0 <= i < |Cells(parts)| ==> c !in Cells(parts)[i]
  {
    if parts != [] {
      CellsWithout(parts[1..], c);
      TrimWithout(parts[0], c);
    }
  }

  lemma TrimWithout(s: string, c: char)
    requires c !in s
    ensures c !in Trim(s)
  {
    var k := LeadingWs(s);
    var r := Trim(s);
    forall i | 0 <= i < |r| ensures r[i] != c {
      assert r[i] == s[k + i];
    }
  }

  /** Fragments that are already trimmed and not blank become the cells
      unchanged. */
  lemma {:induction false} CellsOfTrimmed(parts: seq<string>)
    requires forall i :: 0 <= i < |parts| ==> parts[i] != [] && Trim(parts[i]) == parts[i]
    ensures Cells(parts) == parts
  {
    if parts != [] {
      CellsOfTrimmed(parts[1..]);
    }
  }

  /** A fragment that is not all whitespace: what `cell => cell.trim()`
      keeps. */
  predicate NonBlank(s: string) {
    !AllWs(s)
  }

  function TrimAll(parts: seq<string>): seq<string> {
    if parts == [] then [] else [Trim(parts[0])] + TrimAll(parts[1..])
  }

  /** The cells are the non-blank fragments, wherever they stand, in their
      order and each trimmed. */
  lemma {:induction false} CellsAsFilter(parts: seq<string>)
    ensures Cells(parts) == TrimAll(Sequences.Filter(parts, NonBlank))
  {
    if parts != [] {
      var rest := parts[1..];
      var kept := Sequences.Filter(rest, NonBlank);
      var c := Trim(parts[0]);
      CellsAsFilter(rest);
      TrimEmptyIff(parts[0]);
      assert Cells(parts) == (if c != [] then [c] else []) + Cells(rest);
      if NonBlank(parts[0]) {
        assert Sequences.Filter(parts, NonBlank) == [parts[0]] + kept;
        assert TrimAll([parts[0]] + kept) == [c] + TrimAll(kept) by {
          assert ([parts[0]] + kept)[1..] == kept;
        }
      } else {
        assert Sequences.Filter(parts, NonBlank) == kept;
      }
    }
  }

  /** Tailwind text size for a heading level. */
  function HeadingSize(level: nat): string {
    if level == 1 then "3xl" else if level == 2 then "2xl" else if level == 3 then "xl" else "lg"
  }

  /** Position of a size on Tailwind's scale `lg < xl < 2xl < 3xl`. */
  function SizeRank(size: string): nat {
    if size == "3xl" then 3 else if size == "2xl" then 2 else if size == "xl" then 1 else 0
  }

  /** A deeper heading is never larger; levels 1 to 3 get `3xl`, `2xl` and
      `xl`, and every deeper level the smallest, `lg`. */
  lemma HeadingSizeOrder(a: nat, b: nat)
    requires 1 <= a <= b
    ensures SizeRank(HeadingSize(a)) >= SizeRank(HeadingSize(b))
    ensures a < b <= 3 ==> SizeRank(HeadingSize(a)) > SizeRank(HeadingSize(b))
    ensures b >= 4 ==> HeadingSize(b) == "lg"
    ensures HeadingSize(1) == "3xl" && HeadingSize(2) == "2xl" && HeadingSize(3) == "xl"
  {
  }

  /** What the renderer shows for a block: inline formatting applied to every
      content except a heading's. */
  function Formatted(b: Block): Block {
    match b
    case Heading(_, _) => b
    case Bullet(m, c) => Bullet(m, Inline.Format(c))
    case Numbered(n, c) => Numbered(n, Inline.Format(c))
    case Quote(c) => Quote(Inline.Format(c))
    case Row(cells) => Row(FormatAll(cells))
    case Separator => b
    case Paragraph(c) => Paragraph(Inline.Format(c))
    case Spacer => b
  }

  function FormatAll(cells: seq<string>): (r: seq<string>)
    ensures |r| == |cells|
  {
    if cells == [] then [] else [Inline.Format(cells[0])] + FormatAll(cells[1..])
  }

  /** One line of output: nothing for a table separator, otherwise the
      formatted block. */
  function RenderLine(line: string): Option<Block> {
    var b := Classify(line);
    if b.Separator? then None else Some(Formatted(b))
  }

  function RenderLines(lines: seq<string>): (r: seq<Option<Block>>)
    ensures |r| == |lines|
  {
    if lines == [] then [] else [RenderLine(lines[0])] + RenderLines(lines[1..])
  }

  /** `renderMarkdown`. */
  function Render(text: string): seq<Option<Block>> {
    RenderLines(Split(Trim(text), '\n'))
  }

  /** One entry per line of the trimmed text: one more than its line
      breaks. */
  lemma RenderLength(text: string)
    ensures |Render(text)| == Count('\n', Trim(text)) + 1
  {
    SplitCount(Trim(text), '\n');
  }

  /** Each entry is the rendering of its own line, the lines being the
      pieces between line breaks: rendering text joined from lines renders
      those lines, when the joined text is already trimmed. */
  lemma RenderJoined(lines: seq<string>)
    requires |lines| >= 1
    requires forall i :: 0 <= i < |lines| ==> '\n' !in lines[i]
    requires Trim(Join(lines, '\n')) == Join(lines, '\n')
    ensures Render(Join(lines, '\n')) == RenderLines(lines)
  {
    var text := Join(lines, '\n');
    SplitJoin(lines, '\n');
    assert Split(Trim(text), '\n') == lines;
  }

  /** An empty message renders one blank spacer, not nothing. */
  lemma RenderEmpty()
    ensures Render("") == [Some(Spacer)]
  {
    assert Trim("") == "";
    assert Split("", '\n') == [""];
    ClassifyOrder("");
  }

  /** Headings bypass inline formatting. */
  lemma HeadingUnformatted(line: string)
    requires Classify(line).Heading?
    ensures RenderLine(line) == Some(Classify(line))
  {
  }

  /** A line without `*`, `` ` ``, `~` and `[` renders as its classification
      (or not at all, for a separator). */
  lemma PlainLine(line: string)
    requires Inline.FreeOfDelimiters(line)
    ensures RenderLine(line) == if Classify(line).Separator? then None else Some(Classify(line))
  {
    var t := Trim(line);
    TrimPlain(line);
    match Classify(line)
    case Heading(_, _) =>
    case Bullet(_, c) =>
      Inline.PlainTextUnchanged(t[2..]);
    case Numbered(_, c) =>
      Inline.PlainTextUnchanged(c);
    case Quote(c) =>
      Inline.PlainTextUnchanged(c);
    case Row(cells) =>
      var parts := Split(line, '|');
      SplitSpec(line, '|');
      PartsPlain(line, parts);
      CellsPlain(parts);
      FormatAllPlain(cells);
    case Separator =>
    case Paragraph(c) =>
      Inline.PlainTextUnchanged(line);
    case Spacer =>
  }

  lemma TrimPlain(s: string)
    requires Inline.FreeOfDelimiters(s)
    ensures Inline.FreeOfDelimiters(Trim(s))
    ensures forall k :: 0 <= k <= |Trim(s)| ==> Inline.FreeOfDelimiters(Trim(s)[k..])
  {
    TrimWithout(s, '*');
    TrimWithout(s, '`');
    TrimWithout(s, '~');
    TrimWithout(s, '[');
  }

  lemma PartsPlain(s: string, parts: seq<string>)
    requires Inline.FreeOfDelimiters(s) && |parts| >= 1 && Join(parts, '|') == s
    ensures forall i :: 0 <= i < |parts| ==> Inline.FreeOfDelimiters(parts[i])
  {
    forall i | 0 <= i < |parts| ensures Inline.FreeOfDelimiters(parts[i]) {
      JoinContains(parts, '|', i);
      forall k | 0 <= k < |parts[i]| ensures !Inline.Delimiter(parts[i][k]) {
        assert parts[i][k] in s;
        var j :| 0 <= j < |s| && s[j] == parts[i][k];
      }
    }
  }

  /** Every character of a part is a character of the joined text. */
  lemma {:induction false} JoinContains(parts: seq<string>, sep: char, i: nat)
    requires i < |parts|
    ensures forall c :: c in parts[i] ==> c in Join(parts, sep)
  {
    if |parts| > 1 {
      if i > 0 {
        JoinContains(parts[1..], sep, i - 1);
      }
    }
  }

  lemma {:induction false} CellsPlain(parts: seq<string>)
    requires forall i :: 0 <= i < |parts| ==> Inline.FreeOfDelimiters(parts[i])
    ensures forall i :: 0 <= i < |Cells(parts)| ==> Inline.FreeOfDelimiters(Cells(parts)[i])
  {
    if parts != [] {
      CellsPlain(parts[1..]);
      TrimPlain(parts[0]);
    }
  }

  lemma {:induction false} FormatAllPlain(cells: seq<string>)
    requires forall i :: 0 <= i < |cells| ==> Inline.FreeOfDelimiters(cells[i])
    ensures FormatAll(cells) == cells
  {
    if cells != [] {
      FormatAllPlain(cells[1..]);
      Inline.PlainTextUnchanged(cells[0]);
    }
  }

  /** First match wins: a quoted line holding a `|` is a quote, a heading
      holding one is a heading. */
  lemma QuoteBeforeTable()
    ensures Classify("> a | b") == Quote("a | b")
  {
    var line := "> a | b";
    TrimOfTrimmed(line);
    assert !StartsWith(line, "#") && !BulletPrefix(line);
    assert Decimal.DigitRun(line) == [];
    assert line[..1] == ">";
    assert line[2..] == "a | b";
  }

  lemma HeadingBeforeTable()
    ensures Classify("# a | b") == Heading(1, "a | b")
  {
    var line := "# a | b";
    TrimOfTrimmed(line);
    assert line[..1] == "#";
    assert RunOf('#', line[1..]) == 0;
    assert line[2..] == "a | b";
  }
}
