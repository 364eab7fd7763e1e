/** Inline formatting of the chat markdown renderer: five global regular
    expression substitutions applied in a fixed order (bold, italic, code,
    strikethrough, link). The result is the HTML string the renderer injects.

    Each substitution is modelled the way a global `String.prototype.replace`
    runs: at each position it tries the pattern; on a match it emits the
    replacement and resumes after the match, otherwise it copies one
    character and moves on. The lazy group `(.*?)` matches the shortest run
    of characters other than line terminators. */
module Inline {
  import opened Text
  import opened Options

  /** A character the regular-expression `.` accepts. */
  predicate Dot(c: char) {
    !IsLineTerminator(c)
  }

  /** Every character of `s[lo..hi]` is accepted by `.`. */
  predicate AllDot(s: string, lo: nat, hi: nat)
    requires lo <= hi <= |s|
  {
    forall k :: lo <= k < hi ==> Dot(s[k])
  }

  /** First position `k >= i` where `t` occurs, provided every character
      skipped on the way is accepted by `.`: how a lazy `(.*?)` followed by
      the literal `t` extends. */
  function FindFrom(s: string, t: string, i: nat): (r: Option<nat>)
    requires i <= |s|
    ensures r.Some? ==> i <= r.value && At(s, r.value, t)
    decreases |s| - i
  {
    if i + |t| > |s| then None
    else if At(s, i, t) then Some(i)
    else if !Dot(s[i]) then None
    else FindFrom(s, t, i + 1)
  }

  /** `FindFrom` finds the first occurrence reachable over `.` characters,
      and reports none only when every occurrence lies behind a line
      terminator. */
  lemma {:induction false} FindFromSpec(s: string, t: string, i: nat)
    requires i <= |s|
    ensures var r := FindFrom(s, t, i);
      && (r.Some? ==> AllDot(s, i, r.value) && forall k :: i <= k < r.value ==> !At(s, k, t))
      && (r.None? ==> forall k :: i <= k && At(s, k, t) ==> !AllDot(s, i, k))
    decreases |s| - i
  {
    if i + |t| <= |s| && !At(s, i, t) && Dot(s[i]) {
      FindFromSpec(s, t, i + 1);
    }
  }

  /** The pattern `D(.*?)D` matches at the start of `s` with its closing
      delimiter at `q`. */
  ghost predicate PairAt(s: string, d: string, q: nat) {
    && |d| <= q
    && StartsWith(s, d)
    && At(s, q, d)
    && AllDot(s, |d|, q)
  }

  /** The match of `D(.*?)D` at the start of `s`: the shortest one. */
  function PairMatch(s: string, d: string): (r: Option<nat>)
    requires |d| > 0
    ensures r.Some? ==> |d| <= r.value && StartsWith(s, d) && At(s, r.value, d)
  {
    if StartsWith(s, d) then FindFrom(s, d, |d|) else None
  }

  /** `PairMatch` finds a match exactly when the pattern matches, and then
      the shortest one. */
  lemma PairMatchSpec(s: string, d: string)
    requires |d| > 0
    ensures var r := PairMatch(s, d);
      && (r.Some? ==> PairAt(s, d, r.value) && forall q :: PairAt(s, d, q) ==> r.value <= q)
      && (r.None? <==> forall q :: !PairAt(s, d, q))
  {
    if StartsWith(s, d) {
      FindFromSpec(s, d, |d|);
    }
  }

  /** What a global replacement does at one position: the text it emits and
      how many input characters it consumes. */
  datatype Step = Step(emit: string, used: nat)

  /** One position of `s.replace(/D(.*?)D/g, open + '$1' + close)`: a match
      `D m D` becomes `open m close`; otherwise one character is copied. */
  function PassStep(s: string, d: string, open: string, close: string): (st: Step)
    requires |d| > 0 && s != []
    ensures 1 <= st.used <= |s|
  {
    match PairMatch(s, d)
    case Some(q) => Step(open + s[|d|..q] + close, q + |d|)
    case None => Step([s[0]], 1)
  }

  /** `s.replace(/D(.*?)D/g, open + '$1' + close)`. */
  function Pass(s: string, d: string, open: string, close: string): string
    requires |d| > 0
    decreases |s|
  {
    if s == [] then []
    else
      var st := PassStep(s, d, open, close);
      st.emit + Pass(s[st.used..], d, open, close)
  }

  /** A pass never adds a character its tags do not contain, and keeps every
      character that is neither in the tags nor in the delimiter. */
  lemma {:induction false} PassCount(s: string, d: string, open: string, close: string, c: char)
    requires |d| > 0
    requires c !in open && c !in close
    ensures Count(c, Pass(s, d, open, close)) <= Count(c, s)
    ensures c !in d ==> Count(c, Pass(s, d, open, close)) == Count(c, s)
    decreases |s|
  {
    if s != [] {
      var st := PassStep(s, d, open, close);
      PassCount(s[st.used..], d, open, close, c);
      PassStepCount(s, d, open, close, c);
      CountAppend(c, st.emit, Pass(s[st.used..], d, open, close));
      CountSplitAt(c, s, st.used);
    }
  }

  /** One step emits no more occurrences of `c` than it consumes, and
      exactly as many when `c` is not part of the delimiter. */
  lemma PassStepCount(s: string, d: string, open: string, close: string, c: char)
    requires |d| > 0 && s != []
    requires c !in open && c !in close
    ensures var st := PassStep(s, d, open, close);
      && Count(c, st.emit) <= Count(c, s[..st.used])
      && (c !in d ==> Count(c, st.emit) == Count(c, s[..st.used]))
  {
    match PairMatch(s, d)
    case Some(q) =>
      CountReplaced(c, s, d, q, open, close);
    case None =>
      assert s[..1] == [s[0]];
  }

  /** Counting for one match: the match `d m d` becomes `open m close`. */
  lemma CountReplaced(c: char, s: string, d: string, q: nat, open: string, close: string)
    requires |d| <= q && q + |d| <= |s| && s[..|d|] == d && s[q..q + |d|] == d
    requires c !in open && c !in close
    ensures Count(c, open + s[|d|..q] + close) <= Count(c, s[..q + |d|])
    ensures c !in d ==> Count(c, open + s[|d|..q] + close) == Count(c, s[..q + |d|])
  {
    var m := s[|d|..q];
    assert s[..q + |d|] == d + m + d;
    CountAbsent(c, open);
    CountAbsent(c, close);
    CountAppend(c, open, m);
    CountAppend(c, open + m, close);
    CountAppend(c, d, m);
    CountAppend(c, d + m, d);
    if c !in d {
      CountAbsent(c, d);
    }
  }

  const StrongOpen := "<strong>"
  const StrongClose := "</strong>"
  const EmOpen := "<em>"
  const EmClose := "</em>"
  const CodeOpen := "<code class=\"bg-gray-100 px-1 rounded\">"
  const CodeClose := "</code>"
  const DelOpen := "<del>"
  const DelClose := "</del>"

  function BoldPass(s: string): string {
    Pass(s, "**", StrongOpen, StrongClose)
  }

  function ItalicPass(s: string): string {
    Pass(s, "*", EmOpen, EmClose)
  }

  function CodePass(s: string): string {
    Pass(s, "`", CodeOpen, CodeClose)
  }

  function StrikePass(s: string): string {
    Pass(s, "~~", DelOpen, DelClose)
  }

  const AnchorHead := "<a href=\""
  const AnchorMid := "\" class=\"text-blue-500 hover:underline\">"
  const AnchorTail := "</a>"

  /** The anchor the link pass substitutes for `[text](url)`. */
  function Anchor(text: string, url: string): string {
    AnchorHead + url + AnchorMid + text + AnchorTail
  }

  /** The pattern `\[(.*?)\]\((.*?)\)` matches at the start of `s` with the
      `](` at `i` and the closing `)` at `j`. */
  ghost predicate LinkAt(s: string, i: nat, j: nat) {
    && StartsWith(s, "[")
    && 1 <= i && At(s, i, "](") && AllDot(s, 1, i)
    && i + 2 <= j && At(s, j, ")") && AllDot(s, i + 2, j)
  }

  /** Where a link match splits: the `](` at `i`, the closing `)` at `j`. */
  datatype LinkSplit = LinkSplit(i: nat, j: nat)

  /** The match of the link pattern at the start of `s`. A backtracking
      matcher tries the split points `(i, j)` in lexicographic order; the
      result is the least one. */
  function LinkMatch(s: string): (r: Option<LinkSplit>)
    ensures r.Some? ==> 1 <= r.value.i && r.value.i + 2 <= r.value.j < |s|
  {
    if !StartsWith(s, "[") then None
    else
      match FindFrom(s, "](", 1)
      case None => None
      case Some(i) =>
        match FindFrom(s, ")", i + 2)
        case None => None
        case Some(j) => Some(LinkSplit(i, j))
  }

  /** `LinkMatch` finds a match exactly when the pattern matches, and then
      the least split. */
  lemma LinkMatchSpec(s: string)
    ensures var r := LinkMatch(s);
      && (r.Some? ==> LinkAt(s, r.value.i, r.value.j))
      && (r.Some? ==> forall i, j :: LinkAt(s, i, j) ==> r.value.i < i || (r.value.i == i && r.value.j <= j))
      && (r.None? <==> forall i, j :: !LinkAt(s, i, j))
  {
    if StartsWith(s, "[") {
      FindFromSpec(s, "](", 1);
      match FindFrom(s, "](", 1)
      case None =>
      case Some(i) =>
        FindFromSpec(s, ")", i + 2);
        match FindFrom(s, ")", i + 2)
        case None =>
          forall i', j | LinkAt(s, i', j) ensures false {
            LaterSplitGivesEarlierOne(s, i, i', j);
          }
        case Some(j) =>
          assert LinkAt(s, i, j);
          forall i', j' | LinkAt(s, i', j') ensures i < i' || (i == i' && j <= j') {
            assert i <= i';
          }
    }
  }

  /** If a later `](` admits a closing `)`, so does the first one: the gap
      between them is made of characters `.` accepts. */
  lemma LaterSplitGivesEarlierOne(s: string, i: nat, i': nat, j: nat)
    requires LinkAt(s, i', j)
    requires FindFrom(s, "](", 1) == Some(i)
    ensures !(FindFrom(s, ")", i + 2).None?)
  {
    FindFromSpec(s, "](", 1);
    FindFromSpec(s, ")", i + 2);
    assert i <= i';
    if i < i' {
      assert s[i + 1] == s[i..i + 2][1] == '(';
      assert s[i'] == s[i'..i' + 2][0] == ']';
      assert AllDot(s, i + 2, j) by {
        forall k | i + 2 <= k < j ensures Dot(s[k]) {
          if k < i' {
          } else if k < i' + 2 {
            assert s[k] == s[i'..i' + 2][k - i'];
          }
        }
      }
    }
  }

  /** One position of the link replacement: a match `[text](url)` becomes
      the anchor; otherwise one character is copied. */
  function LinkStep(s: string): (st: Step)
    requires s != []
    ensures 1 <= st.used <= |s|
  {
    match LinkMatch(s)
    case Some(LinkSplit(i, j)) => Step(Anchor(s[1..i], s[i + 2..j]), j + 1)
    case None => Step([s[0]], 1)
  }

  /** `s.replace(/\[(.*?)\]\((.*?)\)/g, anchor)`. */
  function LinkPass(s: string): string
    decreases |s|
  {
    if s == [] then []
    else
      var st := LinkStep(s);
      st.emit + LinkPass(s[st.used..])
  }

  /** The link pass never adds a delimiter character. */
  lemma {:induction false} LinkPassCount(s: string, c: char)
    requires Delimiter(c)
    ensures Count(c, LinkPass(s)) <= Count(c, s)
    decreases |s|
  {
    if s != [] {
      var st := LinkStep(s);
      LinkPassCount(s[st.used..], c);
      LinkStepCount(s, c);
      CountAppend(c, st.emit, LinkPass(s[st.used..]));
      CountSplitAt(c, s, st.used);
    }
  }

  /** One link step emits no more delimiter characters than it consumes. */
  lemma LinkStepCount(s: string, c: char)
    requires s != [] && Delimiter(c)
    ensures Count(c, LinkStep(s).emit) <= Count(c, s[..LinkStep(s).used])
  {
    match LinkMatch(s)
    case Some(LinkSplit(i, j)) =>
      CountAnchor(c, s[1..i], s[i + 2..j]);
      CountTwoSlices(c, s, 1, i, i + 2, j, j + 1);
    case None =>
      assert s[..1] == [s[0]];
  }

  lemma CountAnchor(c: char, text: string, url: string)
    requires Delimiter(c)
    ensures Count(c, Anchor(text, url)) == Count(c, text) + Count(c, url)
  {
    TagsHoldNoDelimiter(c);
    CountAbsent(c, AnchorHead);
    CountAbsent(c, AnchorMid);
    CountAbsent(c, AnchorTail);
    CountAppend(c, AnchorHead, url);
    CountAppend(c, AnchorHead + url, AnchorMid);
    CountAppend(c, AnchorHead + url + AnchorMid, text);
    CountAppend(c, AnchorHead + url + AnchorMid + text, AnchorTail);
  }

  /** `processInlineFormatting`: the five substitutions in source order. */
  function Format(s: string): string {
    LinkPass(StrikePass(CodePass(ItalicPass(BoldPass(s)))))
  }

  /** A pass leaves text without its delimiter's first character unchanged. */
  lemma {:induction false} PassWithoutDelimiter(s: string, d: string, open: string, close: string)
    requires |d| > 0 && d[0] !in s
    ensures Pass(s, d, open, close) == s
    decreases |s|
  {
    if s != [] {
      assert !StartsWith(s, d) by {
        assert |d| <= |s| ==> s[..|d|][0] == s[0];
      }
      PassWithoutDelimiter(s[1..], d, open, close);
    }
  }

  /** The link pass leaves text without `[` unchanged. */
  lemma {:induction false} LinkPassWithoutBracket(s: string)
    requires '[' !in s
    ensures LinkPass(s) == s
    decreases |s|
  {
    if s != [] {
      assert !StartsWith(s, "[") by {
        assert 1 <= |s| ==> s[..1][0] == s[0];
      }
      LinkPassWithoutBracket(s[1..]);
    }
  }

  /** A character some pass uses as (the start of) a delimiter. */
  predicate Delimiter(c: char) {
    c == '*' || c == '`' || c == '~' || c == '['
  }

  /** Text in which no pass can find a delimiter. */
  predicate FreeOfDelimiters(s: string) {
    forall i :: 0 <= i < |s| ==> !Delimiter(s[i])
  }

  /** Text containing none of `*`, `` ` ``, `~`, `[` comes out of inline
      formatting unchanged. */
  lemma PlainTextUnchanged(s: string)
    requires FreeOfDelimiters(s)
    ensures Format(s) == s
  {
    PassWithoutDelimiter(s, "**", StrongOpen, StrongClose);
    PassWithoutDelimiter(s, "*", EmOpen, EmClose);
    PassWithoutDelimiter(s, "`", CodeOpen, CodeClose);
    PassWithoutDelimiter(s, "~~", DelOpen, DelClose);
    LinkPassWithoutBracket(s);
  }

  lemma CodeOpenIsFree()
    ensures FreeOfDelimiters(CodeOpen)
  {
  }

  lemma AnchorMidIsFree()
    ensures FreeOfDelimiters(AnchorMid)
  {
  }

  lemma ShortTagsAreFree()
    ensures FreeOfDelimiters(StrongOpen) && FreeOfDelimiters(StrongClose)
    ensures FreeOfDelimiters(EmOpen) && FreeOfDelimiters(EmClose)
    ensures FreeOfDelimiters(CodeClose) && FreeOfDelimiters(DelOpen) && FreeOfDelimiters(DelClose)
    ensures FreeOfDelimiters(AnchorHead) && FreeOfDelimiters(AnchorTail)
  {
  }

  lemma TagsHoldNoDelimiter(c: char)
    requires Delimiter(c)
    ensures c !in StrongOpen && c !in StrongClose && c !in EmOpen && c !in EmClose
    ensures c !in CodeOpen && c !in CodeClose && c !in DelOpen && c !in DelClose
    ensures c !in AnchorHead && c !in AnchorMid && c !in AnchorTail
  {
    CodeOpenIsFree();
    AnchorMidIsFree();
    ShortTagsAreFree();
  }

  /** None of the inserted tags contains a delimiter character, so formatting
      never creates a `*`, `` ` ``, `~` or `[` that a pass could match. */
  lemma FormatAddsNoDelimiters(s: string, c: char)
    requires Delimiter(c)
    ensures Count(c, Format(s)) <= Count(c, s)
  {
    TagsHoldNoDelimiter(c);
    var b := BoldPass(s);
    var i := ItalicPass(b);
    var k := CodePass(i);
    var t := StrikePass(k);
    PassCount(s, "**", StrongOpen, StrongClose, c);
    PassCount(b, "*", EmOpen, EmClose, c);
    PassCount(i, "`", CodeOpen, CodeClose, c);
    PassCount(k, "~~", DelOpen, DelClose, c);
    LinkPassCount(t, c);
  }

  /** A pass that finds no match at any position copies its input. */
  lemma {:induction false} PassWithoutMatch(s: string, d: string, open: string, close: string)
    requires |d| > 0
    requires forall k :: 0 <= k < |s| ==> PairMatch(s[k..], d).None?
    ensures Pass(s, d, open, close) == s
    decreases |s|
  {
    if s != [] {
      assert PairMatch(s[0..], d).None? && s[0..] == s;
      forall k | 0 <= k < |s[1..]| ensures PairMatch(s[1..][k..], d).None? {
        assert s[1..][k..] == s[k + 1..];
      }
      PassWithoutMatch(s[1..], d, open, close);
    }
  }

  /** Where the pattern does not match, a pass copies one character and
      carries on from the next. */
  lemma PassCopyStep(s: string, d: string, open: string, close: string)
    requires |d| > 0 && s != []
    ensures PairMatch(s, d).None? ==> Pass(s, d, open, close) == [s[0]] + Pass(s[1..], d, open, close)
  {
  }

  /** Where the pattern matches, a pass emits the opening tag, the text
      between the delimiters and the closing tag, and resumes after the
      closing delimiter. */
  lemma PassMatchStep(s: string, d: string, open: string, close: string, q: nat)
    requires |d| > 0
    ensures PairMatch(s, d) == Some(q) ==>
      && |d| <= q && q + |d| <= |s|
      && Pass(s, d, open, close) == open + s[|d|..q] + close + Pass(s[q + |d|..], d, open, close)
  {
  }

  /** The pattern `D(.*?)D` matches at position `k` of `s`. */
  predicate PairMatchesAt(s: string, d: string, k: nat)
    requires |d| > 0 && k <= |s|
  {
    PairMatch(s[k..], d).Some?
  }

  /** The link pattern matches at position `k` of `s`. */
  predicate LinkMatchesAt(s: string, k: nat)
    requires k <= |s|
  {
    LinkMatch(s[k..]).Some?
  }

  /** The character at `p - 1` and the text after it make up `s[p - 1..]`. */
  lemma SuffixShift<T>(s: seq<T>, p: nat)
    requires 0 < p <= |s|
    ensures s[p - 1..][0] == s[p - 1] && s[p - 1..][1..] == s[p..]
    ensures s[..p] == s[..p - 1] + [s[p - 1]]
  {
  }

  /** Positions in `s[p..]` are positions in `s` shifted by `p`. */
  lemma SliceOfSuffix<T>(s: seq<T>, p: nat, a: nat, b: nat)
    requires p <= |s| && a <= b <= |s| - p
    ensures s[p..][a..b] == s[p + a..p + b]
    ensures b == |s| - p ==> s[p..][a..] == s[p + a..]
  {
  }

  /** Output that copies `s[..p - 1]` and then `s[p - 1]` copies `s[..p]`. */
  lemma ExtendPrefix(s: string, p: nat, x: string, y: string, rest: string)
    requires 0 < p <= |s|
    requires x == s[..p - 1] + y && y == [s[p - 1]] + rest
    ensures x == s[..p] + rest
  {
    assert s[..p] == s[..p - 1] + [s[p - 1]];
  }

  /** Output made of a copied prefix and then `open m close rest`. */
  lemma Splice(x: string, pre: string, y: string, open: string, m: string, close: string, rest: string)
    requires x == pre + y && y == open + m + close + rest
    ensures x == pre + open + m + close + rest
  {
  }

  /** Output made of a copied prefix and then an anchor and `rest`. */
  lemma SpliceAnchor(x: string, pre: string, y: string, anchor: string, rest: string)
    requires x == pre + y && y == anchor + rest
    ensures x == pre + anchor + rest
  {
  }

  /** A pass copies every position before the first match. */
  lemma {:induction false} PassSkipsPrefix(s: string, d: string, open: string, close: string, p: nat)
    requires |d| > 0 && p <= |s|
    requires forall k :: 0 <= k < p ==> !PairMatchesAt(s, d, k)
    ensures Pass(s, d, open, close) == s[..p] + Pass(s[p..], d, open, close)
    decreases p
  {
    if p > 0 {
      PassSkipsPrefix(s, d, open, close, p - 1);
      var t := s[p - 1..];
      assert Pass(t, d, open, close) == [s[p - 1]] + Pass(s[p..], d, open, close) by {
        assert !PairMatchesAt(s, d, p - 1);
        PassCopyStep(t, d, open, close);
        SuffixShift(s, p);
      }
      ExtendPrefix(s, p, Pass(s, d, open, close), Pass(t, d, open, close), Pass(s[p..], d, open, close));
    }
  }

  /** The leftmost match is replaced: with no match before position `p` and
      the shortest match `D m D` at `p`, the output is the text before `p`,
      then `open m close`, then the pass over what follows the match. */
  lemma {:induction false} PassReplacesLeftmost(s: string, d: string, open: string, close: string, p: nat, q: nat)
    requires |d| > 0 && p <= |s|
    requires forall k :: 0 <= k < p ==> !PairMatchesAt(s, d, k)
    requires PairMatch(s[p..], d) == Some(q)
    ensures |d| <= q && p + q + |d| <= |s|
    ensures Pass(s, d, open, close) ==
      s[..p] + open + s[p + |d|..p + q] + close + Pass(s[p + q + |d|..], d, open, close)
  {
    PassMatchAt(s, d, open, close, p, q);
    PassSkipsPrefix(s, d, open, close, p);
    Splice(Pass(s, d, open, close), s[..p], Pass(s[p..], d, open, close),
      open, s[p + |d|..p + q], close, Pass(s[p + q + |d|..], d, open, close));
  }

  /** `PassMatchStep` for the match at position `p`, in positions of `s`. */
  lemma {:induction false} PassMatchAt(s: string, d: string, open: string, close: string, p: nat, q: nat)
    requires |d| > 0 && p <= |s|
    requires PairMatch(s[p..], d) == Some(q)
    ensures |d| <= q && p + q + |d| <= |s|
    ensures Pass(s[p..], d, open, close) ==
      open + s[p + |d|..p + q] + close + Pass(s[p + q + |d|..], d, open, close)
  {
    var u := s[p..];
    SliceOfSuffix(s, p, |d|, q);
    SliceOfSuffix(s, p, q + |d|, |u|);
    PassMatchInto(u, d, open, close, q, s[p + |d|..p + q], s[p + q + |d|..]);
  }

  /** `PassMatchStep` with the text between the delimiters and the text
      after the match named. */
  lemma {:induction false} PassMatchInto(s: string, d: string, open: string, close: string, q: nat, m: string, rest: string)
    requires |d| > 0 && PairMatch(s, d) == Some(q)
    requires |d| <= q && q + |d| <= |s| && m == s[|d|..q] && rest == s[q + |d|..]
    ensures Pass(s, d, open, close) == open + m + close + Pass(rest, d, open, close)
  {
    PassMatchStep(s, d, open, close, q);
  }

  /** Where the link pattern does not match, the link pass copies one
      character and carries on from the next. */
  lemma LinkCopyStep(s: string)
    requires s != []
    ensures LinkMatch(s).None? ==> LinkPass(s) == [s[0]] + LinkPass(s[1..])
  {
  }

  /** Where the link pattern matches, one step consumes `[text](url)`
      through the closing `)`. */
  lemma LinkStepUsed(s: string, i: nat, j: nat)
    requires LinkMatch(s) == Some(LinkSplit(i, j))
    ensures 1 <= i && i + 2 <= j < |s| && LinkStep(s).used == j + 1
  {
  }

  /** Where the link pattern matches, one step emits the anchor for the text
      between `[` and `](` and the url between `](` and `)`. */
  lemma LinkStepAnchor(s: string, i: nat, j: nat)
    requires LinkMatch(s) == Some(LinkSplit(i, j))
    ensures 1 <= i && i + 2 <= j < |s|
    ensures LinkStep(s).emit == Anchor(s[1..i], s[i + 2..j])
  {
  }

  /** From position `p`, the link pass is one step followed by the pass
      over what the step leaves. */
  lemma {:induction false} LinkPassAt(s: string, p: nat, used: nat)
    requires p < |s| && LinkStep(s[p..]).used == used
    ensures p + used <= |s|
    ensures LinkPass(s[p..]) == LinkStep(s[p..]).emit + LinkPass(s[p + used..])
  {
    SliceOfSuffix(s, p, used, |s| - p);
  }

  /** The link pass copies every position before the first match. */
  lemma {:induction false} LinkSkipsPrefix(s: string, p: nat)
    requires p <= |s|
    requires forall k :: 0 <= k < p ==> !LinkMatchesAt(s, k)
    ensures LinkPass(s) == s[..p] + LinkPass(s[p..])
    decreases p
  {
    if p > 0 {
      LinkSkipsPrefix(s, p - 1);
      var t := s[p - 1..];
      assert LinkPass(t) == [s[p - 1]] + LinkPass(s[p..]) by {
        assert !LinkMatchesAt(s, p - 1);
        LinkCopyStep(t);
        SuffixShift(s, p);
      }
      ExtendPrefix(s, p, LinkPass(s), LinkPass(t), LinkPass(s[p..]));
    }
  }

  /** With no match before position `p`, the link pass copies the text
      before `p`, emits what the step at `p` emits, and carries on after
      it. */
  lemma {:induction false} LinkStepsAt(s: string, p: nat, used: nat, rest: string)
    requires p < |s|
    requires forall k :: 0 <= k < p ==> !LinkMatchesAt(s, k)
    requires LinkStep(s[p..]).used == used
    requires p + used <= |s| && rest == s[p + used..]
    ensures LinkPass(s) == s[..p] + LinkStep(s[p..]).emit + LinkPass(rest)
  {
    LinkPassAt(s, p, used);
    LinkSkipsPrefix(s, p);
    SpliceAnchor(LinkPass(s), s[..p], LinkPass(s[p..]), LinkStep(s[p..]).emit, LinkPass(rest));
  }

  /** The leftmost link is replaced: with no match before position `p` and
      the least split `[text](url)` at `p`, the output is the text before
      `p`, then what the step at `p` emits, which `LinkAnchorAt` shows is
      the anchor for that link's text and url, then the link pass over what
      follows the `)`. */
  lemma {:induction false} LinkReplacesLeftmost(s: string, p: nat, i: nat, j: nat)
    requires p <= |s|
    requires forall k :: 0 <= k < p ==> !LinkMatchesAt(s, k)
    requires LinkMatch(s[p..]) == Some(LinkSplit(i, j))
    ensures 1 <= i && i + 2 <= j && p + j < |s|
    ensures LinkPass(s) == s[..p] + LinkStep(s[p..]).emit + LinkPass(s[p + j + 1..])
  {
    LinkStepUsed(s[p..], i, j);
    LinkStepsAt(s, p, j + 1, s[p + j + 1..]);
  }

  /** The anchor emitted for the link at position `p`, in positions of `s`:
      its text is `s[p + 1..p + i]` and its url `s[p + i + 2..p + j]`. */
  lemma {:induction false} LinkAnchorAt(s: string, p: nat, i: nat, j: nat)
    requires p <= |s|
    requires LinkMatch(s[p..]) == Some(LinkSplit(i, j))
    ensures 1 <= i && i + 2 <= j && p + j < |s|
    ensures LinkStep(s[p..]).emit == Anchor(s[p + 1..p + i], s[p + i + 2..p + j])
  {
    LinkStepAnchor(s[p..], i, j);
    SliceOfSuffix(s, p, 1, i);
    SliceOfSuffix(s, p, i + 2, j);
  }

  /** On text without line terminators, an opening delimiter that finds no
      closing one means no later position can match either: the pass
      returns its input. */
  lemma FirstFailureIsFinal(s: string, d: string, open: string, close: string)
    requires |d| > 0
    requires AllDot(s, 0, |s|)
    requires StartsWith(s, d) && PairMatch(s, d).None?
    ensures Pass(s, d, open, close) == s
  {
    PairMatchSpec(s, d);
    forall k | 0 <= k < |s| ensures PairMatch(s[k..], d).None? {
      PairMatchSpec(s[k..], d);
      forall q: nat | PairAt(s[k..], d, q) ensures false {
        assert s[k..][..|d|] == s[k..k + |d|];
        assert s[k..][q..q + |d|] == s[k + q..k + q + |d|];
        assert PairAt(s, d, k + q);
      }
    }
    PassWithoutMatch(s, d, open, close);
  }

  /** An inserted tag: starts with `<` and has no other `<`. */
  predicate Tag(t: string) {
    |t| >= 2 && t[0] == '<' && forall i :: 1 <= i < |t| ==> t[i] != '<'
  }

  /** Neither tag occurs anywhere in `s`. */
  ghost predicate NoTagIn(s: string, open: string, close: string) {
    forall k :: !At(s, k, open) && !At(s, k, close)
  }

  /** Reverses a pass: every tag goes back to the delimiter. */
  function Unwrap(s: string, d: string, open: string, close: string): string
    requires Tag(open) && Tag(close)
    decreases |s|
  {
    if s == [] then []
    else if StartsWith(s, open) then d + Unwrap(s[|open|..], d, open, close)
    else if StartsWith(s, close) then d + Unwrap(s[|close|..], d, open, close)
    else [s[0]] + Unwrap(s[1..], d, open, close)
  }

  /** Up to the first `<` it emits, a pass copies its input. */
  lemma {:induction false} PassPrefix(y: string, d: string, open: string, close: string, k: nat)
    requires |d| > 0 && Tag(open)
    ensures k <= |Pass(y, d, open, close)| && (forall i :: 0 <= i < k ==> Pass(y, d, open, close)[i] != '<') ==>
      k <= |y| && Pass(y, d, open, close)[..k] == y[..k]
    decreases |y|
  {
    if y != [] && k > 0 {
      match PairMatch(y, d)
      case Some(q) =>
        assert Pass(y, d, open, close)[0] == '<';
      case None =>
        var p := Pass(y[1..], d, open, close);
        PassPrefix(y[1..], d, open, close, k - 1);
        assert Pass(y, d, open, close) == [y[0]] + p;
        if k <= |Pass(y, d, open, close)| && (forall i :: 0 <= i < k ==> Pass(y, d, open, close)[i] != '<') {
          assert forall i :: 0 <= i < k - 1 ==> p[i] == Pass(y, d, open, close)[i + 1];
          assert y[..k] == [y[0]] + y[1..][..k - 1];
        }
    }
  }

  /** Text that holds no tag is copied by `Unwrap` when a tag, or nothing,
      follows it. */
  lemma {:induction false} UnwrapLiteral(m: string, rest: string, d: string, open: string, close: string)
    requires Tag(open) && Tag(close)
    requires NoTagIn(m, open, close)
    requires rest == [] || rest[0] == '<'
    ensures Unwrap(m + rest, d, open, close) == m + Unwrap(rest, d, open, close)
    decreases |m|
  {
    if m == [] {
      assert m + rest == rest;
    } else {
      var s := m + rest;
      NoTagAcross(m, rest, open);
      NoTagAcross(m, rest, close);
      assert s[1..] == m[1..] + rest;
      NoTagInSlice(m, 1, |m|, open, close);
      assert m[1..|m|] == m[1..];
      UnwrapLiteral(m[1..], rest, d, open, close);
    }
  }

  /** A tag that starts in `m` and would run into text starting with `<`
      lies inside `m`. */
  lemma NoTagAcross(m: string, rest: string, t: string)
    requires m != [] && Tag(t)
    requires rest == [] || rest[0] == '<'
    ensures StartsWith(m + rest, t) ==> At(m, 0, t)
  {
    var s := m + rest;
    assert |t| <= |m| ==> s[..|t|] == m[..|t|];
    assert |m| < |t| <= |s| ==> s[|m|] == '<' && t[|m|] != '<';
  }

  lemma SliceAt(s: string, lo: nat, hi: nat, k: nat, t: string)
    requires lo <= hi <= |s|
    ensures At(s[lo..hi], k, t) ==> At(s, lo + k, t)
  {
    if At(s[lo..hi], k, t) {
      var a, b := s[lo..hi][k..k + |t|], s[lo + k..lo + k + |t|];
      assert forall i :: 0 <= i < |a| ==> a[i] == b[i];
    }
  }

  /** A slice of text free of tags is free of tags. */
  lemma NoTagInSlice(s: string, lo: nat, hi: nat, open: string, close: string)
    requires lo <= hi <= |s| && NoTagIn(s, open, close)
    ensures NoTagIn(s[lo..hi], open, close)
  {
    forall k: nat ensures !At(s[lo..hi], k, open) && !At(s[lo..hi], k, close) {
      SliceAt(s, lo, hi, k, open);
      SliceAt(s, lo, hi, k, close);
    }
  }

  /** Undoing a pass gives back its input, provided the input held none of
      the pass's tags. */
  lemma {:induction false} PassRoundTrip(s: string, d: string, open: string, close: string)
    requires |d| > 0 && Tag(open) && Tag(close) && open[1] != close[1]
    requires NoTagIn(s, open, close)
    ensures Unwrap(Pass(s, d, open, close), d, open, close) == s
    decreases |s|
  {
    if s != [] {
      var n := PassStep(s, d, open, close).used;
      NoTagInSlice(s, n, |s|, open, close);
      assert s[n..|s|] == s[n..];
      PassRoundTrip(s[n..], d, open, close);
      RoundTripStep(s, d, open, close);
    }
  }

  /** Round-trip step of `PassRoundTrip` at one position. */
  lemma RoundTripStep(s: string, d: string, open: string, close: string)
    requires |d| > 0 && s != [] && Tag(open) && Tag(close) && open[1] != close[1]
    requires NoTagIn(s, open, close)
    requires var n := PassStep(s, d, open, close).used;
      Unwrap(Pass(s[n..], d, open, close), d, open, close) == s[n..]
    ensures Unwrap(Pass(s, d, open, close), d, open, close) == s
  {
    match PairMatch(s, d)
    case Some(q) =>
      RoundTripMatch(s, d, q, open, close, Pass(s[q + |d|..], d, open, close));
    case None =>
      RoundTripCopy(s, d, open, close);
  }

  /** Round-trip step for a match `d m d` replaced by `open m close`. */
  lemma RoundTripMatch(s: string, d: string, q: nat, open: string, close: string, p: string)
    requires |d| <= q && q + |d| <= |s| && s[..|d|] == d && s[q..q + |d|] == d
    requires Tag(open) && Tag(close) && open[1] != close[1]
    requires NoTagIn(s, open, close)
    requires Unwrap(p, d, open, close) == s[q + |d|..]
    ensures Unwrap(open + s[|d|..q] + close + p, d, open, close) == s
  {
    var m := s[|d|..q];
    NoTagInSlice(s, |d|, q, open, close);
    UnwrapMatch(m, p, d, open, close);
    Recompose(s, |d|, q, q + |d|);
  }

  /** Undoing `open m close` followed by more output. */
  lemma UnwrapMatch(m: string, p: string, d: string, open: string, close: string)
    requires Tag(open) && Tag(close) && open[1] != close[1]
    requires NoTagIn(m, open, close)
    ensures Unwrap(open + m + close + p, d, open, close) == d + m + d + Unwrap(p, d, open, close)
  {
    var x := close + p;
    calc {
      Unwrap(open + m + close + p, d, open, close);
      { assert open + m + close + p == open + (m + x); }
      Unwrap(open + (m + x), d, open, close);
      { UnwrapOpen(m + x, d, open, close); }
      d + Unwrap(m + x, d, open, close);
      { UnwrapLiteral(m, x, d, open, close); }
      d + (m + Unwrap(x, d, open, close));
      { UnwrapClose(p, d, open, close); }
      d + (m + (d + Unwrap(p, d, open, close)));
      { assert d + (m + (d + Unwrap(p, d, open, close))) == d + m + d + Unwrap(p, d, open, close); }
      d + m + d + Unwrap(p, d, open, close);
    }
  }

  lemma UnwrapOpen(x: string, d: string, open: string, close: string)
    requires Tag(open) && Tag(close)
    ensures Unwrap(open + x, d, open, close) == d + Unwrap(x, d, open, close)
  {
    assert StartsWith(open + x, open);
    assert (open + x)[|open|..] == x;
  }

  lemma UnwrapClose(x: string, d: string, open: string, close: string)
    requires Tag(open) && Tag(close) && open[1] != close[1]
    ensures Unwrap(close + x, d, open, close) == d + Unwrap(x, d, open, close)
  {
    assert !StartsWith(close + x, open) by {
      assert (close + x)[1] == close[1];
    }
    assert StartsWith(close + x, close);
    assert (close + x)[|close|..] == x;
  }

  /** Round-trip step for a position where the pass copies one character. */
  lemma RoundTripCopy(s: string, d: string, open: string, close: string)
    requires |d| > 0 && s != [] && Tag(open) && Tag(close)
    requires NoTagIn(s, open, close)
    requires PairMatch(s, d).None?
    requires Unwrap(Pass(s[1..], d, open, close), d, open, close) == s[1..]
    ensures Unwrap(Pass(s, d, open, close), d, open, close) == s
  {
    var p := Pass(s[1..], d, open, close);
    assert Pass(s, d, open, close) == [s[0]] + p;
    assert !At(s, 0, open) && !At(s, 0, close);
    CopyStartsNoTag(s, d, open, close, open);
    CopyStartsNoTag(s, d, open, close, close);
    UnwrapCopy(s[0], p, d, open, close);
    assert s == [s[0]] + s[1..];
  }

  lemma UnwrapCopy(x: char, p: string, d: string, open: string, close: string)
    requires Tag(open) && Tag(close)
    requires !StartsWith([x] + p, open) && !StartsWith([x] + p, close)
    ensures Unwrap([x] + p, d, open, close) == [x] + Unwrap(p, d, open, close)
  {
    assert ([x] + p)[1..] == p;
  }

  /** A copied character followed by the rest of the pass starts with a tag
      only if the input did. */
  lemma CopyStartsNoTag(s: string, d: string, open: string, close: string, t: string)
    requires |d| > 0 && s != [] && Tag(open) && Tag(t)
    ensures StartsWith([s[0]] + Pass(s[1..], d, open, close), t) ==> At(s, 0, t)
  {
    PassPrefix(s[1..], d, open, close, |t| - 1);
    PrefixThroughCopy(s[0], s[1..], Pass(s[1..], d, open, close), t);
    assert [s[0]] + s[1..] == s;
  }

  /** If `p` agrees with `y` up to its first `<`, then `x` followed by `p`
      starts with a tag only if `x` followed by `y` does. */
  lemma PrefixThroughCopy(x: char, y: string, p: string, t: string)
    requires Tag(t)
    requires |t| - 1 <= |p| && (forall i :: 0 <= i < |t| - 1 ==> p[i] != '<') ==>
      |t| - 1 <= |y| && p[..|t| - 1] == y[..|t| - 1]
    ensures StartsWith([x] + p, t) ==> StartsWith([x] + y, t)
  {
    var n := |t| - 1;
    if StartsWith([x] + p, t) {
      assert forall i :: 0 <= i < n ==> p[i] == ([x] + p)[i + 1] == t[i + 1];
      assert p[..n] == t[1..];
      assert ([x] + y)[..|t|] == [x] + y[..n];
    }
  }
}
