/** The text and selection helpers of auraframe/imaging.py: the slide
    picker, the width-bounded ellipsis by binary search, greedy line wrapping
    and the title splitter. The font measurement `draw.textlength` is an
    arbitrary width function passed in; nothing is required of it unless a
    lemma says so. */
module Imaging {
  import opened Optional
  import opened Text

  // ---------------------------------------------------------------------------
  // pick_random_image
  // ---------------------------------------------------------------------------

  /** `[p for p in images if p != last_path]` */
  function Others(images: seq<string>, last: string): (r: seq<string>)
    ensures |r| <= |images|
    ensures forall p :: p in r <==> p in images && p != last
  {
    if images == [] then []
    else
      var rest := Others(images[1..], last);
      assert forall p :: p in images <==> p == images[0] || p in images[1..];
      if images[0] != last then [images[0]] + rest else rest
  }

  /** `pick_random_image`: None for no images, the only one for one, else a
      random image other than the last one shown, or the first image when
      every image is the last one. `random.choice` is a nondeterministic choice. */
  method PickRandomImage(images: seq<string>, last: string) returns (r: Option<string>)
    ensures images == [] <==> r.None?
    ensures |images| == 1 ==> r == Some(images[0])
    ensures |images| > 1 && (exists p :: p in images && p != last) ==> r.Some? && r.value in images && r.value != last
    ensures |images| > 1 && (forall p :: p in images ==> p == last) ==> r == Some(images[0])
  {
    if images == [] {
      return None;
    }
    if |images| == 1 {
      return Some(images[0]);
    }
    var choices := Others(images, last);
    if choices == [] {
      return Some(images[0]);
    }
    var k :| 0 <= k < |choices|;
    return Some(choices[k]);
  }

  // ---------------------------------------------------------------------------
  // ellipsize_pil
  // ---------------------------------------------------------------------------

  const Ellipsis: string := "\U{2026}"

  /** `text[:mid].rstrip() + "…"` */
  function Candidate(text: string, mid: int): string
    requires 0 <= mid <= |text|
  {
    RStrip(text[..mid]) + Ellipsis
  }

  /** The candidate of length `mid` fits the width. */
  predicate Fits(text: string, width: string -> real, maxW: real, mid: int)
    requires 0 <= mid <= |text|
  {
    width(Candidate(text, mid)) <= maxW
  }

  /** The prefix lengths the search may try: those in range whose candidate fits. */
  function FitTest(text: string, width: string -> real, maxW: real): int -> bool {
    m => 0 <= m <= |text| && Fits(text, width, maxW, m)
  }

  /** The binary search of `ellipsize_pil` from the state `lo, hi, best`,
      over the prefix lengths: `best` is the length of the best candidate
      so far, -1 while it is "…" alone. */
  function Search(fits: int -> bool, lo: int, hi: int, best: int): int
    decreases hi - lo + 1
  {
    if lo > hi then best
    else
      var mid := (lo + hi) / 2;
      if fits(mid) then Search(fits, mid + 1, hi, mid)
      else Search(fits, lo, mid - 1, best)
  }

  /** The search returns its starting best or a length in range that passed the test. */
  lemma {:induction false} SearchShape(fits: int -> bool, lo: int, hi: int, best: int)
    ensures var r := Search(fits, lo, hi, best);
            r == best || (lo <= r <= hi && fits(r))
    decreases hi - lo + 1
  {
    if lo <= hi {
      var mid := (lo + hi) / 2;
      if fits(mid) {
        SearchShape(fits, mid + 1, hi, mid);
      } else {
        SearchShape(fits, lo, mid - 1, best);
      }
    }
  }

  /** The text shown for a search result. */
  function Ellipsized(text: string, k: int): string {
    if 0 <= k <= |text| then Candidate(text, k) else Ellipsis
  }

  /** What `ellipsize_pil` returns. */
  function EllipsizeSpec(text: string, width: string -> real, maxW: real): (r: string)
    ensures text == "" ==> r == ""
    ensures text != "" && width(text) <= maxW ==> r == text
    ensures text != "" && width(text) > maxW ==>
              r == Ellipsis || exists m :: 0 <= m <= |text| && r == Candidate(text, m) && width(r) <= maxW
  {
    if text == "" then ""
    else if width(text) <= maxW then text
    else
      var fits := FitTest(text, width, maxW);
      SearchShape(fits, 0, |text|, -1);
      Ellipsized(text, Search(fits, 0, |text|, -1))
  }

  /** `ellipsize_pil`: empty text stays empty, text that fits is kept, and
      otherwise a binary search finds a long prefix that fits with "…". */
  method Ellipsize(text: string, width: string -> real, maxW: real) returns (r: string)
    ensures r == EllipsizeSpec(text, width, maxW)
  {
    if text == "" {
      return "";
    }
    if width(text) <= maxW {
      return text;
    }
    ghost var fits := FitTest(text, width, maxW);
    var lo, hi := 0, |text|;
    var best := Ellipsis;
    ghost var bestLen := -1;
    while lo <= hi
      invariant 0 <= lo && hi <= |text| && -1 <= bestLen <= |text|
      invariant best == Ellipsized(text, bestLen)
      invariant Search(fits, lo, hi, bestLen) == Search(fits, 0, |text|, -1)
      decreases hi - lo + 1
    {
      var mid := (lo + hi) / 2;
      var cand := RStrip(text[..mid]) + Ellipsis;
      FitTestAt(text, width, maxW, mid);
      SearchStep(fits, lo, hi, bestLen);
      if width(cand) <= maxW {
        best, bestLen := cand, mid;
        lo := mid + 1;
      } else {
        hi := mid - 1;
      }
    }
    EllipsizeSpecIsSearch(text, width, maxW);
    return best;
  }

  /** The test at one prefix length is the width of its candidate. */
  lemma FitTestAt(text: string, width: string -> real, maxW: real, mid: int)
    requires 0 <= mid <= |text|
    ensures FitTest(text, width, maxW)(mid) <==> width(RStrip(text[..mid]) + Ellipsis) <= maxW
    ensures Ellipsized(text, mid) == RStrip(text[..mid]) + Ellipsis
  {
  }

  /** One halving step of the search. */
  lemma SearchStep(fits: int -> bool, lo: int, hi: int, best: int)
    requires lo <= hi
    ensures var mid := (lo + hi) / 2;
            lo <= mid <= hi &&
            Search(fits, lo, hi, best) == if fits(mid) then Search(fits, mid + 1, hi, mid)
                                          else Search(fits, lo, mid - 1, best)
  {
  }

  /** Candidate widths grow with the prefix length. */
  predicate MonotoneWidth(text: string, width: string -> real) {
    forall m1, m2 :: 0 <= m1 <= m2 <= |text| ==> width(Candidate(text, m1)) <= width(Candidate(text, m2))
  }

  /** The longest prefix length up to `m` whose candidate fits, or -1. */
  function LastFitting(text: string, width: string -> real, maxW: real, m: int): (k: int)
    requires -1 <= m <= |text|
    ensures -1 <= k <= m
    ensures k >= 0 ==> Fits(text, width, maxW, k)
    ensures forall m' :: k < m' <= m ==> !Fits(text, width, maxW, m')
    decreases m + 1
  {
    if m < 0 then -1
    else if Fits(text, width, maxW, m) then m
    else LastFitting(text, width, maxW, m - 1)
  }

  /** The search keeps `lo - 1` as its best, so when the lengths in `0..n`
      that pass the test are exactly those up to `k`, it ends on `k`. */
  lemma {:induction false} SearchFindsLongest(fits: int -> bool, n: int, lo: int, hi: int, k: int)
    requires 0 <= lo && hi <= n && lo - 1 <= k <= hi
    requires forall m :: 0 <= m <= k ==> fits(m)
    requires forall m :: k < m <= n ==> !fits(m)
    ensures Search(fits, lo, hi, lo - 1) == k
    decreases hi - lo + 1
  {
    if lo <= hi {
      var mid := (lo + hi) / 2;
      if fits(mid) {
        SearchFindsLongest(fits, n, mid + 1, hi, k);
      } else {
        SearchFindsLongest(fits, n, lo, mid - 1, k);
      }
    }
  }

  /** When candidate widths grow with the prefix length, text too wide to
      show whole becomes the longest prefix whose candidate fits, or "…"
      alone when none does. */
  lemma EllipsizeLongest(text: string, width: string -> real, maxW: real)
    requires MonotoneWidth(text, width)
    requires text != "" && width(text) > maxW
    ensures var k := LastFitting(text, width, maxW, |text|);
            EllipsizeSpec(text, width, maxW) == if k < 0 then Ellipsis else Candidate(text, k)
  {
    var k := LastFitting(text, width, maxW, |text|);
    FitTestIsPrefix(text, width, maxW, k);
    EllipsizeEndsOn(text, width, maxW, k);
  }

  /** When the lengths that pass the test are exactly those up to `k`, the
      ellipsised text is the candidate of length `k`, or "…" alone for -1. */
  lemma EllipsizeEndsOn(text: string, width: string -> real, maxW: real, k: int)
    requires text != "" && width(text) > maxW && -1 <= k <= |text|
    requires forall m :: 0 <= m <= k ==> FitTest(text, width, maxW)(m)
    requires forall m :: k < m <= |text| ==> !FitTest(text, width, maxW)(m)
    ensures EllipsizeSpec(text, width, maxW) == if k < 0 then Ellipsis else Candidate(text, k)
  {
    SearchFindsLongest(FitTest(text, width, maxW), |text|, 0, |text|, k);
    EllipsizeSpecIsSearch(text, width, maxW);
  }

  /** Text too wide to show whole is shown as the search's result. */
  lemma EllipsizeSpecIsSearch(text: string, width: string -> real, maxW: real)
    requires text != "" && width(text) > maxW
    ensures EllipsizeSpec(text, width, maxW) == Ellipsized(text, Search(FitTest(text, width, maxW), 0, |text|, -1))
  {
  }

  /** Under monotone widths, the lengths that pass the test are exactly those
      up to the last fitting one. */
  lemma FitTestIsPrefix(text: string, width: string -> real, maxW: real, k: int)
    requires MonotoneWidth(text, width)
    requires k == LastFitting(text, width, maxW, |text|)
    ensures forall m :: 0 <= m <= k ==> FitTest(text, width, maxW)(m)
    ensures forall m :: k < m <= |text| ==> !FitTest(text, width, maxW)(m)
  {
    forall m | 0 <= m <= k ensures Fits(text, width, maxW, m) {
      assert width(Candidate(text, m)) <= width(Candidate(text, k));
    }
  }

  // ---------------------------------------------------------------------------
  // wrap_text_tokens / wrap_text_lines
  // ---------------------------------------------------------------------------

  function Flatten(groups: seq<seq<string>>): seq<string> {
    if groups == [] then [] else Flatten(groups[..|groups| - 1]) + groups[|groups| - 1]
  }

  /** Lines wider than the width are ellipsized; the others are kept. */
  function Fit(line: string, width: string -> real, maxW: real): string {
    if width(line) > maxW then EllipsizeSpec(line, width, maxW) else line
  }

  /** The line a group becomes before the final clean-up: the last line
      absorbs the tokens left over and is ellipsized. */
  function RawLine(tokens: seq<string>, groups: seq<seq<string>>, consumed: nat, i: nat,
                   width: string -> real, maxW: real): string
    requires consumed <= |tokens| && i < |groups|
  {
    if i == |groups| - 1 && consumed < |tokens| then
      EllipsizeSpec(Join(" ", [Join(" ", groups[i])] + tokens[consumed..]), width, maxW)
    else Join(" ", groups[i])
  }

  /** Joining the first `j + 1` tokens of a line keeps it within the width. */
  predicate PrefixFits(g: seq<string>, j: int, width: string -> real, maxW: real)
    requires 0 <= j < |g|
  {
    width(Join(" ", g[..j + 1])) <= maxW
  }

  /** Every token after the first was added because the line still fit. */
  predicate GreedyGroup(g: seq<string>, width: string -> real, maxW: real) {
    forall j :: 1 <= j < |g| ==> PrefixFits(g, j, width, maxW)
  }

  /** Adding token `t` to the line `g` would make it too wide. */
  predicate Overflows(g: seq<string>, t: string, width: string -> real, maxW: real) {
    width(Join(" ", g + [t])) > maxW
  }

  /** `groups` is a greedy split of the first `consumed` tokens: in order,
      non-empty; within a group every token after the first kept the line
      within the width, and the next token would not have. */
  predicate PartialGrouping(tokens: seq<string>, width: string -> real, maxW: real,
                            groups: seq<seq<string>>, consumed: nat) {
    consumed <= |tokens|
    && Flatten(groups) == tokens[..consumed]
    && (forall i :: 0 <= i < |groups| ==> groups[i] != [] && GreedyGroup(groups[i], width, maxW))
    && (forall i :: 0 <= i < |groups| - 1 ==> Overflows(groups[i], groups[i + 1][0], width, maxW))
    && (consumed < |tokens| && groups != [] ==> Overflows(groups[|groups| - 1], tokens[consumed], width, maxW))
  }

  /** The greedy split of `wrap_text_tokens`: at most `maxLines` groups, and
      splitting stops early only at the line limit. */
  predicate IsGrouping(tokens: seq<string>, width: string -> real, maxW: real, maxLines: int,
                       groups: seq<seq<string>>, consumed: nat) {
    PartialGrouping(tokens, width, maxW, groups, consumed)
    && (groups == [] || |groups| <= maxLines)
    && (consumed < |tokens| ==> |groups| >= maxLines)
  }

  /** A filled line extends a greedy split by one group. */
  lemma GroupingExtend(tokens: seq<string>, width: string -> real, maxW: real,
                       groups: seq<seq<string>>, consumed: nat, g: seq<string>, next: nat)
    requires PartialGrouping(tokens, width, maxW, groups, consumed)
    requires consumed < next <= |tokens| && g == tokens[consumed..next] && GreedyGroup(g, width, maxW)
    requires next < |tokens| ==> Overflows(g, tokens[next], width, maxW)
    ensures PartialGrouping(tokens, width, maxW, groups + [g], next)
  {
    var gs := groups + [g];
    assert gs[..|gs| - 1] == groups;
    assert tokens[..next] == tokens[..consumed] + g;
    forall i | 0 <= i < |gs|
      ensures gs[i] != [] && GreedyGroup(gs[i], width, maxW)
    {
      if i < |groups| {
        assert gs[i] == groups[i];
      }
    }
    forall i | 0 <= i < |gs| - 1
      ensures Overflows(gs[i], gs[i + 1][0], width, maxW)
    {
      if i < |groups| - 1 {
        assert gs[i] == groups[i] && gs[i + 1] == groups[i + 1];
      } else {
        assert gs[i] == groups[|groups| - 1] && gs[i + 1][0] == tokens[consumed];
      }
    }
  }

  /** `lines` is the greedy wrap of `tokens`: each line is its group joined
      by spaces, the last one absorbing the tokens left over, and any line
      still too wide is ellipsized. */
  predicate IsWrap(tokens: seq<string>, width: string -> real, maxW: real, maxLines: int,
                   lines: seq<string>, groups: seq<seq<string>>, consumed: nat) {
    IsGrouping(tokens, width, maxW, maxLines, groups, consumed)
    && |lines| == |groups|
    && (forall i :: 0 <= i < |lines| ==> lines[i] == Fit(RawLine(tokens, groups, consumed, i, width, maxW), width, maxW))
  }

  lemma GreedyExtend(g: seq<string>, t: string, width: string -> real, maxW: real)
    requires GreedyGroup(g, width, maxW)
    requires width(Join(" ", g + [t])) <= maxW || g == []
    ensures GreedyGroup(g + [t], width, maxW)
  {
    var g' := g + [t];
    forall j | 1 <= j < |g'| ensures PrefixFits(g', j, width, maxW) {
      if j < |g| {
        assert g'[..j + 1] == g[..j + 1];
        assert PrefixFits(g, j, width, maxW);
      } else {
        assert g'[..j + 1] == g';
      }
    }
  }

  /** Fill one line: take tokens from `idx` while the joined line fits, and
      always at least one. */
  method FillLine(tokens: seq<string>, idx: nat, width: string -> real, maxW: real)
    returns (lineTokens: seq<string>, next: nat)
    requires idx < |tokens|
    ensures idx < next <= |tokens| && lineTokens == tokens[idx..next]
    ensures GreedyGroup(lineTokens, width, maxW)
    ensures next < |tokens| ==> width(Join(" ", lineTokens + [tokens[next]])) > maxW
  {
    lineTokens := [];
    next := idx;
    while next < |tokens|
      invariant idx <= next <= |tokens| && lineTokens == tokens[idx..next]
      invariant GreedyGroup(lineTokens, width, maxW)
      decreases |tokens| - next
    {
      var candidate := Join(" ", lineTokens + [tokens[next]]);
      if width(candidate) <= maxW || lineTokens == [] {
        GreedyExtend(lineTokens, tokens[next], width, maxW);
        lineTokens := lineTokens + [tokens[next]];
        next := next + 1;
      } else {
        break;
      }
    }
  }

  /** The line loop of `wrap_text_tokens`: fill lines until the tokens or
      the line limit run out. */
  method GroupTokens(tokens: seq<string>, width: string -> real, maxW: real, maxLines: int)
    returns (lines: seq<string>, ghost groups: seq<seq<string>>, consumed: nat)
    ensures IsGrouping(tokens, width, maxW, maxLines, groups, consumed)
    ensures |lines| == |groups| && forall i :: 0 <= i < |lines| ==> lines[i] == Join(" ", groups[i])
  {
    lines, groups, consumed := [], [], 0;
    while consumed < |tokens| && |lines| < maxLines
      invariant PartialGrouping(tokens, width, maxW, groups, consumed)
      invariant groups == [] || |groups| <= maxLines
      invariant |lines| == |groups| && forall i :: 0 <= i < |lines| ==> lines[i] == Join(" ", groups[i])
      decreases |tokens| - consumed
    {
      var lineTokens, next := FillLine(tokens, consumed, width, maxW);
      GroupingExtend(tokens, width, maxW, groups, consumed, lineTokens, next);
      LinesExtend(lines, groups, lineTokens);
      groups := groups + [lineTokens];
      lines := lines + [Join(" ", lineTokens)];
      consumed := next;
    }
  }

  /** Appending a group and its joined line keeps lines and groups in step. */
  lemma LinesExtend(lines: seq<string>, groups: seq<seq<string>>, g: seq<string>)
    requires |lines| == |groups| && forall i :: 0 <= i < |lines| ==> lines[i] == Join(" ", groups[i])
    ensures var ls, gs := lines + [Join(" ", g)], groups + [g];
            |ls| == |gs| && forall i :: 0 <= i < |ls| ==> ls[i] == Join(" ", gs[i])
  {
  }

  /** `wrap_text_tokens`. */
  method WrapTokens(tokens: seq<string>, width: string -> real, maxW: real, maxLines: int)
    returns (lines: seq<string>, ghost groups: seq<seq<string>>, ghost consumed: nat)
    ensures IsWrap(tokens, width, maxW, maxLines, lines, groups, consumed)
  {
    var joined, idx;
    joined, groups, idx := GroupTokens(tokens, width, maxW, maxLines);
    consumed := idx;
    lines := joined;
    if idx < |tokens| && lines != [] {
      var remaining := Join(" ", [lines[|lines| - 1]] + tokens[idx..]);
      var last := Ellipsize(remaining, width, maxW);
      lines := lines[|lines| - 1 := last];
    }
    RawLinesOf(tokens, groups, consumed, joined, lines, width, maxW);
    lines := CleanLines(lines, width, maxW);
  }

  /** Before the final pass, the lines are the raw lines of the grouping: the
      joined groups, the last one ellipsized with the leftover tokens. */
  lemma RawLinesOf(tokens: seq<string>, groups: seq<seq<string>>, consumed: nat,
                   joined: seq<string>, lines: seq<string>, width: string -> real, maxW: real)
    requires consumed <= |tokens|
    requires |joined| == |groups| && forall i :: 0 <= i < |joined| ==> joined[i] == Join(" ", groups[i])
    requires lines == if consumed < |tokens| && joined != [] then
               joined[|joined| - 1 := EllipsizeSpec(Join(" ", [joined[|joined| - 1]] + tokens[consumed..]), width, maxW)]
             else joined
    ensures |lines| == |groups|
    ensures forall i :: 0 <= i < |lines| ==> lines[i] == RawLine(tokens, groups, consumed, i, width, maxW)
  {
    forall i | 0 <= i < |lines|
      ensures lines[i] == RawLine(tokens, groups, consumed, i, width, maxW)
    {
      assert joined[i] == Join(" ", groups[i]);
    }
  }

  /** The final pass: ellipsize each line that is still too wide. */
  method CleanLines(raw: seq<string>, width: string -> real, maxW: real) returns (cleaned: seq<string>)
    ensures |cleaned| == |raw|
    ensures forall i :: 0 <= i < |raw| ==> cleaned[i] == Fit(raw[i], width, maxW)
  {
    cleaned := [];
    for i := 0 to |raw|
      invariant |cleaned| == i
      invariant forall j :: 0 <= j < i ==> cleaned[j] == Fit(raw[j], width, maxW)
    {
      var line := raw[i];
      if width(line) > maxW {
        line := Ellipsize(line, width, maxW);
      }
      cleaned := cleaned + [line];
    }
  }

  /** Every wrapped line fits the width, or is "…" alone, or is empty. */
  lemma WrapLinesFit(tokens: seq<string>, width: string -> real, maxW: real, maxLines: int,
                     lines: seq<string>, groups: seq<seq<string>>, consumed: nat)
    requires IsWrap(tokens, width, maxW, maxLines, lines, groups, consumed)
    ensures forall i :: 0 <= i < |lines| ==> width(lines[i]) <= maxW || lines[i] == Ellipsis || lines[i] == ""
  {
    forall i | 0 <= i < |lines| ensures width(lines[i]) <= maxW || lines[i] == Ellipsis || lines[i] == "" {
      var raw := RawLine(tokens, groups, consumed, i, width, maxW);
      assert lines[i] == Fit(raw, width, maxW);
    }
  }

  /** Non-empty groups hold at least one token each. */
  lemma {:induction false} FlattenLength(groups: seq<seq<string>>)
    requires forall i :: 0 <= i < |groups| ==> groups[i] != []
    ensures |Flatten(groups)| >= |groups|
  {
    if groups != [] {
      FlattenLength(groups[..|groups| - 1]);
    }
  }

  /** No tokens give no lines. */
  lemma WrapOfNothing(width: string -> real, maxW: real, maxLines: int,
                      lines: seq<string>, groups: seq<seq<string>>, consumed: nat)
    requires IsWrap([], width, maxW, maxLines, lines, groups, consumed)
    ensures lines == []
  {
    FlattenLength(groups);
  }

  /** With at least as many lines allowed as there are tokens, every token
      is placed and nothing is ellipsized for lack of lines. */
  lemma WrapPlacesAllWhenRoom(tokens: seq<string>, width: string -> real, maxW: real, maxLines: int,
                              lines: seq<string>, groups: seq<seq<string>>, consumed: nat)
    requires IsWrap(tokens, width, maxW, maxLines, lines, groups, consumed)
    requires |tokens| <= maxLines
    ensures consumed == |tokens| && Flatten(groups) == tokens
  {
    FlattenLength(groups);
    assert tokens[..|tokens|] == tokens;
  }

  /** `wrap_text_lines`: the same greedy wrap over the whitespace-separated
      words; empty or blank text gives no lines. */
  method WrapTextLines(text: string, width: string -> real, maxW: real, maxLines: int)
    returns (lines: seq<string>, ghost groups: seq<seq<string>>, ghost consumed: nat)
    ensures IsWrap(Split(text), width, maxW, maxLines, lines, groups, consumed)
    ensures (forall i :: 0 <= i < |text| ==> IsSpace(text[i])) ==> lines == []
  {
    if text == "" {
      return [], [], 0;
    }
    var words := Split(text);
    SplitEmptyIffBlank(text);
    if words == [] {
      return [], [], 0;
    }
    lines, groups, consumed := WrapTokens(words, width, maxW, maxLines);
  }

  // ---------------------------------------------------------------------------
  // split_parenthetical / wrap_title_lines
  // ---------------------------------------------------------------------------

  /** `split_parenthetical`: a title ending in ")" with " (" after its first
      character splits at the last " (" into the stripped main part and the
      stripped parenthetical; any other title is returned whole with "". */
  function SplitParenthetical(title: string): (string, string) {
    if title != "" && EndsWith(title, ")") && Contains(title, " (") then
      var idx := RFind(title, " (");
      if idx > 0 then (Strip(title[..idx]), Strip(title[idx + 1..]))
      else (title, "")
    else (title, "")
  }

  /** The parenthetical part, when there is one, is bracketed; otherwise the
      title comes back unchanged. */
  lemma SplitParentheticalShape(title: string)
    ensures var (main, paren) := SplitParenthetical(title);
            (paren != "" ==> paren[0] == '(' && paren[|paren| - 1] == ')')
            && (paren == "" ==> main == title)
  {
    var (main, paren) := SplitParenthetical(title);
    if title != "" && EndsWith(title, ")") && Contains(title, " (") && RFind(title, " (") > 0 {
      var idx := RFind(title, " (");
      assert paren == Strip(title[idx + 1..]);
      ParenStripKeepsBrackets(title, idx);
    } else {
      assert paren == "" && main == title;
    }
  }

  /** Stripping `(...)` keeps both brackets, which are not whitespace. */
  lemma ParenStripKeepsBrackets(title: string, idx: int)
    requires title != "" && EndsWith(title, ")") && 0 < idx && OccursAt(title, " (", idx)
    ensures var p := Strip(title[idx + 1..]);
            p != "" && p[0] == '(' && p[|p| - 1] == ')'
  {
    var t := title[idx + 1..];
    assert title[idx..idx + 2][1] == '(';
    assert t[0] == title[idx + 1];
    assert title[|title| - 1..][0] == ')';
    assert t[|t| - 1] == title[|title| - 1];
    BracketsNotSpace();
    NoEdgeSpaceStrip(t);
  }

  lemma BracketsNotSpace()
    ensures !IsSpace('(') && !IsSpace(')')
  {
  }

  /** The split happens exactly when the title ends with ")" and " (" occurs after index 0. */
  lemma SplitParentheticalWhen(title: string)
    ensures SplitParenthetical(title).1 != ""
        <==> EndsWith(title, ")") && exists i :: 0 < i && OccursAt(title, " (", i)
  {
    var paren := SplitParenthetical(title).1;
    ContainsAt(title, " (");
    var idx := RFind(title, " (");
    if EndsWith(title, ")") && exists i :: 0 < i && OccursAt(title, " (", i) {
      var i :| 0 < i && OccursAt(title, " (", i);
      assert title != "" && Contains(title, " (");
      assert idx >= i;
      assert paren == Strip(title[idx + 1..]);
      ParenStripKeepsBrackets(title, idx);
    }
    if paren != "" {
      assert EndsWith(title, ")") && idx > 0;
      assert OccursAt(title, " (", idx);
    }
  }

  /** The tokens `wrap_title_lines` wraps: the title's words when there is no
      parenthetical, else the main part's words and the whole parenthetical
      as one unbreakable token. */
  function TitleTokens(title: string): seq<string> {
    var (main, paren) := SplitParenthetical(title);
    if paren == "" then Split(title) else Split(main) + [paren]
  }

  /** `wrap_title_lines`. */
  method WrapTitleLines(title: string, width: string -> real, maxW: real, maxLines: int)
    returns (lines: seq<string>, ghost groups: seq<seq<string>>, ghost consumed: nat)
    ensures IsWrap(TitleTokens(title), width, maxW, maxLines, lines, groups, consumed)
  {
    var (main, paren) := SplitParenthetical(title);
    if paren == "" {
      lines, groups, consumed := WrapTextLines(title, width, maxW, maxLines);
      return;
    }
    var tokens := Split(main) + [paren];
    lines, groups, consumed := WrapTokens(tokens, width, maxW, maxLines);
  }
}
