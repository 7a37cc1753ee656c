/** The API version rewriter (contrib/apiversioner.py): finds the places in a
    source tree that set an FDB API version and splices a new version number
    over the old one, line by line, optionally asking for confirmation.

    The regular-expression engine is not modelled: what `finditer` returns on
    a line is given as a list of matches, each the list of its groups' spans.
    What `input()` returns at the prompt for line i is given as answers[i]. */
module ApiVersioner {
  import opened Text
  import opened Wrappers

  /** positive_response(val): the reply, lower-cased, is "y" or "yes". */
  predicate PositiveResponse(val: string)
  {
    Lower(val) in {"y", "yes"}
  }

  lemma LowerCharIs(c: char, lower: char, upper: char)
    requires 'a' <= lower <= 'z' && upper as int == lower as int - 32
    ensures LowerChar(c) == lower <==> c == lower || c == upper
  {
  }

  /** Accepted replies: "y" and "yes" in any mix of cases, and nothing else. */
  lemma PositiveResponseSpellings(val: string)
    ensures PositiveResponse(val) <==>
      (|val| == 1 && val[0] in {'y', 'Y'}) ||
      (|val| == 3 && val[0] in {'y', 'Y'} && val[1] in {'e', 'E'} && val[2] in {'s', 'S'})
  {
    var l := Lower(val);
    if |val| == 1 {
      LowerCharIs(val[0], 'y', 'Y');
      assert l == "y" <==> l[0] == 'y';
    } else if |val| == 3 {
      LowerCharIs(val[0], 'y', 'Y');
      LowerCharIs(val[1], 'e', 'E');
      LowerCharIs(val[2], 's', 'S');
      assert l == "yes" <==> l[0] == 'y' && l[1] == 'e' && l[2] == 's';
    }
  }

  lemma PositiveResponseExamples()
    ensures PositiveResponse("Y") && PositiveResponse("yEs") && PositiveResponse("YES")
    ensures !PositiveResponse("") && !PositiveResponse("n") && !PositiveResponse("yeah") && !PositiveResponse(" y")
  {
    PositiveResponseSpellings("Y");
    PositiveResponseSpellings("yEs");
    PositiveResponseSpellings("YES");
    PositiveResponseSpellings("");
    PositiveResponseSpellings("n");
    PositiveResponseSpellings("yeah");
    PositiveResponseSpellings(" y");
  }

  /** The span of one group of a match: m.start(g) and m.end(g). */
  datatype Span = Span(start: int, end: int)

  /** One match: the span of each group, group 0 (the whole match) first. */
  type Match = seq<Span>

  /** Where a Python slice bound k lands in a string of length n: negative
      bounds count from the end, and both ends are clamped. */
  function PyIndex(n: nat, k: int): (r: nat)
    ensures r <= n
    ensures 0 <= k <= n ==> r == k
    ensures k < 0 ==> r == if n + k < 0 then 0 else n + k
    ensures k > n ==> r == n
  {
    if k < 0 then (if n + k < 0 then 0 else n + k) else if k > n then n else k
  }

  /** s[:a] + t + s[b:]. */
  function Splice(s: string, a: int, b: int, t: string): string
  {
    s[..PyIndex(|s|, a)] + t + s[PyIndex(|s|, b)..]
  }

  /** How much replacing span sp by newStr lengthens the line. */
  function Delta(sp: Span, newStr: string): int
  {
    |newStr| - (sp.end - sp.start)
  }

  function TotalDelta(spans: seq<Span>, newStr: string): int
  {
    if spans == [] then 0 else TotalDelta(spans[..|spans| - 1], newStr) + Delta(spans[|spans| - 1], newStr)
  }

  /** The loop state of rewrite_lines for one line: new_line and offset. */
  datatype Rewrite = Rewrite(line: string, offset: int)

  /** The state after the replacement loop has handled the given spans, in
      order, each at its position in the ORIGINAL line shifted by offset. */
  function Rewritten(line: string, spans: seq<Span>, newStr: string): (r: Rewrite)
  {
    if spans == [] then Rewrite(line, 0)
    else Step(Rewritten(line, spans[..|spans| - 1], newStr), spans[|spans| - 1], newStr)
  }

  /** One pass of the loop body: splice newStr over span s shifted by the
      offset, and add the span's length change to the offset. */
  function Step(p: Rewrite, s: Span, newStr: string): Rewrite
  {
    Rewrite(Splice(p.line, s.start + p.offset, s.end + p.offset, newStr), p.offset + Delta(s, newStr))
  }

  /** offset is always the total length change of the spans handled so far. */
  lemma {:induction false} RewrittenOffset(line: string, spans: seq<Span>, newStr: string)
    ensures Rewritten(line, spans, newStr).offset == TotalDelta(spans, newStr)
  {
    if spans != [] {
      RewrittenOffset(line, spans[..|spans| - 1], newStr);
    }
  }

  /** Spans inside the line, each starting where or after the previous one
      ends: what one regex's finditer produces. */
  predicate Ascending(line: string, spans: seq<Span>)
  {
    spans == [] ||
    (var s := spans[|spans| - 1];
     Ascending(line, spans[..|spans| - 1]) && 0 <= PrevEnd(spans[..|spans| - 1]) <= s.start <= s.end <= |line|)
  }

  /** Ascending spans, stated pairwise. */
  predicate AscendingPairwise(line: string, spans: seq<Span>)
  {
    (forall i :: 0 <= i < |spans| ==> 0 <= spans[i].start <= spans[i].end <= |line|) &&
    (forall i, j :: 0 <= i < j < |spans| ==> spans[i].end <= spans[j].start)
  }

  lemma {:induction false} AscendingIffPairwise(line: string, spans: seq<Span>)
    ensures Ascending(line, spans) <==> AscendingPairwise(line, spans)
  {
    if spans != [] {
      var init := spans[..|spans| - 1];
      var n := |spans|;
      AscendingIffPairwise(line, init);
      if AscendingPairwise(line, spans) {
        assert AscendingPairwise(line, init);
        if init != [] {
          assert spans[n - 2].end <= spans[n - 1].start;
        }
      }
      if Ascending(line, spans) {
        forall i, j | 0 <= i < j < n ensures spans[i].end <= spans[j].start {
          if j == n - 1 && i < n - 2 {
            assert init[i].end <= init[n - 2].start;
          }
        }
      }
    }
  }

  function PrevEnd(spans: seq<Span>): int
  {
    if spans == [] then 0 else spans[|spans| - 1].end
  }

  /** The replaced text up to the end of the last span: the original text
      between spans, with newStr in place of each span. */
  function Head(line: string, spans: seq<Span>, newStr: string): string
    requires Ascending(line, spans)
  {
    if spans == [] then []
    else
      var init := spans[..|spans| - 1];
      Head(line, init, newStr) + line[PrevEnd(init)..spans[|spans| - 1].start] + newStr
  }

  /** Reference definition: the line with every span replaced by newStr, all
      positions taken in the original line. */
  function Replaced(line: string, spans: seq<Span>, newStr: string): string
    requires Ascending(line, spans)
  {
    Head(line, spans, newStr) + line[PrevEnd(spans)..]
  }

  /** For ascending spans the loop does what it means to: each span replaced,
      and the line's length changed by the total delta. */
  lemma {:induction false} RewrittenAscending(line: string, spans: seq<Span>, newStr: string)
    requires Ascending(line, spans)
    ensures Rewritten(line, spans, newStr).line == Replaced(line, spans, newStr)
    ensures |Rewritten(line, spans, newStr).line| == |line| + TotalDelta(spans, newStr)
  {
    HeadLength(line, spans, newStr);
    if spans != [] {
      var init, s := spans[..|spans| - 1], spans[|spans| - 1];
      assert Ascending(line, init) && 0 <= PrevEnd(init) <= s.start <= s.end <= |line|;
      RewrittenAscending(line, init, newStr);
      RewrittenAscendingStep(line, init, s, newStr);
      assert spans == init + [s];
    } else {
      assert Replaced(line, spans, newStr) == line;
    }
  }

  /** One more ascending span: if the loop so far did what it means to, it
      still does after this span. */
  lemma RewrittenAscendingStep(line: string, init: seq<Span>, s: Span, newStr: string)
    requires Ascending(line, init) && 0 <= PrevEnd(init) <= s.start <= s.end <= |line|
    requires Rewritten(line, init, newStr).line == Replaced(line, init, newStr)
    ensures Ascending(line, init + [s])
    ensures Rewritten(line, init + [s], newStr).line == Replaced(line, init + [s], newStr)
  {
    var spans := init + [s];
    assert spans[..|spans| - 1] == init && spans[|spans| - 1] == s;
    RewrittenStep(line, init, s, newStr);
    HeadLength(line, init, newStr);
    RewrittenOffset(line, init, newStr);
    var p := Rewritten(line, init, newStr);
    var h := Head(line, init, newStr);
    var pe := PrevEnd(init);
    SpliceStep(h, line, pe, s, newStr, p.offset);
    var head := h + line[pe..s.start] + newStr;
    assert Head(line, spans, newStr) == head;
    assert Replaced(line, spans, newStr) == head + line[s.end..];
  }

  /** The replaced text up to the end of the last span is longer than that
      by the spans' total change in length. */
  lemma {:induction false} HeadLength(line: string, spans: seq<Span>, newStr: string)
    requires Ascending(line, spans)
    ensures |Head(line, spans, newStr)| == PrevEnd(spans) + TotalDelta(spans, newStr)
  {
    if spans != [] {
      var init := spans[..|spans| - 1];
      assert Ascending(line, init) && 0 <= PrevEnd(init) <= spans[|spans| - 1].start;
      HeadLength(line, init, newStr);
    }
  }

  /** One step of the loop on ascending spans: the text before the span is
      already replaced, the text after it still the original. */
  lemma SpliceStep(h: string, line: string, pe: int, s: Span, newStr: string, off: int)
    requires 0 <= pe <= s.start <= s.end <= |line| && off == |h| - pe
    ensures Splice(h + line[pe..], s.start + off, s.end + off, newStr) == h + line[pe..s.start] + newStr + line[s.end..]
  {
    var tail := line[pe..];
    var t := h + tail;
    var a := s.start + |h| - pe;
    var b := s.end + |h| - pe;
    assert t[..a] == h + line[pe..s.start] by {
      assert tail[..s.start - pe] == line[pe..s.start];
    }
    assert t[b..] == line[s.end..] by {
      assert tail[s.end - pe..] == line[s.end..];
    }
  }

  /** The first k spans' replaced text is a prefix of all spans' replaced text. */
  lemma {:induction false} HeadPrefix(line: string, spans: seq<Span>, k: nat, newStr: string)
    requires Ascending(line, spans) && k <= |spans|
    ensures Ascending(line, spans[..k])
    ensures Head(line, spans[..k], newStr) <= Head(line, spans, newStr)
  {
    if k < |spans| {
      var init := spans[..|spans| - 1];
      assert init[..k] == spans[..k];
      HeadPrefix(line, init, k, newStr);
    } else {
      assert spans[..k] == spans;
    }
  }

  /** Span i is replaced by newStr, which sits at the span's start shifted by
      the length change of the spans before it. */
  lemma EachSpanReplaced(line: string, spans: seq<Span>, i: nat, newStr: string)
    requires Ascending(line, spans) && i < |spans|
    ensures var at := spans[i].start + TotalDelta(spans[..i], newStr);
      0 <= at && at + |newStr| <= |Replaced(line, spans, newStr)| &&
      Replaced(line, spans, newStr)[at..at + |newStr|] == newStr
  {
    HeadPrefix(line, spans, i + 1, newStr);
    var pre := spans[..i + 1];
    assert pre[..i] == spans[..i];
    HeadLength(line, spans[..i], newStr);
    var h := Head(line, pre, newStr);
    var at := spans[i].start + TotalDelta(spans[..i], newStr);
    assert |h| == at + |newStr|;
    assert h[at..] == newStr;
    var r := Replaced(line, spans, newStr);
    assert r[..|h|] == h;
    assert r[at..at + |newStr|] == r[..|h|][at..];
  }

  /** The spans of group g of each match, in order. */
  function GroupSpans(ms: seq<Match>, g: nat): (r: seq<Span>)
    requires forall k :: 0 <= k < |ms| ==> g < |ms[k]|
    ensures |r| == |ms| && forall k :: 0 <= k < |ms| ==> r[k] == ms[k][g]
  {
    if ms == [] then [] else GroupSpans(ms[..|ms| - 1], g) + [ms[|ms| - 1][g]]
  }

  /** Every match of every regex has a group g. */
  predicate HasGroup(perRegex: seq<seq<Match>>, g: nat)
  {
    forall r, k :: 0 <= r < |perRegex| && 0 <= k < |perRegex[r]| ==> g < |perRegex[r][k]|
  }

  /** The spans of group g, regex after regex, as the nested loops visit them. */
  function Flatten(perRegex: seq<seq<Match>>, g: nat): seq<Span>
    requires HasGroup(perRegex, g)
  {
    if perRegex == [] then []
    else
      assert HasGroup(perRegex[..|perRegex| - 1], g);
      Flatten(perRegex[..|perRegex| - 1], g) + GroupSpans(perRegex[|perRegex| - 1], g)
  }

  /** The line kept after the prompt: a changed line the user declines is
      put back. */
  function Confirmed(line: string, newLine: string, askConfirm: bool, answer: string): (r: string)
    ensures r == line || r == newLine
    ensures askConfirm && !PositiveResponse(answer) ==> r == line
    ensures !askConfirm || PositiveResponse(answer) ==> r == newLine
  {
    if askConfirm && line != newLine && !PositiveResponse(answer) then line else newLine
  }

  /** group_index: the phrase's only group in suspect mode; group 2, the
      digits between the two delimiters of version_re, otherwise. */
  function GroupIndex(suspectOnly: bool): nat
  {
    if suspectOnly then 1 else 2
  }

  /** The two `for` loops of rewrite_lines over one line: every regex, every
      match, splicing new_str over group g. */
  method RewriteOneLine(line: string, perRegex: seq<seq<Match>>, g: nat, newStr: string) returns (newLine: string)
    requires HasGroup(perRegex, g)
    ensures newLine == Rewritten(line, Flatten(perRegex, g), newStr).line
  {
    newLine := line;
    var offset := 0;
    for r := 0 to |perRegex|
      invariant HasGroup(perRegex[..r], g)
      invariant Rewrite(newLine, offset) == Rewritten(line, Flatten(perRegex[..r], g), newStr)
    {
      FlattenStep(perRegex, r, g);
      newLine, offset := RewriteMatches(line, Flatten(perRegex[..r], g), newLine, offset, perRegex[r], g, newStr);
    }
    assert perRegex[..|perRegex|] == perRegex;
  }

  /** The inner `for m in regex.finditer(line)` loop: splices new_str over
      group g of each match, continuing from the state the spans before
      left behind. */
  method RewriteMatches(line: string, ghost before: seq<Span>, newLine: string, offset: int,
                        ms: seq<Match>, g: nat, newStr: string)
    returns (newLine': string, offset': int)
    requires forall j :: 0 <= j < |ms| ==> g < |ms[j]|
    requires Rewrite(newLine, offset) == Rewritten(line, before, newStr)
    ensures Rewrite(newLine', offset') == Rewritten(line, before + GroupSpans(ms, g), newStr)
  {
    newLine', offset' := newLine, offset;
    ghost var spans := before;
    assert ms[..0] == [];
    for k := 0 to |ms|
      invariant spans == before + GroupSpans(ms[..k], g)
      invariant Rewrite(newLine', offset') == Rewritten(line, spans, newStr)
    {
      newLine', offset' := SpliceMatch(newLine', offset', ms[k][g], newStr);
      RewrittenStep(line, spans, ms[k][g], newStr);
      GroupSpansStep(ms, k, g);
      AppendAssociative(before, GroupSpans(ms[..k], g), [ms[k][g]]);
      spans := spans + [ms[k][g]];
    }
    assert ms[..|ms|] == ms;
  }

  /** The loop body: new_line[:start + offset] + new_str + new_line[end + offset:],
      then the offset moves by the length change. */
  method SpliceMatch(newLine: string, offset: int, sp: Span, newStr: string) returns (newLine': string, offset': int)
    ensures Rewrite(newLine', offset') == Step(Rewrite(newLine, offset), sp, newStr)
  {
    var start := sp.start;
    var end := sp.end;
    newLine' := newLine[..PyIndex(|newLine|, start + offset)] + newStr + newLine[PyIndex(|newLine|, end + offset)..];
    offset' := offset + |newStr| - (end - start);
  }

  lemma AppendAssociative<T>(a: seq<T>, b: seq<T>, c: seq<T>)
    ensures a + (b + c) == (a + b) + c
  {
  }

  lemma RewrittenStep(line: string, spans: seq<Span>, x: Span, newStr: string)
    ensures Rewritten(line, spans + [x], newStr) == Step(Rewritten(line, spans, newStr), x, newStr)
  {
    assert (spans + [x])[..|spans|] == spans;
  }

  lemma GroupSpansStep(ms: seq<Match>, k: nat, g: nat)
    requires k < |ms| && forall j :: 0 <= j < |ms| ==> g < |ms[j]|
    ensures GroupSpans(ms[..k + 1], g) == GroupSpans(ms[..k], g) + [ms[k][g]]
  {
    assert ms[..k + 1][..k] == ms[..k];
  }

  lemma FlattenStep(perRegex: seq<seq<Match>>, r: nat, g: nat)
    requires r < |perRegex| && HasGroup(perRegex, g)
    ensures HasGroup(perRegex[..r], g) && HasGroup(perRegex[..r + 1], g)
    ensures forall j :: 0 <= j < |perRegex[r]| ==> g < |perRegex[r][j]|
    ensures Flatten(perRegex[..r + 1], g) == Flatten(perRegex[..r], g) + GroupSpans(perRegex[r], g)
  {
    assert perRegex[..r + 1][..r] == perRegex[..r];
  }

  /** The module-level SUSPECT_PHRASES: in Python 3 `map` returns an
      iterator, which yields each compiled phrase once. Every `for` loop over
      it takes all phrases it has left; once it is exhausted a loop over it
      runs zero times. */
  class PhraseIterator {
    const count: nat
    var next: nat

    constructor (count: nat)
      ensures this.count == count && next == 0
    {
      this.count := count;
      next := 0;
    }
  }

  /** The regexes the `for regex in regexes` loop visits on line i: all of
      [version_re]; or the phrases the iterator still holds, which only the
      first line gets. */
  function Visited(perRegex: seq<seq<Match>>, g: nat, i: nat, suspectOnly: bool, start: nat): (r: seq<seq<Match>>)
    requires HasGroup(perRegex, g) && (suspectOnly ==> start <= |perRegex|)
    ensures HasGroup(r, g)
    ensures !suspectOnly ==> r == perRegex
    ensures suspectOnly && (i > 0 || start == |perRegex|) ==> r == []
  {
    if !suspectOnly then perRegex
    else if i == 0 then
      assert forall j :: 0 <= j < |perRegex| - start ==> perRegex[start..][j] == perRegex[start + j];
      perRegex[start..]
    else []
  }

  /** The line rewrite_lines outputs for one input line as written: every
      visited match spliced in at its loop offset, then the prompt. */
  function AsWrittenLine(line: string, perRegex: seq<seq<Match>>, g: nat, newStr: string,
                         askConfirm: bool, answer: string): string
    requires HasGroup(perRegex, g)
  {
    Confirmed(line, Rewritten(line, Flatten(perRegex, g), newStr).line, askConfirm, answer)
  }

  /** A line on which no regex matched comes out unchanged, and so does one
      whose change is declined. */
  lemma AsWrittenLineUnchanged(line: string, perRegex: seq<seq<Match>>, g: nat, newStr: string,
                               askConfirm: bool, answer: string)
    requires HasGroup(perRegex, g)
    ensures Flatten(perRegex, g) == [] ==> AsWrittenLine(line, perRegex, g, newStr, askConfirm, answer) == line
    ensures askConfirm && !PositiveResponse(answer) ==> AsWrittenLine(line, perRegex, g, newStr, askConfirm, answer) == line
  {
  }

  /** The body of the loop over lines: rewrite, then ask. */
  method RewriteLine(line: string, perRegex: seq<seq<Match>>, g: nat, newStr: string, askConfirm: bool, answer: string)
    returns (newLine: string)
    requires HasGroup(perRegex, g)
    ensures newLine == AsWrittenLine(line, perRegex, g, newStr, askConfirm, answer)
  {
    newLine := RewriteOneLine(line, perRegex, g, newStr);
    if askConfirm && line != newLine {
      if !PositiveResponse(answer) {
        newLine := line;
      }
    }
  }

  /** rewrite_lines(lines, version_re, new_version, suspect_only, ask_confirm=…)
      as written. matches[i][r] lists the matches of regex r on line i: the
      suspect phrases in suspect mode, version_re alone otherwise. Diff
      printing is output only. After an exhausted phrase iterator, suspect
      mode changes nothing. */
  method RewriteLines(lines: seq<string>, matches: seq<seq<seq<Match>>>, newVersion: int, suspectOnly: bool,
                      phrases: PhraseIterator, askConfirm: bool, answers: seq<string>)
    returns (newLines: seq<string>, dirty: bool)
    requires |matches| == |lines| && |answers| == |lines|
    requires forall i :: 0 <= i < |lines| ==> |matches[i]| == (if suspectOnly then phrases.count else 1)
    requires forall i :: 0 <= i < |lines| ==> HasGroup(matches[i], GroupIndex(suspectOnly))
    requires phrases.next <= phrases.count
    modifies phrases
    ensures |newLines| == |lines|
    ensures forall i :: 0 <= i < |lines| ==>
      newLines[i] == AsWrittenLine(lines[i], Visited(matches[i], GroupIndex(suspectOnly), i, suspectOnly, old(phrases.next)),
                                   GroupIndex(suspectOnly), IntToString(newVersion), askConfirm, answers[i])
    ensures dirty <==> exists i :: 0 <= i < |lines| && newLines[i] != lines[i]
    ensures suspectOnly && |lines| > 0 ==> phrases.next == phrases.count
    ensures !suspectOnly || |lines| == 0 ==> phrases.next == old(phrases.next)
    ensures suspectOnly && old(phrases.next) == phrases.count ==> newLines == lines && !dirty
  {
    var newStr := IntToString(newVersion);
    var g := GroupIndex(suspectOnly);
    ghost var start := phrases.next;
    newLines := [];
    dirty := false;
    for i := 0 to |lines|
      invariant |newLines| == i
      invariant phrases.next <= phrases.count
      invariant suspectOnly && i > 0 ==> phrases.next == phrases.count
      invariant !suspectOnly || i == 0 ==> phrases.next == start
      invariant forall j :: 0 <= j < i ==>
        newLines[j] == AsWrittenLine(lines[j], Visited(matches[j], g, j, suspectOnly, start), g, newStr, askConfirm, answers[j])
      invariant dirty <==> exists j :: 0 <= j < i && newLines[j] != lines[j]
    {
      var perRegex: seq<seq<Match>>;
      if suspectOnly {
        // the loop over the iterator takes every phrase it has left
        perRegex := matches[i][phrases.next..];
        phrases.next := phrases.count;
      } else {
        perRegex := matches[i];
      }
      assert perRegex == Visited(matches[i], g, i, suspectOnly, start);
      var newLine := RewriteLine(lines[i], perRegex, g, newStr, askConfirm, answers[i]);
      dirty := dirty || newLine != lines[i];
      newLines := newLines + [newLine];
    }
    if suspectOnly && start == phrases.count {
      forall i | 0 <= i < |lines| ensures newLines[i] == lines[i] {
        AsWrittenLineUnchanged(lines[i], Visited(matches[i], g, i, suspectOnly, start), g, newStr, askConfirm, answers[i]);
      }
    }
  }

  /** Spans inside the line, non-empty and pairwise disjoint: what the
      matches of several regexes on one line mean to replace. */
  predicate Separated(line: string, spans: seq<Span>)
  {
    (forall i :: 0 <= i < |spans| ==> 0 <= spans[i].start < spans[i].end <= |line|) &&
    (forall i, j :: 0 <= i < j < |spans| ==> Disjoint(spans[i], spans[j]))
  }

  predicate Disjoint(a: Span, b: Span)
  {
    a.end <= b.start || b.end <= a.start
  }

  predicate SortedByStart(s: seq<Span>)
  {
    forall i, j :: 0 <= i < j < |s| ==> s[i].start <= s[j].start
  }

  /** Inserts x before the first span that does not start earlier. */
  function InsertSpan(x: Span, s: seq<Span>): seq<Span>
  {
    if s == [] || x.start <= s[0].start then [x] + s else [s[0]] + InsertSpan(x, s[1..])
  }

  /** The spans ordered by where they start. */
  function SortSpans(s: seq<Span>): seq<Span>
  {
    if s == [] then [] else InsertSpan(s[0], SortSpans(s[1..]))
  }

  /** A span that starts no later than any of sorted spans can go in front. */
  lemma SortedCons(x: Span, t: seq<Span>)
    requires SortedByStart(t)
    requires forall y :: y in t ==> x.start <= y.start
    ensures SortedByStart([x] + t)
  {
    var r := [x] + t;
    forall i, j | 0 <= i < j < |r| ensures r[i].start <= r[j].start {
      if i == 0 {
        assert r[j] == t[j - 1] && r[j] in t;
      } else {
        assert r[i] == t[i - 1] && r[j] == t[j - 1];
      }
    }
  }

  /** Inserting adds exactly x. */
  lemma {:induction false} InsertSpanPermutation(x: Span, s: seq<Span>)
    ensures |InsertSpan(x, s)| == |s| + 1
    ensures multiset(InsertSpan(x, s)) == multiset(s) + multiset{x}
  {
    if !(s == [] || x.start <= s[0].start) {
      InsertSpanPermutation(x, s[1..]);
      assert s == [s[0]] + s[1..];
    }
  }

  /** Inserting into sorted spans keeps them sorted and adds exactly x. */
  lemma {:induction false} InsertSpanFacts(x: Span, s: seq<Span>)
    requires SortedByStart(s)
    ensures SortedByStart(InsertSpan(x, s))
    ensures |InsertSpan(x, s)| == |s| + 1
    ensures multiset(InsertSpan(x, s)) == multiset(s) + multiset{x}
  {
    InsertSpanPermutation(x, s);
    if s == [] || x.start <= s[0].start {
      SortedCons(x, s);
    } else {
      var t := InsertSpan(x, s[1..]);
      assert SortedByStart(s[1..]) by {
        forall i, j | 0 <= i < j < |s[1..]| ensures s[1..][i].start <= s[1..][j].start {
          assert s[1..][i] == s[i + 1] && s[1..][j] == s[j + 1];
        }
      }
      InsertSpanFacts(x, s[1..]);
      forall y | y in t ensures s[0].start <= y.start {
        assert y in multiset(t);
        if y != x {
          assert y in multiset(s[1..]);
          var k := InIndex(y, s[1..]);
          assert s[k + 1] == y;
        }
      }
      SortedCons(s[0], t);
    }
  }

  /** SortSpans sorts, and the result is a permutation of its input. */
  lemma {:induction false} SortSpansFacts(s: seq<Span>)
    ensures SortedByStart(SortSpans(s))
    ensures |SortSpans(s)| == |s|
    ensures multiset(SortSpans(s)) == multiset(s)
  {
    if s != [] {
      SortSpansFacts(s[1..]);
      InsertSpanFacts(s[0], SortSpans(s[1..]));
      assert s == [s[0]] + s[1..];
    }
  }

  /** An element of s is one of its entries. */
  lemma InIndex(y: Span, s: seq<Span>) returns (k: nat)
    requires y in multiset(s)
    ensures k < |s| && s[k] == y
  {
    k :| 0 <= k < |s| && s[k] == y;
  }

  /** A span within the line and clear of every separated span can go in front. */
  lemma SeparatedCons(line: string, x: Span, t: seq<Span>)
    requires Separated(line, t)
    requires 0 <= x.start < x.end <= |line|
    requires forall y :: y in t ==> Disjoint(x, y)
    ensures Separated(line, [x] + t)
  {
    var r := [x] + t;
    forall i | 0 <= i < |r| ensures 0 <= r[i].start < r[i].end <= |line| {
      if i > 0 {
        assert r[i] == t[i - 1];
      }
    }
    forall i, j | 0 <= i < j < |r| ensures Disjoint(r[i], r[j]) {
      if i == 0 {
        assert r[j] == t[j - 1] && r[j] in t;
      } else {
        assert r[i] == t[i - 1] && r[j] == t[j - 1];
      }
    }
  }

  /** The parts of separated spans: a head within the line, clear of the tail,
      and a separated tail. */
  lemma SeparatedUncons(line: string, s: seq<Span>)
    requires Separated(line, s) && s != []
    ensures Separated(line, s[1..])
    ensures 0 <= s[0].start < s[0].end <= |line|
    ensures forall y :: y in s[1..] ==> Disjoint(s[0], y)
  {
    forall i, j | 0 <= i < j < |s[1..]| ensures Disjoint(s[1..][i], s[1..][j]) {
      assert s[1..][i] == s[i + 1] && s[1..][j] == s[j + 1];
    }
    forall y | y in s[1..] ensures Disjoint(s[0], y) {
      var k :| 0 <= k < |s[1..]| && s[1..][k] == y;
      assert s[k + 1] == y;
    }
  }

  lemma {:induction false} InsertSeparated(line: string, x: Span, s: seq<Span>)
    requires SortedByStart(s) && Separated(line, s)
    requires 0 <= x.start < x.end <= |line|
    requires forall y :: y in s ==> Disjoint(x, y)
    ensures Separated(line, InsertSpan(x, s))
  {
    if s == [] || x.start <= s[0].start {
      SeparatedCons(line, x, s);
    } else {
      SeparatedUncons(line, s);
      assert forall i, j :: 0 <= i < j < |s[1..]| ==> s[1..][i].start <= s[1..][j].start by {
        forall i, j | 0 <= i < j < |s[1..]| ensures s[1..][i].start <= s[1..][j].start {
          assert s[1..][i] == s[i + 1] && s[1..][j] == s[j + 1];
        }
      }
      assert forall y :: y in s[1..] ==> y in s;
      var t := InsertSpan(x, s[1..]);
      InsertSpanFacts(x, s[1..]);
      InsertSeparated(line, x, s[1..]);
      forall y | y in t ensures Disjoint(s[0], y) {
        assert y in multiset(t);
        if y == x {
          assert s[0] in s;
        } else {
          assert y in multiset(s[1..]);
        }
      }
      SeparatedCons(line, s[0], t);
    }
  }

  lemma {:induction false} SortSeparated(line: string, s: seq<Span>)
    requires Separated(line, s)
    ensures Separated(line, SortSpans(s))
  {
    if s != [] {
      SeparatedUncons(line, s);
      SortSeparated(line, s[1..]);
      SortSpansFacts(s[1..]);
      var t := SortSpans(s[1..]);
      forall y | y in t ensures Disjoint(s[0], y) {
        assert y in multiset(t);
        assert y in multiset(s[1..]);
      }
      InsertSeparated(line, s[0], t);
    }
  }

  /** Sorted, non-empty, disjoint spans are ascending. */
  lemma SortedSeparatedAscending(line: string, s: seq<Span>)
    requires SortedByStart(s) && Separated(line, s)
    ensures Ascending(line, s)
  {
    forall i, j | 0 <= i < j < |s| ensures s[i].end <= s[j].start {
      assert Disjoint(s[i], s[j]);
    }
    AscendingIffPairwise(line, s);
  }

  /** Spans already in order are left as they are by the sort. */
  lemma {:induction false} SortSpansKeepsSorted(s: seq<Span>)
    requires SortedByStart(s)
    ensures SortSpans(s) == s
  {
    if s != [] {
      SortSpansKeepsSorted(s[1..]);
      assert s == [s[0]] + s[1..];
    }
  }

  /** One line rewritten with the matches of all regexes merged and handled
      in the order they start, so that the offset applied to a span is the
      length change of exactly the spans left of it. */
  function FixedLine(line: string, perRegex: seq<seq<Match>>, g: nat, newStr: string): string
    requires HasGroup(perRegex, g)
  {
    Rewritten(line, SortSpans(Flatten(perRegex, g)), newStr).line
  }

  /** Whenever the matches of all regexes pick out disjoint pieces of the
      line, the fixed rewrite replaces each of them, all positions taken in
      the original line; the sorted spans are the same spans. */
  lemma FixedLineReplacesEverySpan(line: string, perRegex: seq<seq<Match>>, g: nat, newStr: string)
    requires HasGroup(perRegex, g) && Separated(line, Flatten(perRegex, g))
    ensures multiset(SortSpans(Flatten(perRegex, g))) == multiset(Flatten(perRegex, g))
    ensures Ascending(line, SortSpans(Flatten(perRegex, g)))
    ensures FixedLine(line, perRegex, g, newStr) == Replaced(line, SortSpans(Flatten(perRegex, g)), newStr)
  {
    var spans := SortSpans(Flatten(perRegex, g));
    SortSpansFacts(Flatten(perRegex, g));
    SortSeparated(line, Flatten(perRegex, g));
    SortedSeparatedAscending(line, spans);
    RewrittenAscending(line, spans, newStr);
  }

  /** With one regex, whose spans already come in order, the fix changes
      nothing. */
  lemma FixedLineAgrees(line: string, ms: seq<Match>, g: nat, newStr: string)
    requires forall k :: 0 <= k < |ms| ==> g < |ms[k]|
    requires Ascending(line, GroupSpans(ms, g))
    ensures HasGroup([ms], g)
    ensures FixedLine(line, [ms], g, newStr) == Rewritten(line, Flatten([ms], g), newStr).line
  {
    var spans := GroupSpans(ms, g);
    FlattenSingle(ms, g);
    AscendingSorted(line, spans);
    SortSpansKeepsSorted(spans);
  }

  /** Ascending spans are sorted by start. */
  lemma AscendingSorted(line: string, spans: seq<Span>)
    requires Ascending(line, spans)
    ensures SortedByStart(spans)
  {
    AscendingIffPairwise(line, spans);
    forall i, j | 0 <= i < j < |spans| ensures spans[i].start <= spans[j].start {
      assert spans[i].start <= spans[i].end <= spans[j].start;
    }
  }

  /** The matches of a single regex, flattened, are its own group spans. */
  lemma FlattenSingle(ms: seq<Match>, g: nat)
    requires forall k :: 0 <= k < |ms| ==> g < |ms[k]|
    ensures HasGroup([ms], g)
    ensures Flatten([ms], g) == GroupSpans(ms, g)
  {
    assert HasGroup([ms], g);
    assert [ms][..0] == [] && [ms][0] == ms;
    assert Flatten([ms], g) == Flatten([], g) + GroupSpans(ms, g);
  }

  /** The matches of the example below: regex 0 matches "2" at 2, regex 1
      matches "1" at 0, each in its group 1. */
  const ExampleMatches: seq<seq<Match>> := [[[Span(2, 3), Span(2, 3)]], [[Span(0, 1), Span(0, 1)]]]

  lemma ExampleGroups()
    ensures HasGroup(ExampleMatches, 1)
    ensures GroupSpans(ExampleMatches[0], 1) == [Span(2, 3)]
    ensures GroupSpans(ExampleMatches[1], 1) == [Span(0, 1)]
  {
  }

  lemma ExampleFlatten()
    ensures HasGroup(ExampleMatches, 1)
    ensures Flatten(ExampleMatches, 1) == [Span(2, 3), Span(0, 1)]
  {
    var m := ExampleMatches;
    ExampleGroups();
    assert m[..1] == [m[0]] && [m[0]][..0] == [];
    assert Flatten(m[..1], 1) == [Span(2, 3)];
  }

  lemma ExampleSorted()
    ensures SortSpans([Span(2, 3), Span(0, 1)]) == [Span(0, 1), Span(2, 3)]
  {
    var a, b := Span(2, 3), Span(0, 1);
    assert [a, b][1..] == [b];
    assert [b][1..] == [];
    assert SortSpans([b]) == [b];
  }

  /** Two spans applied in turn, the first shifting the second by its change
      in length. */
  lemma RewrittenTwo(line: string, x: Span, y: Span, newStr: string)
    ensures Rewritten(line, [x, y], newStr)
         == Step(Step(Rewrite(line, 0), x, newStr), y, newStr)
  {
    RewrittenStep(line, [], x, newStr);
    RewrittenStep(line, [x], y, newStr);
    assert [] + [x] == [x] && [x] + [y] == [x, y];
  }

  lemma ExampleAsWritten()
    ensures Rewritten("1 2", [Span(2, 3), Span(0, 1)], "10").line == "11010"
  {
    RewrittenTwo("1 2", Span(2, 3), Span(0, 1), "10");
    assert Splice("1 2", 2, 3, "10") == "1 10";
    assert Step(Rewrite("1 2", 0), Span(2, 3), "10") == Rewrite("1 10", 1);
    assert Splice("1 10", 1, 2, "10") == "11010";
  }

  lemma ExampleFixed()
    ensures Rewritten("1 2", [Span(0, 1), Span(2, 3)], "10").line == "10 10"
  {
    RewrittenTwo("1 2", Span(0, 1), Span(2, 3), "10");
    assert Splice("1 2", 0, 1, "10") == "10 2";
    assert Step(Rewrite("1 2", 0), Span(0, 1), "10") == Rewrite("10 2", 1);
    assert Splice("10 2", 3, 4, "10") == "10 10";
  }

  /** The as-written loop misplaces a span of a later regex that lies left of
      an earlier regex's span: on "1 2", with regex 0 matching "2" and regex 1
      matching "1" and new_str "10", it produces "11010" instead of "10 10". */
  lemma CrossRegexMisplaced()
    ensures HasGroup(ExampleMatches, 1)
    ensures Rewritten("1 2", Flatten(ExampleMatches, 1), "10").line == "11010"
    ensures FixedLine("1 2", ExampleMatches, 1, "10") == "10 10"
  {
    ExampleFlatten();
    ExampleSorted();
    ExampleAsWritten();
    ExampleFixed();
  }

  /** The line the fixed rewrite outputs for one input line. */
  function FixedOutputLine(line: string, perRegex: seq<seq<Match>>, g: nat, newStr: string,
                           askConfirm: bool, answer: string): string
    requires HasGroup(perRegex, g)
  {
    Confirmed(line, FixedLine(line, perRegex, g, newStr), askConfirm, answer)
  }

  /** A line on which no regex matched comes out unchanged. */
  lemma FixedOutputLineUnchanged(line: string, perRegex: seq<seq<Match>>, g: nat, newStr: string,
                                 askConfirm: bool, answer: string)
    requires HasGroup(perRegex, g) && Flatten(perRegex, g) == []
    ensures FixedOutputLine(line, perRegex, g, newStr, askConfirm, answer) == line
  {
    assert SortSpans(Flatten(perRegex, g)) == [];
  }

  method RewriteLineFixed(line: string, perRegex: seq<seq<Match>>, g: nat, newStr: string, askConfirm: bool, answer: string)
    returns (newLine: string)
    requires HasGroup(perRegex, g)
    ensures newLine == FixedOutputLine(line, perRegex, g, newStr, askConfirm, answer)
  {
    newLine := FixedLine(line, perRegex, g, newStr);
    if askConfirm && line != newLine {
      if !PositiveResponse(answer) {
        newLine := line;
      }
    }
  }

  /** rewrite_lines with the phrases held in a list, so every line is matched
      against all of them, and each line's spans merged in order of start. */
  method RewriteLinesFixed(lines: seq<string>, matches: seq<seq<seq<Match>>>, newVersion: int, suspectOnly: bool,
                           askConfirm: bool, answers: seq<string>)
    returns (newLines: seq<string>, dirty: bool)
    requires |matches| == |lines| && |answers| == |lines|
    requires forall i :: 0 <= i < |lines| ==> HasGroup(matches[i], GroupIndex(suspectOnly))
    ensures |newLines| == |lines|
    ensures forall i :: 0 <= i < |lines| ==>
      newLines[i] == FixedOutputLine(lines[i], matches[i], GroupIndex(suspectOnly), IntToString(newVersion), askConfirm, answers[i])
    ensures dirty <==> exists i :: 0 <= i < |lines| && newLines[i] != lines[i]
  {
    var newStr := IntToString(newVersion);
    var g := GroupIndex(suspectOnly);
    newLines := [];
    dirty := false;
    for i := 0 to |lines|
      invariant |newLines| == i
      invariant forall j :: 0 <= j < i ==>
        newLines[j] == FixedOutputLine(lines[j], matches[j], g, newStr, askConfirm, answers[j])
      invariant dirty <==> exists j :: 0 <= j < i && newLines[j] != lines[j]
    {
      var newLine := RewriteLineFixed(lines[i], matches[i], g, newStr, askConfirm, answers[i]);
      dirty := dirty || newLine != lines[i];
      newLines := newLines + [newLine];
    }
  }

  /** In version mode a match of version_re is (delimiter)(version)(delimiter):
      group 1 ends where group 2 begins, group 2 ends where group 3 begins. */
  predicate VersionMatch(line: string, m: Match)
  {
    |m| == 4 && 0 <= m[1].start <= m[1].end == m[2].start <= m[2].end == m[3].start <= m[3].end <= |line|
  }

  /** Only the version digits are replaced; both delimiters survive, right
      before and right after the new version. */
  lemma VersionMatchKeepsDelimiters(line: string, m: Match, newStr: string)
    requires VersionMatch(line, m)
    ensures var r := Rewritten(line, [m[2]], newStr).line;
      r == line[..m[2].start] + newStr + line[m[2].end..] &&
      r[m[1].start..m[1].end] == line[m[1].start..m[1].end] &&
      r[m[2].start..m[2].start + |newStr|] == newStr &&
      r[m[2].start + |newStr|..m[2].start + |newStr| + (m[3].end - m[3].start)] == line[m[3].start..m[3].end]
  {
    var pre, post := line[..m[2].start], line[m[2].end..];
    RewrittenSingle(line, m[2], newStr);
    var r := Rewritten(line, [m[2]], newStr).line;
    ThreeParts(pre, newStr, post);
    assert r[m[1].start..m[1].end] == r[..|pre|][m[1].start..m[1].end];
    assert pre[m[1].start..m[1].end] == line[m[1].start..m[1].end];
    var d := m[3].end - m[3].start;
    assert r[m[2].start + |newStr|..m[2].start + |newStr| + d] == r[|pre| + |newStr|..][..d];
    assert post[..d] == line[m[3].start..m[3].end];
  }

  /** Replacing a single span that lies within the line. */
  lemma RewrittenSingle(line: string, sp: Span, newStr: string)
    requires 0 <= sp.start <= sp.end <= |line|
    ensures Rewritten(line, [sp], newStr).line == line[..sp.start] + newStr + line[sp.end..]
  {
    RewrittenStep(line, [], sp, newStr);
    assert [] + [sp] == [sp];
  }

  /** The three pieces of a concatenation can be sliced back out. */
  lemma ThreeParts(pre: string, mid: string, post: string)
    ensures (pre + mid + post)[..|pre|] == pre
    ensures (pre + mid + post)[|pre|..|pre| + |mid|] == mid
    ensures (pre + mid + post)[|pre| + |mid|..] == post
  {
  }

  /** The test in address_file: a suspect version is old when it is below
      new_version, or below version when no new version is given. */
  predicate IsOld(curr: int, version: int, newVersion: Option<int>)
  {
    (newVersion.None? && curr < version) || (newVersion.Some? && curr < newVersion.value)
  }

  /** The version a suspect one is compared against. */
  function Bound(version: int, newVersion: Option<int>): int
  {
    if newVersion.None? then version else newVersion.value
  }

  lemma IsOldBelowBound(curr: int, version: int, newVersion: Option<int>)
    ensures IsOld(curr, version, newVersion) <==> curr < Bound(version, newVersion)
    ensures newVersion.Some? ==> (IsOld(curr, version, newVersion) <==> curr < newVersion.value)
  {
  }

  /** What the found loop sees as written: the iterator gives its remaining
      phrases to the first line, and no phrase to any later line.
      versions[i][r] are the version numbers matched by phrase r on line i. */
  predicate FoundAsWritten(versions: seq<seq<seq<int>>>, start: nat, version: int, newVersion: Option<int>)
  {
    |versions| > 0 &&
    exists r, k :: start <= r < |versions[0]| && 0 <= k < |versions[0][r]| && IsOld(versions[0][r][k], version, newVersion)
  }

  /** What the found loop is meant to decide: some phrase on some line holds
      an old version. */
  predicate FoundIntended(versions: seq<seq<seq<int>>>, version: int, newVersion: Option<int>)
  {
    exists i, r, k :: 0 <= i < |versions| && 0 <= r < |versions[i]| && 0 <= k < |versions[i][r]| &&
      IsOld(versions[i][r][k], version, newVersion)
  }

  /** The found loop of address_file in suspect mode, as written. */
  method ScanSuspects(versions: seq<seq<seq<int>>>, version: int, newVersion: Option<int>, phrases: PhraseIterator)
    returns (found: bool)
    requires forall i :: 0 <= i < |versions| ==> |versions[i]| == phrases.count
    requires phrases.next <= phrases.count
    modifies phrases
    ensures found == FoundAsWritten(versions, old(phrases.next), version, newVersion)
    ensures |versions| > 0 ==> phrases.next == phrases.count
    ensures |versions| == 0 ==> phrases.next == old(phrases.next)
  {
    ghost var start := phrases.next;
    found := false;
    for i := 0 to |versions|
      invariant phrases.next <= phrases.count
      invariant i > 0 ==> phrases.next == phrases.count
      invariant i == 0 ==> phrases.next == start
      invariant found == (i > 0 && FoundAsWritten(versions, start, version, newVersion))
    {
      // the loop over the iterator: every phrase it still has
      while phrases.next < phrases.count
        invariant start <= phrases.next <= phrases.count
        invariant i > 0 ==> phrases.next == phrases.count
        invariant i == 0 ==> (found <==> exists r, k :: start <= r < phrases.next && 0 <= k < |versions[i][r]| &&
                                                      IsOld(versions[i][r][k], version, newVersion))
        invariant i > 0 ==> found == FoundAsWritten(versions, start, version, newVersion)
        decreases phrases.count - phrases.next
      {
        var r := phrases.next;
        phrases.next := r + 1;
        for k := 0 to |versions[i][r]|
          invariant found <==> (exists r', k' :: start <= r' < r && 0 <= k' < |versions[i][r']| &&
                                              IsOld(versions[i][r'][k'], version, newVersion)) ||
                               (exists k' :: 0 <= k' < k && IsOld(versions[i][r][k'], version, newVersion))
        {
          if IsOld(versions[i][r][k], version, newVersion) {
            found := true;
          }
        }
      }
    }
  }

  /** The found loop with the phrases held in a list. */
  method ScanSuspectsFixed(versions: seq<seq<seq<int>>>, version: int, newVersion: Option<int>) returns (found: bool)
    ensures found <==> FoundIntended(versions, version, newVersion)
  {
    found := false;
    for i := 0 to |versions|
      invariant found <==> exists i', r, k :: 0 <= i' < i && 0 <= r < |versions[i']| && 0 <= k < |versions[i'][r]| &&
                                           IsOld(versions[i'][r][k], version, newVersion)
    {
      for r := 0 to |versions[i]|
        invariant found <==> (exists i', r', k :: 0 <= i' < i && 0 <= r' < |versions[i']| && 0 <= k < |versions[i'][r']| &&
                                               IsOld(versions[i'][r'][k], version, newVersion)) ||
                             (exists r', k :: 0 <= r' < r && 0 <= k < |versions[i][r']| &&
                                            IsOld(versions[i][r'][k], version, newVersion))
      {
        for k := 0 to |versions[i][r]|
          invariant found <==> (exists i', r', k' :: 0 <= i' < i && 0 <= r' < |versions[i']| && 0 <= k' < |versions[i'][r']| &&
                                                  IsOld(versions[i'][r'][k'], version, newVersion)) ||
                               (exists r', k' :: 0 <= r' < r && 0 <= k' < |versions[i][r']| &&
                                               IsOld(versions[i][r'][k'], version, newVersion)) ||
                               (exists k' :: 0 <= k' < k && IsOld(versions[i][r][k'], version, newVersion))
        {
          if IsOld(versions[i][r][k], version, newVersion) {
            found := true;
          }
        }
      }
    }
  }

  /** As written, an old version on any line but the first is never found,
      though the intended test finds it. */
  lemma ScanMissesLaterLines(versions: seq<seq<seq<int>>>, version: int, newVersion: Option<int>, r: nat, k: nat)
    requires |versions| >= 2
    requires forall r', k' :: 0 <= r' < |versions[0]| && 0 <= k' < |versions[0][r']| ==>
      !IsOld(versions[0][r'][k'], version, newVersion)
    requires r < |versions[1]| && k < |versions[1][r]| && IsOld(versions[1][r][k], version, newVersion)
    ensures !FoundAsWritten(versions, 0, version, newVersion)
    ensures FoundIntended(versions, version, newVersion)
  {
  }

  /** The suspect branch of address_file as written: scan for old versions,
      then rewrite if one was found, a new version is given and diffs or a
      rewrite were asked for. Both loops draw on the one phrase iterator. */
  method AddressSuspects(lines: seq<string>, versions: seq<seq<seq<int>>>, matches: seq<seq<seq<Match>>>,
                         version: int, newVersion: Option<int>, showDiffs: bool, rewrite: bool, askConfirm: bool,
                         answers: seq<string>, phrases: PhraseIterator)
    returns (newLines: seq<string>, dirty: bool)
    requires |versions| == |lines| && |matches| == |lines| && |answers| == |lines|
    requires forall i :: 0 <= i < |lines| ==> |versions[i]| == phrases.count && |matches[i]| == phrases.count
    requires forall i :: 0 <= i < |lines| ==> HasGroup(matches[i], 1)
    requires phrases.next <= phrases.count
    modifies phrases
    ensures newLines == lines && !dirty
  {
    newLines, dirty := lines, false;
    var found := ScanSuspects(versions, version, newVersion, phrases);
    if found && newVersion.Some? && (showDiffs || rewrite) {
      newLines, dirty := RewriteLines(lines, matches, newVersion.value, true, phrases, rewrite && askConfirm, answers);
    }
  }

  /** The other branch of address_file: every match finditer reports for
      version_re has its group 2, the version number, replaced. The `filter`
      object it tests is an iterator, which is always truthy, so the rewrite
      is attempted whenever a new version, diffs or a rewrite, and not paths
      only, were asked for; a file with no match comes out unchanged all the
      same. VersionScan.AddressVersionLineReplaced states where new_str lands
      on the matches finditer reports. */
  method AddressVersion(lines: seq<string>, matches: seq<seq<seq<Match>>>, newVersion: Option<int>,
                        showDiffs: bool, rewrite: bool, askConfirm: bool, pathsOnly: bool,
                        answers: seq<string>, phrases: PhraseIterator)
    returns (newLines: seq<string>, dirty: bool)
    requires |matches| == |lines| && |answers| == |lines|
    requires forall i :: 0 <= i < |lines| ==> |matches[i]| == 1 && HasGroup(matches[i], 2)
    requires phrases.next <= phrases.count
    modifies phrases
    ensures phrases.next == old(phrases.next)
    ensures |newLines| == |lines|
    ensures pathsOnly || newVersion.None? || !(showDiffs || rewrite) ==> newLines == lines && !dirty
    ensures !pathsOnly && newVersion.Some? && (showDiffs || rewrite) ==>
      forall i :: 0 <= i < |lines| ==>
        newLines[i] == AsWrittenLine(lines[i], matches[i], 2, IntToString(newVersion.value), rewrite && askConfirm, answers[i])
    ensures (forall i :: 0 <= i < |lines| ==> matches[i][0] == []) ==> newLines == lines && !dirty
    ensures dirty <==> exists i :: 0 <= i < |lines| && newLines[i] != lines[i]
  {
    newLines, dirty := lines, false;
    if !pathsOnly && newVersion.Some? && (showDiffs || rewrite) {
      newLines, dirty := RewriteLines(lines, matches, newVersion.value, false, phrases, rewrite && askConfirm, answers);
      if forall i :: 0 <= i < |lines| ==> matches[i][0] == [] {
        forall i | 0 <= i < |lines| ensures newLines[i] == lines[i] {
          assert Flatten(matches[i], 2) == [] by {
            FlattenSingle(matches[i][0], 2);
            assert matches[i] == [matches[i][0]];
          }
          AsWrittenLineUnchanged(lines[i], matches[i], 2, IntToString(newVersion.value), rewrite && askConfirm, answers[i]);
        }
      }
    }
  }

  /** What address_file logs about a file in version mode: that it matches
      (paths only), the matching lines, or that it does not match. */
  datatype VersionReport = FileMatches | MatchingLines(lineNumbers: seq<nat>) | NoMatch

  /** The indices of the lines version_re.search finds something in, the
      pairs `filter` yields; they are logged one based. */
  function MatchingIndices(found: seq<bool>): (r: seq<nat>)
    ensures forall n: nat :: n in r <==> n < |found| && found[n]
    ensures forall k, l :: 0 <= k < l < |r| ==> r[k] < r[l]
  {
    if found == [] then []
    else
      var init := MatchingIndices(found[..|found| - 1]);
      assert forall k :: 0 <= k < |init| ==> init[k] in init;
      init + (if found[|found| - 1] then [|found| - 1] else [])
  }

  /** As written: `if matching_lines` tests the filter object, which is
      truthy even when it yields nothing, so "does not match" is never
      reported and paths-only mode reports every file. */
  function ReportAsWritten(found: seq<bool>, pathsOnly: bool): (r: VersionReport)
    ensures r != NoMatch
    ensures pathsOnly ==> r == FileMatches
    ensures !pathsOnly ==> r == MatchingLines(MatchingIndices(found))
  {
    if pathsOnly then FileMatches else MatchingLines(MatchingIndices(found))
  }

  /** A file in which no line holds the version is still said to match. */
  lemma ReportAsWrittenMisreports()
    ensures ReportAsWritten([false, false], true) == FileMatches
    ensures ReportAsWritten([false, false], false) == MatchingLines([])
  {
    assert MatchingIndices([false, false]) == [] by {
      assert forall n: nat :: n !in MatchingIndices([false, false]);
    }
  }

  /** Corrected: the file matches exactly when some line does, the test
      made on the filtered list. */
  function ReportFixed(found: seq<bool>, pathsOnly: bool): (r: VersionReport)
    ensures r == NoMatch <==> forall i :: 0 <= i < |found| ==> !found[i]
    ensures r == FileMatches <==> pathsOnly && exists i :: 0 <= i < |found| && found[i]
    ensures r.MatchingLines? ==> !pathsOnly && |r.lineNumbers| > 0 && forall n: nat :: n in r.lineNumbers <==> n < |found| && found[n]
  {
    var m := MatchingIndices(found);
    if m == [] then NoMatch
    else
      assert m[0] in m;
      if pathsOnly then FileMatches else MatchingLines(m)
  }

  /** The suspect branch of address_file with the phrases held in a list: a
      file with an old version anywhere is rewritten, each line replacing every
      suspect version it holds. */
  method AddressSuspectsFixed(lines: seq<string>, versions: seq<seq<seq<int>>>, matches: seq<seq<seq<Match>>>,
                              version: int, newVersion: Option<int>, showDiffs: bool, rewrite: bool, askConfirm: bool,
                              answers: seq<string>)
    returns (newLines: seq<string>, dirty: bool)
    requires |matches| == |lines| && |answers| == |lines|
    requires forall i :: 0 <= i < |lines| ==> HasGroup(matches[i], 1)
    ensures |newLines| == |lines|
    ensures !(FoundIntended(versions, version, newVersion) && newVersion.Some? && (showDiffs || rewrite)) ==>
      newLines == lines && !dirty
    ensures FoundIntended(versions, version, newVersion) && newVersion.Some? && (showDiffs || rewrite) ==>
      forall i :: 0 <= i < |lines| ==>
        newLines[i] == FixedOutputLine(lines[i], matches[i], 1, IntToString(newVersion.value), rewrite && askConfirm, answers[i])
    ensures dirty <==> exists i :: 0 <= i < |lines| && newLines[i] != lines[i]
  {
    newLines, dirty := lines, false;
    var found := ScanSuspectsFixed(versions, version, newVersion);
    if found && newVersion.Some? && (showDiffs || rewrite) {
      newLines, dirty := RewriteLinesFixed(lines, matches, newVersion.value, true, rewrite && askConfirm, answers);
    }
  }
}
