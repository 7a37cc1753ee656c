/** The matches of version_re that finditer reports, which ApiVersioner
    takes as an input, and the scan the comment above version_re asks for.
    v is str(version), the text the pattern is compiled around. A digit is
    an ASCII `0`-`9` (IsDigit); Python's `\d` in this pattern also matches
    the other Unicode decimal digits, which the model treats as non-digits. */
module VersionScan {
  import opened Text
  import opened Wrappers
  import opened ApiVersioner

  /** What str(version) looks like: a digit or a minus sign, then digits. */
  predicate IsVersionString(v: string)
  {
    |v| > 0 && (v[0] == '-' || IsDigit(v[0])) && forall k :: 0 < k < |v| ==> IsDigit(v[k])
  }

  lemma IntToStringIsVersionString(version: int)
    ensures IsVersionString(IntToString(version))
  {
    if version < 0 {
      var d := Decimal(-version);
      assert forall k :: 0 < k < |IntToString(version)| ==> IntToString(version)[k] == d[k - 1];
    }
  }

  /** Group 3 of version_re at position e: one non-digit, else `$`. A line
      comes from split('\n') and holds no newline, so `$` is its end. */
  function VersionTail(line: string, e: nat): (r: Option<Span>)
    ensures r.Some? ==> r.value.start == e && e <= r.value.end <= |line|
    ensures r.Some? && r.value.end > e ==> !IsDigit(line[e])
  {
    if e < |line| && !IsDigit(line[e]) then Some(Span(e, e + 1))
    else if e == |line| then Some(Span(e, e))
    else None
  }

  /** Groups 2 and 3 of version_re once group 1 has matched g1. */
  function VersionAfter(line: string, v: string, g1: Span): (r: Option<Match>)
    requires 0 <= g1.start <= g1.end <= |line|
    ensures r.Some? ==> (VersionMatch(line, r.value) && r.value[1] == g1 &&
                         r.value[0] == Span(g1.start, r.value[3].end) && line[r.value[2].start..r.value[2].end] == v)
  {
    var b := g1.end;
    if b + |v| <= |line| && line[b..b + |v|] == v then
      match VersionTail(line, b + |v|)
      case Some(g3) => Some([Span(g1.start, g3.end), g1, Span(b, b + |v|), g3])
      case None => None
    else None
  }

  /** version_re tried at pos, its alternatives in the order Python's engine
      tries them: group 1 is `^` (only at the start of the line), else one
      non-digit. */
  function VersionReAt(line: string, v: string, pos: nat): (r: Option<Match>)
    requires pos <= |line|
    ensures r.Some? ==> (VersionMatch(line, r.value) && r.value[1].start == pos &&
                         r.value[0] == Span(pos, r.value[3].end) && line[r.value[2].start..r.value[2].end] == v)
  {
    var atStart := if pos == 0 then VersionAfter(line, v, Span(0, 0)) else None;
    if atStart.Some? then atStart
    else if pos < |line| && !IsDigit(line[pos]) then VersionAfter(line, v, Span(pos, pos + 1))
    else None
  }

  /** version_re.finditer(line) from pos: the leftmost match, then the
      search resumes where that match ends, after its trailing delimiter. */
  function VersionFindIter(line: string, v: string, pos: nat): seq<Match>
    requires |v| > 0 && pos <= |line|
    decreases |line| - pos
  {
    match VersionReAt(line, v, pos)
    case Some(m) =>
      assert m[2].end - m[2].start == |v|;
      [m] + VersionFindIter(line, v, m[0].end)
    case None => if pos < |line| then VersionFindIter(line, v, pos + 1) else []
  }

  /** Every match reported is version_re's shape around the version, and
      the matches follow one another without overlapping. */
  lemma {:induction false} VersionFindIterSound(line: string, v: string, pos: nat)
    requires |v| > 0 && pos <= |line|
    ensures forall k :: 0 <= k < |VersionFindIter(line, v, pos)| ==>
      var m := VersionFindIter(line, v, pos)[k];
      VersionMatch(line, m) && m[0] == Span(m[1].start, m[3].end) && pos <= m[0].start &&
      line[m[2].start..m[2].end] == v
    ensures forall k, l :: 0 <= k < l < |VersionFindIter(line, v, pos)| ==>
      |VersionFindIter(line, v, pos)[k]| > 0 && |VersionFindIter(line, v, pos)[l]| > 0 &&
      VersionFindIter(line, v, pos)[k][0].end <= VersionFindIter(line, v, pos)[l][0].start
    decreases |line| - pos
  {
    match VersionReAt(line, v, pos)
    case Some(m) =>
      assert m[2].end - m[2].start == |v|;
      VersionFindIterSound(line, v, m[0].end);
      var rest := VersionFindIter(line, v, m[0].end);
      assert VersionFindIter(line, v, pos) == [m] + rest;
      assert forall k :: 1 <= k < |rest| + 1 == |VersionFindIter(line, v, pos)| ==> VersionFindIter(line, v, pos)[k] == rest[k - 1];
    case None =>
      if pos < |line| {
        VersionFindIterSound(line, v, pos + 1);
        assert VersionFindIter(line, v, pos) == VersionFindIter(line, v, pos + 1);
      }
  }

  /** What finditer reports for version_re: matches shaped
      (group 1)(group 2)(group 3), group 0 running from group 1 to group 3,
      each match ending before the next one starts. */
  predicate Reported(line: string, ms: seq<Match>)
  {
    (forall j :: 0 <= j < |ms| ==> VersionMatch(line, ms[j]) && ms[j][0] == Span(ms[j][1].start, ms[j][3].end)) &&
    (forall i, j :: 0 <= i < j < |ms| ==> ms[i][0].end <= ms[j][0].start)
  }

  lemma VersionFindIterReported(line: string, v: string)
    requires |v| > 0
    ensures Reported(line, VersionFindIter(line, v, 0))
  {
    VersionFindIterSound(line, v, 0);
  }

  /** The version spans of reported matches follow one another, so the
      rewrite loop sees them in ascending order. */
  lemma ReportedAscending(line: string, ms: seq<Match>)
    requires Reported(line, ms)
    ensures forall j :: 0 <= j < |ms| ==> 2 < |ms[j]|
    ensures Ascending(line, GroupSpans(ms, 2))
  {
    var spans := GroupSpans(ms, 2);
    forall i, j | 0 <= i < j < |spans| ensures spans[i].end <= spans[j].start {
      var a, b := ms[i], ms[j];
      assert VersionMatch(line, a) && a[0] == Span(a[1].start, a[3].end);
      assert VersionMatch(line, b) && b[0] == Span(b[1].start, b[3].end);
      assert a[0].end <= b[0].start;
    }
    AscendingIffPairwise(line, spans);
  }

  /** Span k of ascending spans, after the rewrite loop: the loop's line is
      the reference replacement, and new_str sits at the span's start shifted
      by the length change of the spans before it. */
  lemma AscendingSpanReplaced(line: string, spans: seq<Span>, newStr: string, k: nat)
    requires Ascending(line, spans) && k < |spans|
    ensures Rewritten(line, spans, newStr).line == Replaced(line, spans, newStr)
    ensures var r, at := Rewritten(line, spans, newStr).line, spans[k].start + TotalDelta(spans[..k], newStr);
      0 <= at && at + |newStr| <= |r| && r[at..at + |newStr|] == newStr
  {
    RewrittenAscending(line, spans, newStr);
    EachSpanReplaced(line, spans, k, newStr);
  }

  /** The version branch of rewrite_lines on reported matches: new_str
      replaces group 2 of match k, at its start shifted by the length change
      of the matches before it, and the rest of the line is the original
      text between the versions. */
  lemma ReportedReplaced(line: string, ms: seq<Match>, newStr: string, k: nat)
    requires Reported(line, ms) && k < |ms|
    ensures forall j :: 0 <= j < |ms| ==> 2 < |ms[j]|
    ensures var spans := GroupSpans(ms, 2);
      Ascending(line, spans) && Rewritten(line, spans, newStr).line == Replaced(line, spans, newStr) &&
      var r, at := Rewritten(line, spans, newStr).line, ms[k][2].start + TotalDelta(spans[..k], newStr);
      0 <= at && at + |newStr| <= |r| && r[at..at + |newStr|] == newStr
  {
    ReportedAscending(line, ms);
    var spans := GroupSpans(ms, 2);
    assert spans[k] == ms[k][2];
    AscendingSpanReplaced(line, spans, newStr, k);
  }

  /** address_file in version mode on one line, with reported matches:
      unless the change is declined, the output line holds new_str in place
      of group 2 of every match. */
  lemma AsWrittenLineReplaced(line: string, ms: seq<Match>, newStr: string, askConfirm: bool,
                              answer: string, k: nat)
    requires Reported(line, ms) && k < |ms|
    requires !askConfirm || PositiveResponse(answer)
    ensures forall j :: 0 <= j < |ms| ==> 2 < |ms[j]|
    ensures HasGroup([ms], 2)
    ensures var r, at := AsWrittenLine(line, [ms], 2, newStr, askConfirm, answer),
                         ms[k][2].start + TotalDelta(GroupSpans(ms, 2)[..k], newStr);
      0 <= at && at + |newStr| <= |r| && r[at..at + |newStr|] == newStr
  {
    ReportedReplaced(line, ms, newStr, k);
    FlattenSingle(ms, 2);
    var newLine := Rewritten(line, GroupSpans(ms, 2), newStr).line;
    assert Confirmed(line, newLine, askConfirm, answer) == newLine;
  }

  /** The same for the matches finditer reports for version_re: the
      version text of every match is replaced by new_str. */
  lemma AddressVersionLineReplaced(line: string, v: string, newStr: string, askConfirm: bool,
                                   answer: string, k: nat)
    requires |v| > 0 && k < |VersionFindIter(line, v, 0)|
    requires !askConfirm || PositiveResponse(answer)
    ensures var ms := VersionFindIter(line, v, 0);
      Reported(line, ms) && HasGroup([ms], 2) &&
      var r, at := AsWrittenLine(line, [ms], 2, newStr, askConfirm, answer),
                   ms[k][2].start + TotalDelta(GroupSpans(ms, 2)[..k], newStr);
      0 <= at && at + |newStr| <= |r| && r[at..at + |newStr|] == newStr
  {
    var ms := VersionFindIter(line, v, 0);
    VersionFindIterReported(line, v);
    AsWrittenLineReplaced(line, ms, newStr, askConfirm, answer, k);
  }

  /** An occurrence of v at i that is not part of a larger number: no digit
      right before it and none right after it. */
  predicate StandaloneAt(line: string, v: string, i: int)
  {
    0 <= i && i + |v| <= |line| && line[i..i + |v|] == v &&
    (i == 0 || !IsDigit(line[i - 1])) && (i + |v| == |line| || !IsDigit(line[i + |v|]))
  }

  /** The characters of an occurrence of v at i. */
  lemma OccurrenceChars(line: string, v: string, i: int)
    requires 0 <= i && i + |v| <= |line| && line[i..i + |v|] == v
    ensures forall p :: i <= p < i + |v| ==> line[p] == v[p - i]
  {
    forall p | i <= p < i + |v| ensures line[p] == v[p - i] {
      assert line[i..i + |v|][p - i] == line[p];
    }
  }

  /** Two standalone occurrences of a version string never overlap: the
      later one would hold the character after the earlier one, which is a
      non-digit, at a place where the version string has a digit. */
  lemma StandaloneApart(line: string, v: string, j: int, i: int)
    requires IsVersionString(v)
    requires StandaloneAt(line, v, j) && StandaloneAt(line, v, i) && j < i
    ensures j + |v| <= i
  {
    OccurrenceChars(line, v, i);
  }

  /** The scan the comment above version_re asks for: the standalone
      occurrences of the version, left to right, as finditer would report
      (?<!\d)(V)(?!\d), whose lookarounds consume no delimiter. */
  function StandaloneSpans(line: string, v: string, pos: nat): seq<Span>
    requires |v| > 0 && pos <= |line|
    decreases |line| - pos
  {
    if pos == |line| then []
    else if StandaloneAt(line, v, pos) then [Span(pos, pos + |v|)] + StandaloneSpans(line, v, pos + |v|)
    else StandaloneSpans(line, v, pos + 1)
  }

  /** Every span the corrected scan reports is a standalone occurrence, and
      the spans follow one another. */
  lemma {:induction false} StandaloneSpansSound(line: string, v: string, pos: nat)
    requires |v| > 0 && pos <= |line|
    ensures forall k :: 0 <= k < |StandaloneSpans(line, v, pos)| ==>
      var sp := StandaloneSpans(line, v, pos)[k];
      pos <= sp.start && sp.end == sp.start + |v| && StandaloneAt(line, v, sp.start)
    ensures forall k, l :: 0 <= k < l < |StandaloneSpans(line, v, pos)| ==>
      StandaloneSpans(line, v, pos)[k].end <= StandaloneSpans(line, v, pos)[l].start
    decreases |line| - pos
  {
    if pos < |line| {
      if StandaloneAt(line, v, pos) {
        StandaloneSpansSound(line, v, pos + |v|);
        assert StandaloneSpans(line, v, pos) == [Span(pos, pos + |v|)] + StandaloneSpans(line, v, pos + |v|);
      } else {
        StandaloneSpansSound(line, v, pos + 1);
        assert StandaloneSpans(line, v, pos) == StandaloneSpans(line, v, pos + 1);
      }
    }
  }

  /** The corrected scan misses no standalone occurrence: after one is
      reported, the next cannot start before it ends. k is where it is. */
  lemma {:induction false} StandaloneSpansComplete(line: string, v: string, pos: nat, i: int) returns (k: nat)
    requires IsVersionString(v)
    requires pos <= i && StandaloneAt(line, v, i)
    ensures pos <= |line| && k < |StandaloneSpans(line, v, pos)|
    ensures StandaloneSpans(line, v, pos)[k] == Span(i, i + |v|)
    decreases |line| - pos
  {
    assert pos < |line|;
    if StandaloneAt(line, v, pos) {
      var rest := StandaloneSpans(line, v, pos + |v|);
      assert StandaloneSpans(line, v, pos) == [Span(pos, pos + |v|)] + rest;
      if i == pos {
        k := 0;
      } else {
        StandaloneApart(line, v, pos, i);
        var j := StandaloneSpansComplete(line, v, pos + |v|, i);
        k := j + 1;
      }
    } else {
      assert i != pos;
      assert StandaloneSpans(line, v, pos) == StandaloneSpans(line, v, pos + 1);
      k := StandaloneSpansComplete(line, v, pos + 1, i);
    }
  }

  /** The corrected scan's spans are ascending and include every
      standalone occurrence; k is its place among them. */
  lemma StandaloneSpansAscending(line: string, v: string, i: int) returns (k: nat)
    requires IsVersionString(v)
    requires StandaloneAt(line, v, i)
    ensures Ascending(line, StandaloneSpans(line, v, 0))
    ensures k < |StandaloneSpans(line, v, 0)| && StandaloneSpans(line, v, 0)[k] == Span(i, i + |v|)
  {
    var spans := StandaloneSpans(line, v, 0);
    StandaloneSpansSound(line, v, 0);
    assert AscendingPairwise(line, spans);
    AscendingIffPairwise(line, spans);
    k := StandaloneSpansComplete(line, v, 0, i);
  }

  /** With the corrected scan, rewrite_lines's loop puts the new version in
      place of every standalone occurrence: at the occurrence's start,
      shifted by the length change of the k spans before it. */
  lemma StandaloneSpansReplaced(line: string, v: string, newStr: string, i: int) returns (k: nat)
    requires IsVersionString(v)
    requires StandaloneAt(line, v, i)
    ensures var spans := StandaloneSpans(line, v, 0);
      k < |spans| && spans[k] == Span(i, i + |v|) &&
      var r, at := Rewritten(line, spans, newStr).line, i + TotalDelta(spans[..k], newStr);
      0 <= at && at + |newStr| <= |r| && r[at..at + |newStr|] == newStr
  {
    var spans := StandaloneSpans(line, v, 0);
    k := StandaloneSpansAscending(line, v, i);
    RewrittenAscending(line, spans, newStr);
    EachSpanReplaced(line, spans, k, newStr);
  }

  /** The pieces of the line v,v. */
  lemma PairLine(v: string)
    ensures var n, line := |v|, v + "," + v;
      |line| == 2 * n + 1 && line[..n] == v && line[0..n] == v && line[n] == ',' &&
      line[n..] == "," + v && line[n + 1..] == v && line[n + 1..2 * n + 1] == v
  {
    var n, line := |v|, v + "," + v;
    assert line[..n] == v;
    assert line[n..] == "," + v;
    assert line[n + 1..] == v;
  }

  /** No match starts in the last |v| characters of a line: group 1 takes
      at least one of them, which leaves too little room for the version. */
  lemma {:induction false} VersionFindIterNoRoom(line: string, v: string, pos: nat)
    requires |v| > 0 && 0 < pos <= |line| && |line| < pos + 1 + |v|
    ensures VersionFindIter(line, v, pos) == []
    decreases |line| - pos
  {
    assert VersionReAt(line, v, pos) == None;
    if pos < |line| {
      VersionFindIterNoRoom(line, v, pos + 1);
    }
  }

  /** The one match finditer reports in v,v: the version at the start of the
      line, group 1 the empty `^`, group 3 the comma. */
  lemma VersionFindIterPair(v: string)
    requires |v| > 0
    ensures var n := |v|;
      VersionFindIter(v + "," + v, v, 0) == [[Span(0, n + 1), Span(0, 0), Span(0, n), Span(n, n + 1)]]
  {
    var n, line := |v|, v + "," + v;
    PairLine(v);
    var m := [Span(0, n + 1), Span(0, 0), Span(0, n), Span(n, n + 1)];
    assert VersionTail(line, n) == Some(Span(n, n + 1));
    assert VersionAfter(line, v, Span(0, 0)) == Some(m);
    assert VersionReAt(line, v, 0) == Some(m);
    VersionFindIterNoRoom(line, v, n + 1);
    assert VersionFindIter(line, v, 0) == [m] + VersionFindIter(line, v, n + 1);
  }

  /** In v,v (for instance 610,610) finditer reports only the first v: its
      match took the comma that the second v needs as group 1. The rewrite
      then leaves the second v as it was, although it stands alone. */
  lemma VersionFindIterMissesNeighbour(v: string, newStr: string)
    requires |v| > 0
    ensures var line := v + "," + v;
      var ms := VersionFindIter(line, v, 0);
      StandaloneAt(line, v, |v| + 1) && |ms| == 1 && ms[0][2] == Span(0, |v|) &&
      Rewritten(line, GroupSpans(ms, 2), newStr).line == newStr + "," + v
  {
    var n := |v|;
    VersionFindIterPair(v);
    var m := [Span(0, n + 1), Span(0, 0), Span(0, n), Span(n, n + 1)];
    assert GroupSpans([m], 2) == [Span(0, n)];
    PairSecondStandalone(v);
    PairFirstRewritten(v, newStr);
  }

  lemma PairSecondStandalone(v: string)
    ensures StandaloneAt(v + "," + v, v, |v| + 1)
  {
    PairLine(v);
  }

  lemma PairFirstRewritten(v: string, newStr: string)
    ensures Rewritten(v + "," + v, [Span(0, |v|)], newStr).line == newStr + "," + v
  {
    var n, line := |v|, v + "," + v;
    PairLine(v);
    RewrittenSingle(line, Span(0, n), newStr);
    assert line[..0] + newStr == newStr;
    ConcatAssoc(newStr, ",", v);
  }

  lemma ConcatAssoc(a: string, b: string, c: string)
    ensures a + (b + c) == a + b + c
  {
  }

  lemma PairFirstStandalone(v: string)
    ensures StandaloneAt(v + "," + v, v, 0)
  {
    PairLine(v);
  }

  /** The comma is not where a version string starts. */
  lemma PairCommaNotStandalone(v: string)
    requires IsVersionString(v)
    ensures !StandaloneAt(v + "," + v, v, |v|)
  {
    var n, line := |v|, v + "," + v;
    PairLine(v);
    if n + n <= |line| {
      assert line[n..n + n][0] == line[n];
    }
  }

  /** The corrected scan of v,v: both occurrences. */
  lemma StandaloneSpansPair(v: string)
    requires IsVersionString(v)
    ensures var n := |v|;
      StandaloneSpans(v + "," + v, v, 0) == [Span(0, n), Span(n + 1, 2 * n + 1)]
  {
    var n, line := |v|, v + "," + v;
    assert |line| == 2 * n + 1;
    PairFirstStandalone(v);
    PairCommaNotStandalone(v);
    PairSecondStandalone(v);
    assert StandaloneSpans(line, v, 2 * n + 1) == [];
    assert StandaloneSpans(line, v, n + 1) == [Span(n + 1, 2 * n + 1)];
    assert StandaloneSpans(line, v, n) == [Span(n + 1, 2 * n + 1)];
  }
}
