/** `TextChunker` of src/code/chunking.py: the even chunk-size formula, the greedy
    grouping of whole lines under a hard token limit and a soft target, the text
    clean-up, and the expansion of ToC rows into one row per chunk. The tokenizer
    is the parameter `count` (token count of a string); the count of the whole text
    is not assumed to equal the sum of the counts of its lines. */
module Chunking {
  import opened Base
  import opened Text

  // ---------------------------------------------------------------------------
  // Chunk size

  function CeilDiv(a: nat, b: nat): nat
    requires b > 0
  {
    (a + b - 1) / b
  }

  /** `CeilDiv(a, b)` is the least `q` with `q * b >= a`. */
  lemma CeilDivBounds(a: nat, b: nat)
    requires b > 0
    ensures CeilDiv(a, b) * b >= a
    ensures (CeilDiv(a, b) - 1) * b < a
  {
    var q := CeilDiv(a, b);
    var r := (a + b - 1) % b;
    assert a + b - 1 == q * b + r;
    assert (q - 1) * b == q * b - b;
  }

  lemma {:induction false} MulMonotoneLess(x: int, y: int, k: int)
    requires k > 0 && x * k < y * k
    ensures x < y
  {
  }

  /** `math.ceil(n / math.ceil(n / token_limit))`: with `k` the least number of chunks
      of at most `limit` tokens that hold `n` tokens, the least size that spreads the
      `n` tokens over `k` chunks. Zero tokens or a zero limit divide by zero. */
  function ChunkSize(n: nat, limit: nat): (r: Result<nat>)
    ensures r.Err? <==> n == 0 || limit == 0
    ensures r.Err? ==> r.error == ZeroDivision
    ensures r.Ok? ==> 1 <= r.value <= limit
    ensures r.Ok? ==>
              var k := CeilDiv(n, limit);
              && (k - 1) * limit < n <= k * limit
              && (r.value - 1) * k < n <= r.value * k
  {
    if limit == 0 then Err(ZeroDivision)
    else
      var k := CeilDiv(n, limit);
      CeilDivBounds(n, limit);
      if k == 0 then Err(ZeroDivision)
      else
        var c := CeilDiv(n, k);
        CeilDivBounds(n, k);
        assert c * k >= n;
        assert (c - 1) * k < limit * k by {
          assert limit * k == k * limit;
        }
        MulMonotoneLess(c - 1, limit, k);
        Ok(c)
  }

  // ---------------------------------------------------------------------------
  // str.splitlines(keepends=True)

  /** The characters `str.splitlines` ends a line at ("\r\n" counts as one boundary). */
  predicate IsLineBreak(c: char) {
    || c == '\n' || c == '\r' || c == '\U{0b}' || c == '\U{0c}'
    || c == '\U{1c}' || c == '\U{1d}' || c == '\U{1e}'
    || c == '\U{85}' || c == '\U{2028}' || c == '\U{2029}'
  }

  predicate BreakFree(s: string) {
    forall j :: 0 <= j < |s| ==> !IsLineBreak(s[j])
  }

  /** A line with its terminator: one break character, or "\r\n", and no break before it. */
  predicate IsTerminatedLine(l: string) {
    || (|l| >= 1 && BreakFree(l[..|l| - 1]) && IsLineBreak(l[|l| - 1]))
    || (|l| >= 2 && BreakFree(l[..|l| - 2]) && l[|l| - 2..] == "\r\n")
  }

  function BreakIndex(s: string): (b: nat)
    ensures b <= |s|
    ensures BreakFree(s[..b])
    ensures b < |s| ==> IsLineBreak(s[b])
  {
    if |s| == 0 || IsLineBreak(s[0]) then 0
    else
      var b := 1 + BreakIndex(s[1..]);
      assert s[..b] == [s[0]] + s[1..][..b - 1];
      b
  }

  /** Length of the first line of `s`, terminator included. */
  function FirstLineLength(s: string): (k: nat)
    requires |s| > 0
    ensures 1 <= k <= |s|
    ensures k < |s| ==> IsTerminatedLine(s[..k])
    ensures k == |s| ==> IsTerminatedLine(s) || BreakFree(s)
    ensures k < |s| && s[k - 1] == '\r' ==> s[k] != '\n'
  {
    var b := BreakIndex(s);
    assert s[..|s|] == s;
    if b == |s| then
      assert s[..b] == s;
      |s|
    else if s[b] == '\r' && b + 1 < |s| && s[b + 1] == '\n' then
      CrLfLine(s, b);
      b + 2
    else
      OneBreakLine(s, b);
      b + 1
  }

  lemma CrLfLine(s: string, b: nat)
    requires b + 1 < |s| && BreakFree(s[..b]) && s[b] == '\r' && s[b + 1] == '\n'
    ensures IsTerminatedLine(s[..b + 2])
  {
    var l := s[..b + 2];
    assert l[..|l| - 2] == s[..b];
    assert l[|l| - 2..] == "\r\n";
  }

  lemma OneBreakLine(s: string, b: nat)
    requires b < |s| && BreakFree(s[..b]) && IsLineBreak(s[b])
    ensures IsTerminatedLine(s[..b + 1])
  {
    var l := s[..b + 1];
    assert l[..|l| - 1] == s[..b];
  }

  /** The shape of a line split: no line is empty, each is a terminated line or the
      break-free rest, every line but the last is terminated, and a lone '\r' ending a
      line is not followed by a '\n'. */
  predicate LinesShape(lines: seq<string>) {
    && (forall i :: 0 <= i < |lines| ==> |lines[i]| > 0)
    && (forall i :: 0 <= i < |lines| ==> IsTerminatedLine(lines[i]) || BreakFree(lines[i]))
    && (forall i :: 0 <= i < |lines| - 1 ==> IsTerminatedLine(lines[i]))
    && (forall i :: 0 <= i < |lines| - 1 && lines[i][|lines[i]| - 1] == '\r' ==> lines[i + 1][0] != '\n')
  }

  /** `lines` is a line split of `s`: the lines concatenate to `s` and have the shape above. */
  predicate IsLineSplit(lines: seq<string>, s: string) {
    Flatten(lines) == s && LinesShape(lines)
  }

  /** The first line followed by a line split of the rest is a line split of the whole. */
  lemma ConsLineSplit(s: string, k: nat, rest: seq<string>)
    requires |s| > 0 && k == FirstLineLength(s)
    requires IsLineSplit(rest, s[k..])
    ensures IsLineSplit([s[..k]] + rest, s)
  {
    ConsLineSplitJoin(s, k, rest);
    FirstLineShape(s, k, rest);
  }

  lemma FirstLineShape(s: string, k: nat, rest: seq<string>)
    requires |s| > 0 && k == FirstLineLength(s)
    requires LinesShape(rest)
    requires |rest| > 0 ==> k < |s| && rest[0][0] == s[k]
    ensures LinesShape([s[..k]] + rest)
  {
    var first := s[..k];
    if k == |s| {
      assert first == s;
    }
    assert |rest| > 0 ==> first[|first| - 1] == s[k - 1];
    ConsLinesShape(first, rest);
  }

  lemma ConsLineSplitJoin(s: string, k: nat, rest: seq<string>)
    requires k <= |s|
    requires Flatten(rest) == s[k..]
    requires |rest| > 0 ==> |rest[0]| > 0
    ensures Flatten([s[..k]] + rest) == s
    ensures |rest| > 0 ==> k < |s| && rest[0][0] == s[k]
  {
    assert Flatten([s[..k]] + rest) == s[..k] + Flatten(rest);
    assert s == s[..k] + s[k..];
    if |rest| > 0 {
      assert Flatten(rest) == rest[0] + Flatten(rest[1..]);
    }
  }

  lemma ConsLinesShape(first: string, rest: seq<string>)
    requires LinesShape(rest)
    requires |first| > 0 && (IsTerminatedLine(first) || BreakFree(first))
    requires |rest| > 0 ==> IsTerminatedLine(first)
    requires |rest| > 0 && first[|first| - 1] == '\r' ==> rest[0][0] != '\n'
    ensures LinesShape([first] + rest)
  {
    var lines := [first] + rest;
    forall i | 0 <= i < |lines|
      ensures |lines[i]| > 0
      ensures IsTerminatedLine(lines[i]) || BreakFree(lines[i])
      ensures i < |lines| - 1 ==> IsTerminatedLine(lines[i])
    {
      if i > 0 {
        assert lines[i] == rest[i - 1];
      }
    }
    forall i | 0 <= i < |lines| - 1 && lines[i][|lines[i]| - 1] == '\r'
      ensures lines[i + 1][0] != '\n'
    {
      assert lines[i + 1] == rest[i];
      if i > 0 {
        assert lines[i] == rest[i - 1];
      }
    }
  }

  /** `text.splitlines(keepends=True)`. */
  function SplitLines(s: string): (lines: seq<string>)
    ensures IsLineSplit(lines, s)
    decreases |s|
  {
    if |s| == 0 then []
    else
      var k := FirstLineLength(s);
      var rest := SplitLines(s[k..]);
      ConsLineSplit(s, k, rest);
      [s[..k]] + rest
  }

  // ---------------------------------------------------------------------------
  // Greedy grouping of lines

  /** Sum of the token counts of `lines`. */
  function Tokens(lines: seq<string>, count: string -> nat): nat
  {
    if |lines| == 0 then 0 else Tokens(lines[..|lines| - 1], count) + count(lines[|lines| - 1])
  }

  lemma {:induction false} TokensPrefix(lines: seq<string>, count: string -> nat, m: nat)
    requires m <= |lines|
    ensures Tokens(lines[..m], count) <= Tokens(lines, count)
    decreases |lines|
  {
    if m < |lines| {
      assert lines[..m] == lines[..|lines| - 1][..m];
      TokensPrefix(lines[..|lines| - 1], count, m);
    } else {
      assert lines[..m] == lines;
    }
  }

  lemma {:induction false} TokensAtLeastLine(lines: seq<string>, count: string -> nat, m: nat)
    requires m < |lines|
    ensures count(lines[m]) <= Tokens(lines, count)
    decreases |lines|
  {
    if m < |lines| - 1 {
      assert lines[..|lines| - 1][m] == lines[m];
      TokensAtLeastLine(lines[..|lines| - 1], count, m);
    }
  }

  /** The loop state of `chunk_text_by_lines`: emitted groups, the open group and its total. */
  datatype Grouping = Grouping(done: seq<seq<string>>, cur: seq<string>, curTokens: int)

  /** One iteration: flush if the line would pass the hard limit (even an empty group),
      add the line, flush if the total now passes the soft target. */
  function Step(g: Grouping, line: string, count: string -> nat, limit: int, size: int): Grouping
  {
    var t := count(line);
    var g1 := if g.curTokens + t > limit then Grouping(g.done + [g.cur], [], 0) else g;
    var g2 := Grouping(g1.done, g1.cur + [line], g1.curTokens + t);
    if g2.curTokens > size then Grouping(g2.done + [g2.cur], [], 0) else g2
  }

  /** After the loop: a non-empty open group is emitted. */
  function Finish(g: Grouping): seq<seq<string>>
  {
    if |g.cur| > 0 then g.done + [g.cur] else g.done
  }

  /** Group `a` was closed with `next` following: it passed the soft target, or the
      first line of `next` would have pushed it past the hard limit. */
  predicate Closed(a: seq<string>, next: seq<string>, count: string -> nat, limit: int, size: int) {
    Tokens(a, count) > size || (|next| > 0 && Tokens(a, count) + count(next[0]) > limit)
  }

  /** A group of two or more lines stays within the hard limit, and each proper
      prefix of a group stays within the soft target. */
  predicate GroupOk(a: seq<string>, count: string -> nat, limit: int, size: int) {
    && (|a| >= 2 ==> Tokens(a, count) <= limit)
    && (forall m :: 1 <= m < |a| ==> Tokens(a[..m], count) <= size)
  }

  /** What the greedy grouping guarantees of its whole output. */
  predicate GroupsOk(groups: seq<seq<string>>, count: string -> nat, limit: int, size: int) {
    && (forall j :: 0 <= j < |groups| ==> GroupOk(groups[j], count, limit, size))
    && (forall j :: 0 <= j < |groups| - 1 ==> Closed(groups[j], groups[j + 1], count, limit, size))
    && (|groups| > 0 ==> |groups[|groups| - 1]| > 0)
    && (forall j :: 0 <= j < |groups| && |groups[j]| > 0 && count(groups[j][0]) > limit ==> j > 0)
  }

  /** The loop invariant of `chunk_text_by_lines`, except the soft-target bound on the
      open group, which holds between iterations but not before the second flush. */
  predicate WfDone(g: Grouping, count: string -> nat, limit: int, size: int) {
    && g.curTokens == Tokens(g.cur, count)
    && (forall j :: 0 <= j < |g.done| ==> GroupOk(g.done[j], count, limit, size))
    && (forall j :: 0 <= j < |g.done| - 1 ==> Closed(g.done[j], g.done[j + 1], count, limit, size))
    && (|g.done| > 0 ==> Closed(g.done[|g.done| - 1], g.cur, count, limit, size))
    && GroupOk(g.cur, count, limit, size)
    && (|g.done| > 0 && |g.done[|g.done| - 1]| == 0 ==> |g.cur| > 0)
    && (forall j :: 0 <= j < |g.done| && |g.done[j]| > 0 && count(g.done[j][0]) > limit ==> j > 0)
    && (|g.cur| > 0 && count(g.cur[0]) > limit ==> |g.done| > 0)
  }

  /** The loop invariant of `chunk_text_by_lines`. */
  predicate Wf(g: Grouping, count: string -> nat, limit: int, size: int) {
    WfDone(g, count, limit, size) && (|g.cur| > 0 ==> g.curTokens <= size)
  }

  /** A line that would pass the hard limit: the open group is emitted and the line
      opens the next one. */
  lemma LimitFlushThenAdd(g: Grouping, line: string, count: string -> nat, limit: int, size: int)
    requires Wf(g, count, limit, size)
    requires g.curTokens + count(line) > limit
    ensures WfDone(Grouping(g.done + [g.cur], [line], count(line)), count, limit, size)
  {
    assert [line][..0] == [];
  }

  /** A line that fits under the hard limit joins the open group. */
  lemma AddWithoutFlush(g: Grouping, line: string, count: string -> nat, limit: int, size: int)
    requires Wf(g, count, limit, size)
    requires g.curTokens + count(line) <= limit
    ensures WfDone(Grouping(g.done, g.cur + [line], g.curTokens + count(line)), count, limit, size)
  {
    var cur := g.cur + [line];
    assert cur[..|cur| - 1] == g.cur;
    assert |g.cur| > 0 ==> cur[0] == g.cur[0];
    forall m | 1 <= m < |cur|
      ensures Tokens(cur[..m], count) <= size
    {
      assert cur[..m] == g.cur[..m];
      TokensPrefix(g.cur, count, m);
    }
  }

  /** An open group past the soft target is emitted. */
  lemma SizeFlush(g: Grouping, count: string -> nat, limit: int, size: int)
    requires WfDone(g, count, limit, size)
    requires |g.cur| > 0 && g.curTokens > size
    ensures Wf(Grouping(g.done + [g.cur], [], 0), count, limit, size)
  {
  }

  /** An iteration whose line would pass the hard limit keeps the loop invariant. */
  lemma StepOverLimitKeepsWf(g: Grouping, line: string, count: string -> nat, limit: int, size: int)
    requires Wf(g, count, limit, size)
    requires g.curTokens + count(line) > limit
    ensures Wf(Step(g, line, count, limit, size), count, limit, size)
  {
    var g2 := Grouping(g.done + [g.cur], [line], count(line));
    assert Step(g, line, count, limit, size) == if g2.curTokens > size then Grouping(g2.done + [g2.cur], [], 0) else g2 by {
      assert [] + [line] == [line];
    }
    LimitFlushThenAdd(g, line, count, limit, size);
    if g2.curTokens > size {
      SizeFlush(g2, count, limit, size);
    }
  }

  /** An iteration whose line fits under the hard limit keeps the loop invariant. */
  lemma StepUnderLimitKeepsWf(g: Grouping, line: string, count: string -> nat, limit: int, size: int)
    requires Wf(g, count, limit, size)
    requires g.curTokens + count(line) <= limit
    ensures Wf(Step(g, line, count, limit, size), count, limit, size)
  {
    var g2 := Grouping(g.done, g.cur + [line], g.curTokens + count(line));
    assert Step(g, line, count, limit, size) == if g2.curTokens > size then Grouping(g2.done + [g2.cur], [], 0) else g2;
    AddWithoutFlush(g, line, count, limit, size);
    if g2.curTokens > size {
      SizeFlush(g2, count, limit, size);
    }
  }

  /** One loop iteration keeps the loop invariant. */
  lemma StepKeepsWf(g: Grouping, line: string, count: string -> nat, limit: int, size: int)
    requires Wf(g, count, limit, size)
    ensures Wf(Step(g, line, count, limit, size), count, limit, size)
  {
    if g.curTokens + count(line) > limit {
      StepOverLimitKeepsWf(g, line, count, limit, size);
    } else {
      StepUnderLimitKeepsWf(g, line, count, limit, size);
    }
  }

  /** One loop iteration adds exactly the new line to the text held in the state. */
  lemma StepKeepsText(g: Grouping, line: string, count: string -> nat, limit: int, size: int)
    ensures Flatten(Step(g, line, count, limit, size).done) + Step(g, line, count, limit, size).cur
            == Flatten(g.done) + g.cur + [line]
  {
    var t := count(line);
    var g2;
    if g.curTokens + t > limit {
      g2 := Grouping(g.done + [g.cur], [line], t);
      FlattenAppend(g.done, [g.cur]);
      assert Flatten([g.cur]) == g.cur;
      assert [] + [line] == [line];
    } else {
      g2 := Grouping(g.done, g.cur + [line], g.curTokens + t);
    }
    assert Flatten(g2.done) + g2.cur == Flatten(g.done) + g.cur + [line];
    if g2.curTokens > size {
      FlattenAppend(g2.done, [g2.cur]);
      assert Flatten([g2.cur]) == g2.cur;
    }
  }

  /** The final flush leaves a non-empty last group and the grouping guarantees. */
  lemma FinishOk(g: Grouping, count: string -> nat, limit: int, size: int)
    requires Wf(g, count, limit, size)
    ensures GroupsOk(Finish(g), count, limit, size)
  {
  }

  /** The final flush keeps the text held in the state. */
  lemma FinishKeepsText(g: Grouping)
    ensures Flatten(Finish(g)) == Flatten(g.done) + g.cur
  {
    if |g.cur| > 0 {
      FlattenAppend(g.done, [g.cur]);
      assert Flatten([g.cur]) == g.cur;
    }
  }

  /** The rest of the loop from state `g`, then the final flush. */
  function GroupFrom(lines: seq<string>, count: string -> nat, limit: int, size: int, g: Grouping): seq<seq<string>>
    decreases |lines|
  {
    if |lines| == 0 then Finish(g)
    else GroupFrom(lines[1..], count, limit, size, Step(g, lines[0], count, limit, size))
  }

  /** The groups hold the text of the state followed by the remaining lines. */
  lemma {:induction false} GroupFromKeepsText(lines: seq<string>, count: string -> nat, limit: int, size: int, g: Grouping)
    ensures Flatten(GroupFrom(lines, count, limit, size, g)) == Flatten(g.done) + g.cur + lines
    decreases |lines|
  {
    if |lines| == 0 {
      FinishKeepsText(g);
    } else {
      var g' := Step(g, lines[0], count, limit, size);
      StepKeepsText(g, lines[0], count, limit, size);
      GroupFromKeepsText(lines[1..], count, limit, size, g');
      assert [lines[0]] + lines[1..] == lines;
    }
  }

  /** From a state meeting the loop invariant, the groups meet the grouping guarantees. */
  lemma {:induction false} GroupFromOk(lines: seq<string>, count: string -> nat, limit: int, size: int, g: Grouping)
    requires Wf(g, count, limit, size)
    ensures GroupsOk(GroupFrom(lines, count, limit, size, g), count, limit, size)
    decreases |lines|
  {
    if |lines| == 0 {
      FinishOk(g, count, limit, size);
    } else {
      StepKeepsWf(g, lines[0], count, limit, size);
      GroupFromOk(lines[1..], count, limit, size, Step(g, lines[0], count, limit, size));
    }
  }

  /** The line-grouping loop of `chunk_text_by_lines`: a group is closed before a line
      that would take it past `limit` (even when the group is still empty) and as soon
      as its total passes `size`. */
  function GroupLines(lines: seq<string>, count: string -> nat, limit: int, size: int): seq<seq<string>>
  {
    GroupFrom(lines, count, limit, size, Grouping([], [], 0))
  }

  /** Lines are neither dropped nor reordered. */
  lemma GroupLinesKeepText(lines: seq<string>, count: string -> nat, limit: int, size: int)
    ensures Flatten(GroupLines(lines, count, limit, size)) == lines
  {
    var start := Grouping([], [], 0);
    GroupFromKeepsText(lines, count, limit, size, start);
    assert Flatten(start.done) + start.cur + lines == lines;
  }

  /** The groups meet the grouping guarantees. */
  lemma GroupLinesOk(lines: seq<string>, count: string -> nat, limit: int, size: int)
    ensures GroupsOk(GroupLines(lines, count, limit, size), count, limit, size)
  {
    var start := Grouping([], [], 0);
    assert Wf(start, count, limit, size);
    GroupFromOk(lines, count, limit, size, start);
  }

  /** Two consecutive groups `a`, `b`: an empty `a` comes right before a line over the
      hard limit; an empty `b` follows a group past the soft target; a non-empty `a`
      right before a line over the hard limit stayed within the soft target. */
  predicate Adjacent(a: seq<string>, b: seq<string>, count: string -> nat, limit: int, size: int) {
    && (|a| == 0 ==> |b| > 0 && count(b[0]) > limit)
    && (|b| == 0 ==> Tokens(a, count) > size)
    && (|a| > 0 && |b| > 0 && count(b[0]) > limit ==> Tokens(a, count) <= size)
  }

  predicate AllAdjacent(groups: seq<seq<string>>, count: string -> nat, limit: int, size: int) {
    forall j :: 0 <= j < |groups| - 1 ==> Adjacent(groups[j], groups[j + 1], count, limit, size)
  }

  /** Where the empty groups are: only right before a group opened by a line over the
      hard limit, and only first or after a group past the soft target. A group past
      the soft target is therefore followed by an empty group whenever the next line
      is over the hard limit. */
  predicate EmptyGroupsOk(groups: seq<seq<string>>, count: string -> nat, limit: int, size: int) {
    AllAdjacent(groups, count, limit, size) && (|groups| > 0 ==> |groups[|groups| - 1]| > 0)
  }

  /** `EmptyGroupsOk` of the loop state, with the open group standing for the next one. */
  predicate EmptyWf(g: Grouping, count: string -> nat, limit: int, size: int) {
    AllAdjacent(g.done, count, limit, size)
    && (|g.done| > 0 ==> Adjacent(g.done[|g.done| - 1], g.cur, count, limit, size))
  }

  lemma AllAdjacentAppend(groups: seq<seq<string>>, b: seq<string>, count: string -> nat, limit: int, size: int)
    requires AllAdjacent(groups, count, limit, size)
    requires |groups| > 0 ==> Adjacent(groups[|groups| - 1], b, count, limit, size)
    ensures AllAdjacent(groups + [b], count, limit, size)
  {
    var r := groups + [b];
    forall j | 0 <= j < |r| - 1 ensures Adjacent(r[j], r[j + 1], count, limit, size) {
      assert r[j] == groups[j];
      if j + 1 < |groups| {
        assert r[j + 1] == groups[j + 1];
      }
    }
  }

  /** The hard-limit flush emits the open group, empty or not, and the line opens the
      next one. */
  lemma LimitFlushKeepsEmptyWf(g: Grouping, line: string, count: string -> nat, limit: int, size: int)
    requires g.curTokens == Tokens(g.cur, count) && (|g.cur| > 0 ==> g.curTokens <= size)
    requires EmptyWf(g, count, limit, size)
    requires g.curTokens + count(line) > limit
    ensures EmptyWf(Grouping(g.done + [g.cur], [line], count(line)), count, limit, size)
  {
    AllAdjacentAppend(g.done, g.cur, count, limit, size);
    assert Adjacent(g.cur, [line], count, limit, size);
  }

  /** A line under the hard limit is not over it, so it keeps the open group's start. */
  lemma AddKeepsEmptyWf(g: Grouping, line: string, count: string -> nat, limit: int, size: int)
    requires g.curTokens == Tokens(g.cur, count)
    requires EmptyWf(g, count, limit, size)
    requires g.curTokens + count(line) <= limit
    ensures EmptyWf(Grouping(g.done, g.cur + [line], g.curTokens + count(line)), count, limit, size)
  {
    var cur := g.cur + [line];
    assert |g.cur| > 0 ==> cur[0] == g.cur[0];
    assert |g.done| > 0 ==> Adjacent(g.done[|g.done| - 1], cur, count, limit, size);
  }

  /** The soft-target flush emits a group past the soft target. */
  lemma SizeFlushKeepsEmptyWf(g: Grouping, count: string -> nat, limit: int, size: int)
    requires EmptyWf(g, count, limit, size)
    requires |g.cur| > 0 && Tokens(g.cur, count) > size
    ensures EmptyWf(Grouping(g.done + [g.cur], [], 0), count, limit, size)
  {
    AllAdjacentAppend(g.done, g.cur, count, limit, size);
  }

  /** An iteration whose line would pass the hard limit keeps the empty groups where
      they may be. */
  lemma StepOverLimitKeepsEmptyWf(g: Grouping, line: string, count: string -> nat, limit: int, size: int)
    requires g.curTokens == Tokens(g.cur, count) && (|g.cur| > 0 ==> g.curTokens <= size)
    requires EmptyWf(g, count, limit, size)
    requires g.curTokens + count(line) > limit
    ensures EmptyWf(Step(g, line, count, limit, size), count, limit, size)
  {
    var g2 := Grouping(g.done + [g.cur], [line], count(line));
    assert Step(g, line, count, limit, size) == if g2.curTokens > size then Grouping(g2.done + [g2.cur], [], 0) else g2 by {
      assert [] + [line] == [line];
    }
    LimitFlushKeepsEmptyWf(g, line, count, limit, size);
    if g2.curTokens > size {
      assert Tokens([line], count) == count(line) by {
        assert [line][..0] == [];
      }
      SizeFlushKeepsEmptyWf(g2, count, limit, size);
    }
  }

  /** An iteration whose line fits under the hard limit keeps the empty groups where
      they may be. */
  lemma StepUnderLimitKeepsEmptyWf(g: Grouping, line: string, count: string -> nat, limit: int, size: int)
    requires g.curTokens == Tokens(g.cur, count)
    requires EmptyWf(g, count, limit, size)
    requires g.curTokens + count(line) <= limit
    ensures EmptyWf(Step(g, line, count, limit, size), count, limit, size)
  {
    var g2 := Grouping(g.done, g.cur + [line], g.curTokens + count(line));
    assert Step(g, line, count, limit, size) == if g2.curTokens > size then Grouping(g2.done + [g2.cur], [], 0) else g2;
    AddKeepsEmptyWf(g, line, count, limit, size);
    if g2.curTokens > size {
      assert Tokens(g2.cur, count) == g2.curTokens by {
        assert g2.cur[..|g2.cur| - 1] == g.cur;
      }
      SizeFlushKeepsEmptyWf(g2, count, limit, size);
    }
  }

  /** One loop iteration keeps the empty groups where they may be. */
  lemma StepKeepsEmptyWf(g: Grouping, line: string, count: string -> nat, limit: int, size: int)
    requires g.curTokens == Tokens(g.cur, count) && (|g.cur| > 0 ==> g.curTokens <= size)
    requires EmptyWf(g, count, limit, size)
    ensures EmptyWf(Step(g, line, count, limit, size), count, limit, size)
  {
    if g.curTokens + count(line) > limit {
      StepOverLimitKeepsEmptyWf(g, line, count, limit, size);
    } else {
      StepUnderLimitKeepsEmptyWf(g, line, count, limit, size);
    }
  }

  /** The final flush: a trailing empty group would have an open group after it. */
  lemma FinishEmptyOk(g: Grouping, count: string -> nat, limit: int, size: int)
    requires EmptyWf(g, count, limit, size)
    requires |g.done| > 0 ==> |g.done[|g.done| - 1]| > 0 || |g.cur| > 0
    ensures EmptyGroupsOk(Finish(g), count, limit, size)
  {
    if |g.cur| > 0 {
      AllAdjacentAppend(g.done, g.cur, count, limit, size);
    }
  }

  /** From a state meeting both invariants, the empty groups are where they may be. */
  lemma {:induction false} GroupFromEmptyOk(lines: seq<string>, count: string -> nat, limit: int, size: int, g: Grouping)
    requires Wf(g, count, limit, size) && EmptyWf(g, count, limit, size)
    ensures EmptyGroupsOk(GroupFrom(lines, count, limit, size, g), count, limit, size)
    decreases |lines|
  {
    if |lines| == 0 {
      FinishEmptyOk(g, count, limit, size);
    } else {
      StepKeepsWf(g, lines[0], count, limit, size);
      StepKeepsEmptyWf(g, lines[0], count, limit, size);
      GroupFromEmptyOk(lines[1..], count, limit, size, Step(g, lines[0], count, limit, size));
    }
  }

  /** An empty chunk comes from the hard-limit flush alone: it stands right before an
      over-limit line, which it separates from a group past the soft target. */
  lemma GroupLinesEmptyOk(lines: seq<string>, count: string -> nat, limit: int, size: int)
    ensures EmptyGroupsOk(GroupLines(lines, count, limit, size), count, limit, size)
  {
    var start := Grouping([], [], 0);
    assert Wf(start, count, limit, size) && EmptyWf(start, count, limit, size);
    GroupFromEmptyOk(lines, count, limit, size, start);
  }

  lemma FlattenNonEmpty<T>(parts: seq<seq<T>>)
    requires |Flatten(parts)| > 0
    ensures |parts| > 0
  {
  }

  /** A line over the hard limit can only open a group, and never the first one: the
      limit flush before it emits the group it interrupts, even an empty one. */
  lemma OversizedLineOpensGroup(lines: seq<string>, count: string -> nat, limit: int, size: int, j: nat, m: nat)
    requires var groups := GroupLines(lines, count, limit, size);
             j < |groups| && m < |groups[j]| && count(groups[j][m]) > limit
    ensures m == 0 && j > 0
  {
    GroupLinesOk(lines, count, limit, size);
    var g := GroupLines(lines, count, limit, size)[j];
    if m > 0 {
      TokensAtLeastLine(g, count, m);
    }
  }

  /** When the first line alone exceeds the hard limit, the first chunk is empty. */
  lemma OversizedFirstLineGivesEmptyChunk(lines: seq<string>, count: string -> nat, limit: int, size: int)
    requires |lines| > 0 && count(lines[0]) > limit
    ensures var groups := GroupLines(lines, count, limit, size);
            |groups| >= 2 && groups[0] == []
  {
    var groups := GroupLines(lines, count, limit, size);
    GroupLinesKeepText(lines, count, limit, size);
    var j: nat := 0;
    while j < |groups| && |groups[j]| == 0
      invariant j <= |groups|
      invariant forall i :: 0 <= i < j ==> |groups[i]| == 0
      invariant Flatten(groups[j..]) == lines
      decreases |groups| - j
    {
      assert groups[j..] == [groups[j]] + groups[j + 1..];
      j := j + 1;
    }
    FlattenNonEmpty(groups[j..]);
    assert groups[j..] == [groups[j]] + groups[j + 1..];
    assert groups[j][0] == lines[0];
    OversizedLineOpensGroup(lines, count, limit, size, j, 0);
  }

  /** What `chunk_text_by_lines` returns: the stripped chunks and the chunk size; the
      line groups behind the chunks are kept alongside for stating properties. */
  datatype Chunked = Chunked(chunks: seq<string>, size: nat, groups: seq<seq<string>>)

  /** `chunk_text_by_lines(text, token_limit)`. */
  function ChunkTextByLines(text: string, count: string -> nat, limit: nat): (r: Result<Chunked>)
    ensures r.Err? <==> count(text) == 0 || limit == 0
    ensures r.Err? ==> r.error == ZeroDivision
    ensures r.Ok? ==> 1 <= r.value.size <= limit
    ensures r.Ok? ==> Flatten(Flatten(r.value.groups)) == text
    ensures r.Ok? ==> |r.value.chunks| == |r.value.groups|
    ensures r.Ok? ==> forall i :: 0 <= i < |r.value.chunks| ==> r.value.chunks[i] == Strip(Flatten(r.value.groups[i]))
    ensures r.Ok? ==> GroupsOk(r.value.groups, count, limit, r.value.size)
    ensures r.Ok? ==> EmptyGroupsOk(r.value.groups, count, limit, r.value.size)
  {
    var size :- ChunkSize(count(text), limit);
    var groups := GroupLines(SplitLines(text), count, limit, size);
    GroupLinesKeepText(SplitLines(text), count, limit, size);
    GroupLinesOk(SplitLines(text), count, limit, size);
    GroupLinesEmptyOk(SplitLines(text), count, limit, size);
    Ok(Chunked(seq(|groups|, i requires 0 <= i < |groups| => Strip(Flatten(groups[i]))), size, groups))
  }

  // ---------------------------------------------------------------------------
  // clean_text

  /** The six substitutions of `clean_text`, in the order they run. */
  datatype Pattern =
    | DashBreak   // -<br\s*/?>   deleted
    | Break       // <br\s*/?>    replaced by "; "
    | SpaceRun    // " +"         replaced by one space
    | DotRun      // \.+          replaced by one dot
    | Tilde       // ~            deleted
    | NoteRef     // "Note " before a digit and ')'   replaced by " *Note "

  predicate IsDigit(c: char) {
    '0' <= c <= '9'
  }

  // Length of a `<br\s*/?>` tag at the start of `s`, or 0 if none starts there.
  function BreakTagLength(s: string): (k: nat)
    ensures k <= |s|
    ensures k > 0 ==> k >= 4 && s[..3] == "<br" && s[0] == '<' && s[k - 1] == '>'
  {
    if |s| >= 3 && s[..3] == "<br" then
      var w := LeadingWhitespace(s[3..]);
      var j := 3 + w;
      if j < |s| && s[j] == '>' then j + 1
      else if j + 1 < |s| && s[j] == '/' && s[j + 1] == '>' then j + 2
      else 0
    else 0
  }

  function RunLength(s: string, c: char): (n: nat)
    ensures n <= |s|
    ensures forall j :: 0 <= j < n ==> s[j] == c
    ensures n < |s| ==> s[n] != c
  {
    if |s| == 0 || s[0] != c then 0 else 1 + RunLength(s[1..], c)
  }

  /** Length of the match of `p` at the start of `s`, or 0 if none starts there. */
  function MatchLength(p: Pattern, s: string): (k: nat)
    ensures k <= |s|
  {
    match p
    case DashBreak => if |s| > 0 && s[0] == '-' && BreakTagLength(s[1..]) > 0 then 1 + BreakTagLength(s[1..]) else 0
    case Break => BreakTagLength(s)
    case SpaceRun => RunLength(s, ' ')
    case DotRun => RunLength(s, '.')
    case Tilde => if |s| > 0 && s[0] == '~' then 1 else 0
    case NoteRef => if |s| >= 7 && s[..5] == "Note " && IsDigit(s[5]) && s[6] == ')' then 5 else 0
  }

  function Replacement(p: Pattern): string {
    match p
    case DashBreak => ""
    case Break => "; "
    case SpaceRun => " "
    case DotRun => "."
    case Tilde => ""
    case NoteRef => " *Note "
  }

  /** `re.sub(pattern, replacement, s)` for a pattern that never matches the empty
      string: scan left to right, replace each match, resume after it. */
  function Sub(p: Pattern, s: string): string
    decreases |s|
  {
    if |s| == 0 then ""
    else
      var k := MatchLength(p, s);
      if k > 0 then Replacement(p) + Sub(p, s[k..]) else [s[0]] + Sub(p, s[1..])
  }

  /** Text in which the pattern never matches is returned unchanged. */
  lemma {:induction false} SubWithoutMatch(p: Pattern, s: string)
    requires forall i :: 0 <= i < |s| ==> MatchLength(p, s[i..]) == 0
    ensures Sub(p, s) == s
    decreases |s|
  {
    if |s| > 0 {
      assert s[0..] == s;
      forall i | 0 <= i < |s[1..]|
        ensures MatchLength(p, s[1..][i..]) == 0
      {
        assert s[1..][i..] == s[i + 1..];
      }
      SubWithoutMatch(p, s[1..]);
    }
  }

  /** `clean_text`: the six substitutions in order; the `-<br>` variants go before the
      remaining `<br>` variants become "; ". */
  function CleanText(t: string): string
  {
    var noDashBreaks := Sub(DashBreak, t);
    var noBreaks := Sub(Break, noDashBreaks);
    Sub(NoteRef, Sub(Tilde, Sub(DotRun, Sub(SpaceRun, noBreaks))))
  }

  /** A substitution whose replacement lacks a character never introduces it. */
  lemma {:induction false} SubKeepsAbsentChar(p: Pattern, s: string, c: char)
    requires c !in s && c !in Replacement(p)
    ensures c !in Sub(p, s)
    decreases |s|
  {
    if |s| > 0 {
      var k := MatchLength(p, s);
      if k > 0 {
        assert forall x :: x in s[k..] ==> x in s;
        SubKeepsAbsentChar(p, s[k..], c);
      } else {
        assert forall x :: x in s[1..] ==> x in s;
        SubKeepsAbsentChar(p, s[1..], c);
      }
    }
  }

  /** Deleting every '~' leaves none behind. */
  lemma {:induction false} SubTildeRemovesTildes(s: string)
    ensures '~' !in Sub(Tilde, s)
    decreases |s|
  {
    if |s| > 0 {
      SubTildeRemovesTildes(s[1..]);
    }
  }

  /** Cleaned text holds no '~': the only later step inserts " *Note ". */
  lemma CleanTextHasNoTilde(t: string)
    ensures '~' !in CleanText(t)
  {
    var noBreaks := Sub(Break, Sub(DashBreak, t));
    var s := Sub(Tilde, Sub(DotRun, Sub(SpaceRun, noBreaks)));
    SubTildeRemovesTildes(Sub(DotRun, Sub(SpaceRun, noBreaks)));
    SubKeepsAbsentChar(NoteRef, s, '~');
  }

  /** A hyphen directly before a `<br>` tag is deleted together with the tag. */
  lemma DashBreakDeleted(tag: string, rest: string)
    requires |tag| > 0 && BreakTagLength(tag + rest) == |tag|
    ensures Sub(DashBreak, "-" + tag + rest) == Sub(DashBreak, rest)
  {
    var s := "-" + tag + rest;
    assert s[1..] == tag + rest;
    assert s[1 + |tag|..] == rest;
  }

  /** A tag match depends only on the characters it covers. */
  lemma BreakTagLocal(x: string, y: string)
    requires BreakTagLength(x) > 0
    requires |y| >= BreakTagLength(x) && y[..BreakTagLength(x)] == x[..BreakTagLength(x)]
    ensures BreakTagLength(y) == BreakTagLength(x)
  {
    var k := BreakTagLength(x);
    assert y[..3] == x[..3];
    var wx := LeadingWhitespace(x[3..]);
    assert 3 + wx < k;
    forall j | 0 <= j < wx ensures IsWhitespace(y[3..][..wx][j]) {
      assert y[3 + j] == x[3 + j];
      assert x[3..][..wx][j] == x[3 + j];
    }
    assert y[3 + wx] == x[3 + wx];
    LeadingWhitespaceUnique(y[3..], wx);
    if x[3 + wx] == '/' {
      assert y[3 + wx + 1] == x[3 + wx + 1];
    }
  }

  /** A tag never contains ';'. */
  lemma BreakTagHasNoSemicolon(x: string, i: nat)
    requires i < BreakTagLength(x)
    ensures x[i] != ';'
  {
    var w := LeadingWhitespace(x[3..]);
    if 3 <= i < 3 + w {
      assert x[3..][..w][i - 3] == x[i];
    }
  }

  /** Before its first "; ", the output of the `<br>` step is a copy of its input. */
  lemma {:induction false} SubBreakPrefix(s: string, n: nat)
    requires n <= |Sub(Break, s)|
    requires forall i :: 0 <= i < n ==> Sub(Break, s)[i] != ';'
    ensures n <= |s| && Sub(Break, s)[..n] == s[..n]
    decreases |s|
  {
    if |s| > 0 && n > 0 {
      assert Sub(Break, s)[0] != ';';
      var k := MatchLength(Break, s);
      if k == 0 {
        var r := Sub(Break, s[1..]);
        assert Sub(Break, s) == [s[0]] + r;
        forall i | 0 <= i < n - 1 ensures r[i] != ';' {
          assert r[i] == Sub(Break, s)[i + 1];
        }
        SubBreakPrefix(s[1..], n - 1);
        assert Sub(Break, s)[..n] == [s[0]] + r[..n - 1];
        assert s[..n] == [s[0]] + s[1..][..n - 1];
      }
    }
  }

  /** No `<br>` tag of any variant starts anywhere in `r`. */
  predicate NoBreakTag(r: string) {
    forall i :: 0 <= i < |r| ==> BreakTagLength(r[i..]) == 0
  }

  lemma NoBreakTagAfterReplacement(r': string)
    requires NoBreakTag(r')
    ensures NoBreakTag("; " + r')
  {
    var r := "; " + r';
    forall i | 0 <= i < |r| ensures BreakTagLength(r[i..]) == 0 {
      if i >= 2 {
        assert r[i..] == r'[i - 2..];
      } else {
        assert r[i] == "; "[i];
        assert r[i..][0] == r[i] != '<';
      }
    }
  }

  lemma NoBreakTagAfterKept(s: string)
    requires |s| > 0 && MatchLength(Break, s) == 0
    requires NoBreakTag(Sub(Break, s[1..]))
    ensures NoBreakTag([s[0]] + Sub(Break, s[1..]))
  {
    var r' := Sub(Break, s[1..]);
    var r := [s[0]] + r';
    forall i | 0 <= i < |r| ensures BreakTagLength(r[i..]) == 0 {
      if i >= 1 {
        assert r[i..] == r'[i - 1..];
      } else {
        assert r[i..] == r;
        NoBreakTagAtKept(s);
      }
    }
  }

  /** No tag starts at a kept character that did not start a tag in the input. */
  lemma NoBreakTagAtKept(s: string)
    requires |s| > 0 && BreakTagLength(s) == 0
    ensures BreakTagLength([s[0]] + Sub(Break, s[1..])) == 0
  {
    var r' := Sub(Break, s[1..]);
    var r := [s[0]] + r';
    if BreakTagLength(r) > 0 {
      var n := BreakTagLength(r);
      assert n <= |s| && r'[..n - 1] == s[1..][..n - 1] by {
        forall j | 0 <= j < n - 1 ensures r'[j] != ';' {
          BreakTagHasNoSemicolon(r, j + 1);
          assert r[j + 1] == r'[j];
        }
        SubBreakPrefix(s[1..], n - 1);
      }
      KeptCharOpensNoTag(s, r');
    }
  }

  /** A character that starts no tag in `s` starts none when followed by text that
      agrees with the rest of `s` as far as the tag would reach. */
  lemma KeptCharOpensNoTag(s: string, rest: string)
    requires |s| > 0 && BreakTagLength(s) == 0
    requires var n := BreakTagLength([s[0]] + rest);
             n > 0 ==> n <= |s| && rest[..n - 1] == s[1..][..n - 1]
    ensures BreakTagLength([s[0]] + rest) == 0
  {
    var r := [s[0]] + rest;
    var n := BreakTagLength(r);
    if n > 0 {
      assert r[..n] == [s[0]] + rest[..n - 1];
      assert s[..n] == [s[0]] + s[1..][..n - 1];
      BreakTagLocal(r, s);
      assert false;
    }
  }


  /** After the `<br>` step no `<br>` tag of any variant is left. */
  lemma {:induction false} NoBreakTagAfterBreakStep(s: string)
    ensures NoBreakTag(Sub(Break, s))
    decreases |s|
  {
    if |s| > 0 {
      var k := MatchLength(Break, s);
      if k > 0 {
        NoBreakTagAfterBreakStep(s[k..]);
        NoBreakTagAfterReplacement(Sub(Break, s[k..]));
      } else {
        NoBreakTagAfterBreakStep(s[1..]);
        NoBreakTagAfterKept(s);
      }
    }
  }

  // ---------------------------------------------------------------------------
  // chunk_file

  /** A JSON value read from the ToC file. */
  datatype Value = Int(i: int) | Str(s: string) | Other

  type Row = seq<Value>

  /** One row of `chunk_file`'s loop. A row of length 0 or 1 raises `IndexError` from
      the assertion message (`chunk[1]`), which the `except AssertionError` does not
      catch; other lengths than 4 are skipped; a row of length 4 becomes one row per
      chunk of its cleaned content, copying fields 0 to 2. */
  function ChunkRow(row: Row, count: string -> nat, limit: nat): (r: Result<seq<Row>>)
    ensures |row| <= 1 <==> r == Err(IndexOutOfRange)
    ensures (|row| == 2 || |row| == 3 || |row| >= 5) ==> r == Ok([])
    ensures |row| == 4 && !row[3].Str? ==> r == Err(NotAString)
    ensures |row| == 4 && row[3].Str? ==> (r.Err? <==> limit == 0 || count(CleanText(row[3].s)) == 0)
    ensures r.Ok? ==> forall k :: 0 <= k < |r.value| ==>
              |r.value[k]| == 4 && r.value[k][..3] == row[..3] && r.value[k][3].Str?
  {
    if |row| <= 1 then Err(IndexOutOfRange)
    else if |row| != 4 then Ok([])
    else
      match row[3]
      case Str(t) =>
        var c :- ChunkTextByLines(CleanText(t), count, limit);
        Ok(Expand(row[..3], c.chunks))
      case _ => Err(NotAString)
  }

  /** The expansion of a row of length 4 carries its chunks, one per row, in order. */
  lemma ChunkRowCarriesChunks(row: Row, count: string -> nat, limit: nat)
    requires |row| == 4 && row[3].Str? && ChunkRow(row, count, limit).Ok?
    ensures var rs := ChunkRow(row, count, limit).value;
            var c := ChunkTextByLines(CleanText(row[3].s), count, limit).value;
            |rs| == |c.chunks| && forall k :: 0 <= k < |rs| ==> rs[k][3] == Str(c.chunks[k])
  {
  }

  /** One row per chunk: the copied fields followed by the chunk text. */
  function Expand(fields: Row, chunks: seq<string>): (rows: seq<Row>)
    ensures |rows| == |chunks|
    ensures forall k :: 0 <= k < |rows| ==> rows[k] == fields + [Str(chunks[k])]
  {
    seq(|chunks|, k requires 0 <= k < |chunks| => fields + [Str(chunks[k])])
  }

  /** Output row `o` copies its first three fields from a row of length 4 of `rows`. */
  predicate CopiedFrom(o: Row, rows: seq<Row>) {
    |o| == 4 && o[3].Str? && exists i :: 0 <= i < |rows| && |rows[i]| == 4 && o[..3] == rows[i][..3]
  }

  lemma CopiedFromTail(o: Row, rows: seq<Row>)
    requires |rows| > 0 && CopiedFrom(o, rows[1..])
    ensures CopiedFrom(o, rows)
  {
    var i :| 0 <= i < |rows[1..]| && |rows[1..][i]| == 4 && o[..3] == rows[1..][i][..3];
    assert rows[i + 1] == rows[1..][i];
  }

  /** `chunk_file` on the rows of the ToC file: the first failing row aborts the run;
      otherwise the rows' expansions in order. */
  function ChunkFile(rows: seq<Row>, count: string -> nat, limit: nat): Result<seq<Row>>
    decreases |rows|
  {
    if |rows| == 0 then Ok([])
    else
      var first :- ChunkRow(rows[0], count, limit);
      var rest :- ChunkFile(rows[1..], count, limit);
      Ok(first + rest)
  }

  /** The run succeeds exactly when every row does; otherwise it fails with the error
      of the first failing row. */
  lemma {:induction false} ChunkFileOutcome(rows: seq<Row>, count: string -> nat, limit: nat)
    ensures ChunkFile(rows, count, limit).Ok? <==> forall i :: 0 <= i < |rows| ==> ChunkRow(rows[i], count, limit).Ok?
    ensures ChunkFile(rows, count, limit).Err? ==>
              exists i :: 0 <= i < |rows| && ChunkRow(rows[i], count, limit).Err?
                && ChunkFile(rows, count, limit).error == ChunkRow(rows[i], count, limit).error
                && forall j :: 0 <= j < i ==> ChunkRow(rows[j], count, limit).Ok?
    decreases |rows|
  {
    if |rows| > 0 {
      ChunkFileOutcome(rows[1..], count, limit);
      assert forall i :: 1 <= i < |rows| ==> rows[i] == rows[1..][i - 1];
      if ChunkRow(rows[0], count, limit).Ok? && ChunkFile(rows[1..], count, limit).Err? {
        var i :| 0 <= i < |rows[1..]| && ChunkRow(rows[1..][i], count, limit).Err?
                 && ChunkFile(rows[1..], count, limit).error == ChunkRow(rows[1..][i], count, limit).error
                 && forall j :: 0 <= j < i ==> ChunkRow(rows[1..][j], count, limit).Ok?;
        assert rows[i + 1] == rows[1..][i];
        assert forall j :: 0 <= j < i + 1 ==> ChunkRow(rows[j], count, limit).Ok? by {
          forall j | 0 <= j < i + 1 ensures ChunkRow(rows[j], count, limit).Ok? {
            if j > 0 {
              assert rows[j] == rows[1..][j - 1];
            }
          }
        }
      }
    }
  }

  /** A row with fewer than two fields makes the whole run fail. */
  lemma ShortRowFailsFile(rows: seq<Row>, count: string -> nat, limit: nat, i: nat)
    requires i < |rows| && |rows[i]| <= 1
    ensures ChunkFile(rows, count, limit).Err?
  {
    ChunkFileOutcome(rows, count, limit);
  }

  /** Every output row copies the first three fields of a row of length 4 and carries a
      string chunk. */
  lemma {:induction false} ChunkFileCopies(rows: seq<Row>, count: string -> nat, limit: nat)
    requires ChunkFile(rows, count, limit).Ok?
    ensures forall o :: o in ChunkFile(rows, count, limit).value ==> CopiedFrom(o, rows)
    decreases |rows|
  {
    if |rows| > 0 {
      var first := ChunkRow(rows[0], count, limit).value;
      ChunkFileCopies(rows[1..], count, limit);
      var rest := ChunkFile(rows[1..], count, limit).value;
      forall o | o in first + rest ensures CopiedFrom(o, rows) {
        if o in first {
          CopiedFromHead(rows, count, limit, o);
        } else {
          CopiedFromTail(o, rows);
        }
      }
    }
  }

  lemma CopiedFromHead(rows: seq<Row>, count: string -> nat, limit: nat, o: Row)
    requires |rows| > 0 && ChunkRow(rows[0], count, limit).Ok?
    requires o in ChunkRow(rows[0], count, limit).value
    ensures CopiedFrom(o, rows)
  {
    var k :| 0 <= k < |ChunkRow(rows[0], count, limit).value| && ChunkRow(rows[0], count, limit).value[k] == o;
    assert |rows[0]| == 4 && o[..3] == rows[0][..3];
  }
}
