/** `ContextGenerator.generate_context` of src/code/context_generation.py: for every
    chunk row whose content is long enough compared with its title, ask the language
    model for a context built from the row and its neighbours, never reaching back
    before the current main chapter. The prompt template and the model are the
    parameter `ask(chunk, neighbors)`. */
module ContextGeneration {
  import opened Base
  import opened Text
  import opened Records

  /** A row whose content is shorter than three times its title gets no context. */
  predicate Skipped(row: Chunk) {
    3 * |row.title| > |row.content|
  }

  function Max(a: int, b: int): int { if a >= b then a else b }
  function Min(a: int, b: int): int { if a <= b then a else b }

  /** First row of the neighbourhood of row `i`: `window` rows back, but not before
      the latest main chapter. */
  function WindowStart(rows: seq<Chunk>, i: nat, window: nat): nat
    requires i < |rows|
  {
    Max(RootIndex(rows, i), i - window)
  }

  /** One past the last row of the neighbourhood of row `i`. */
  function WindowEnd(rows: seq<Chunk>, i: nat, window: nat): nat
  {
    Min(i + window + 1, |rows|)
  }

  /** The neighbourhood holds row `i`, at most `window` rows on each side, and no
      main-chapter heading before row `i` other than possibly its first row. */
  lemma WindowBounds(rows: seq<Chunk>, i: nat, window: nat)
    requires i < |rows|
    ensures WindowStart(rows, i, window) <= i < WindowEnd(rows, i, window) <= |rows|
    ensures i - WindowStart(rows, i, window) <= window && WindowEnd(rows, i, window) - i <= window + 1
    ensures forall j :: WindowStart(rows, i, window) < j <= i ==> rows[j].level != 1
  {
    RootIndexIsLatest(rows, i);
  }

  /** The neighbourhood never reaches back past a main-chapter heading at or before
      the row, whether or not that heading row was itself skipped. */
  lemma WindowStaysInChapter(rows: seq<Chunk>, i: nat, window: nat, j: nat)
    requires j <= i < |rows| && rows[j].level == 1
    ensures j <= WindowStart(rows, i, window)
  {
    RootIndexIsLatest(rows, i);
  }

  /** The contents of `rows`, in order. */
  function Contents(rows: seq<Chunk>): (cs: seq<string>)
    ensures |cs| == |rows|
    ensures forall k :: 0 <= k < |rows| ==> cs[k] == rows[k].content
  {
    seq(|rows|, k requires 0 <= k < |rows| => rows[k].content)
  }

  /** `'\n'.join` of the neighbourhood's contents. */
  function Neighbors(rows: seq<Chunk>, i: nat, window: nat): string
    requires i < |rows|
  {
    WindowBounds(rows, i, window);
    Join(Contents(rows[WindowStart(rows, i, window)..WindowEnd(rows, i, window)]), "\n")
  }

  /** A part of a join occurs in it. */
  lemma {:induction false} JoinContainsPart(parts: seq<string>, sep: string, k: nat)
    requires k < |parts|
    ensures IsSubstring(parts[k], Join(parts, sep))
    decreases |parts|
  {
    var s := Join(parts, sep);
    if |parts| == 1 {
      assert OccursAt(parts[0], s, 0);
    } else if k == 0 {
      assert s[..|parts[0]|] == parts[0];
      assert OccursAt(parts[0], s, 0);
    } else {
      var rest := Join(parts[1..], sep);
      JoinContainsPart(parts[1..], sep, k - 1);
      var i :| 0 <= i <= |rest| - |parts[k]| && OccursAt(parts[k], rest, i);
      var off := |parts[0]| + |sep|;
      assert s == parts[0] + sep + rest;
      assert s[off + i..off + i + |parts[k]|] == rest[i..i + |parts[k]|];
      assert OccursAt(parts[k], s, off + i);
    }
  }

  /** The neighbourhood text contains the row's own content. */
  lemma NeighborsContainRow(rows: seq<Chunk>, i: nat, window: nat)
    requires i < |rows|
    ensures IsSubstring(rows[i].content, Neighbors(rows, i, window))
  {
    WindowBounds(rows, i, window);
    var a := WindowStart(rows, i, window);
    var b := WindowEnd(rows, i, window);
    assert Contents(rows[a..b])[i - a] == rows[i].content;
    JoinContainsPart(Contents(rows[a..b]), "\n", i - a);
  }

  /** The model's answer for row `i` and its neighbourhood. */
  function AnswerAt(rows: seq<Chunk>, window: nat, ask: (string, string) -> string, i: nat): string
  {
    if i < |rows| then ask(rows[i].content, Neighbors(rows, i, window)) else ""
  }

  /** The contexts held after the first `n` rows: row `i`, when not skipped, maps to
      `answer(i)`. */
  function Contexts(rows: seq<Chunk>, answer: nat -> string, n: nat): map<nat, string>
    requires n <= |rows|
  {
    if n == 0 then map[]
    else
      var c := Contexts(rows, answer, n - 1);
      if Skipped(rows[n - 1]) then c else c[n - 1 := answer(n - 1)]
  }

  /** The rows among the first `n` the model is asked about, in order. */
  function Asked(rows: seq<Chunk>, n: nat): seq<nat>
    requires n <= |rows|
  {
    if n == 0 then [] else Asked(rows, n - 1) + (if Skipped(rows[n - 1]) then [] else [n - 1])
  }

  /** After `n` rows the contexts are keyed by exactly the rows not skipped so far. */
  lemma {:induction false} ContextsKeys(rows: seq<Chunk>, answer: nat -> string, n: nat)
    requires n <= |rows|
    ensures forall i :: i in Contexts(rows, answer, n) ==> i < n
    ensures forall i :: 0 <= i < n ==> (i in Contexts(rows, answer, n) <==> !Skipped(rows[i]))
    decreases n
  {
    if n > 0 {
      ContextsKeys(rows, answer, n - 1);
    }
  }

  /** Each context is the answer for its row. */
  lemma {:induction false} ContextsValues(rows: seq<Chunk>, answer: nat -> string, n: nat)
    requires n <= |rows|
    ensures forall i :: i in Contexts(rows, answer, n) ==> Contexts(rows, answer, n)[i] == answer(i)
    decreases n
  {
    if n > 0 {
      ContextsValues(rows, answer, n - 1);
      ContextsKeys(rows, answer, n - 1);
    }
  }

  /** The model is asked about the rows that get a context, once each, in increasing order. */
  lemma {:induction false} AskedFacts(rows: seq<Chunk>, answer: nat -> string, n: nat)
    requires n <= |rows|
    ensures forall a, b :: 0 <= a < b < |Asked(rows, n)| ==> Asked(rows, n)[a] < Asked(rows, n)[b]
    ensures forall k :: 0 <= k < |Asked(rows, n)| ==> Asked(rows, n)[k] < n
    ensures forall i :: i in Asked(rows, n) <==> i in Contexts(rows, answer, n)
    decreases n
  {
    if n > 0 {
      AskedFacts(rows, answer, n - 1);
      ContextsKeys(rows, answer, n - 1);
    }
  }

  /** The `paragraphs` of row `index`, given the latest main chapter `root`. */
  method Paragraphs(rows: seq<Chunk>, index: nat, window: nat, root: nat) returns (paragraphs: string)
    requires index < |rows| && root == RootIndex(rows, index)
    ensures paragraphs == Neighbors(rows, index, window)
  {
    WindowBounds(rows, index, window);
    var start := Max(root, index - window);
    var end := Min(index + window + 1, |rows|);
    paragraphs := Join(Contents(rows[start..end]), "\n");
  }

  /** The answers as a function of the row index. */
  function AnswerFn(rows: seq<Chunk>, window: nat, ask: (string, string) -> string): nat -> string
  {
    (i: nat) => AnswerAt(rows, window, ask, i)
  }

  /** One more row adds its answer unless it is skipped. */
  lemma ContextsStep(rows: seq<Chunk>, answer: nat -> string, n: nat)
    requires n < |rows|
    ensures Skipped(rows[n]) ==> Contexts(rows, answer, n + 1) == Contexts(rows, answer, n)
    ensures !Skipped(rows[n]) ==> Contexts(rows, answer, n + 1) == Contexts(rows, answer, n)[n := answer(n)]
    ensures Skipped(rows[n]) ==> Asked(rows, n + 1) == Asked(rows, n)
    ensures !Skipped(rows[n]) ==> Asked(rows, n + 1) == Asked(rows, n) + [n]
  {
  }

  /** The body of the loop of `generate_context` for row `index`, given the latest
      main chapter `root`. */
  method VisitRow(rows: seq<Chunk>, window: nat, ask: (string, string) -> string, index: nat, root: nat,
                  context: map<nat, string>, asked: seq<nat>)
    returns (context': map<nat, string>, asked': seq<nat>)
    requires index < |rows| && root == RootIndex(rows, index)
    requires context == Contexts(rows, AnswerFn(rows, window, ask), index)
    requires asked == Asked(rows, index)
    ensures context' == Contexts(rows, AnswerFn(rows, window, ask), index + 1)
    ensures asked' == Asked(rows, index + 1)
  {
    ContextsStep(rows, AnswerFn(rows, window, ask), index);
    var chunk := rows[index];
    context', asked' := context, asked;
    if !Skipped(chunk) {
      var paragraphs := Paragraphs(rows, index, window, root);
      assert AnswerFn(rows, window, ask)(index) == ask(chunk.content, paragraphs);
      context' := context[index := ask(chunk.content, paragraphs)];
      asked' := asked + [index];
    }
  }

  /** The loop of `generate_context`, row by row. */
  method ContextLoop(rows: seq<Chunk>, window: nat, ask: (string, string) -> string)
    returns (context: map<nat, string>, asked: seq<nat>)
    ensures context == Contexts(rows, AnswerFn(rows, window, ask), |rows|)
    ensures asked == Asked(rows, |rows|)
  {
    context := map[];
    asked := [];
    var root: nat := 0;
    var index: nat := 0;
    while index < |rows|
      invariant index <= |rows|
      invariant index > 0 ==> root == RootIndex(rows, index - 1)
      invariant index == 0 ==> root == 0
      invariant context == Contexts(rows, AnswerFn(rows, window, ask), index)
      invariant asked == Asked(rows, index)
    {
      if rows[index].level == 1 {
        root := index;
      }
      if index > 0 {
        LatestRootStep(rows, index);
      }
      context, asked := VisitRow(rows, window, ask, index, root, context, asked);
      index := index + 1;
    }
  }

  /** `generate_context`: keys are the indices of the rows that are not skipped, each
      mapped to the model's answer for that row and its neighbourhood. `asked` lists
      the model calls in order. */
  method GenerateContext(rows: seq<Chunk>, window: nat, ask: (string, string) -> string)
    returns (context: map<nat, string>, asked: seq<nat>)
    ensures forall i :: i in context ==> i < |rows|
    ensures forall i :: 0 <= i < |rows| ==> (i in context <==> !Skipped(rows[i]))
    ensures forall i :: i in context ==> context[i] == ask(rows[i].content, Neighbors(rows, i, window))
    ensures forall a, b :: 0 <= a < b < |asked| ==> asked[a] < asked[b]
    ensures forall i :: i in asked <==> i in context
  {
    context, asked := ContextLoop(rows, window, ask);
    ghost var answer := AnswerFn(rows, window, ask);
    assert forall i :: i in context ==> i < |rows| by {
      ContextsKeys(rows, answer, |rows|);
    }
    assert forall i :: 0 <= i < |rows| ==> (i in context <==> !Skipped(rows[i])) by {
      ContextsKeys(rows, answer, |rows|);
    }
    assert forall i :: i in context ==> context[i] == ask(rows[i].content, Neighbors(rows, i, window)) by {
      ContextsKeys(rows, answer, |rows|);
      ContextsValues(rows, answer, |rows|);
    }
    assert forall a, b :: 0 <= a < b < |asked| ==> asked[a] < asked[b] by {
      AskedFacts(rows, answer, |rows|);
    }
    assert forall i :: i in asked <==> i in context by {
      AskedFacts(rows, answer, |rows|);
    }
  }
}
