/** `PromptLoader.build_prompt` of src/code/prompts.py: the numbered context blocks
    built from the search results. The Jinja template rendering is the parameter
    `render(query, context)`. */
module Prompts {
  import opened Text
  import opened Records

  predicate IsDigitChar(c: char) {
    '0' <= c <= '9'
  }

  function DigitChar(d: nat): (c: char)
    requires d < 10
    ensures IsDigitChar(c)
  {
    "0123456789"[d]
  }

  /** `str(n)` for a non-negative integer. */
  function NatToString(n: nat): (s: string)
    ensures |s| > 0
    ensures forall k :: 0 <= k < |s| ==> IsDigitChar(s[k])
    ensures |s| > 1 ==> s[0] != '0'
  {
    if n < 10 then [DigitChar(n)] else NatToString(n / 10) + [DigitChar(n % 10)]
  }

  /** The value of a string of decimal digits. */
  function DecimalValue(s: string): nat
    requires forall k :: 0 <= k < |s| ==> IsDigitChar(s[k])
  {
    if |s| == 0 then 0 else 10 * DecimalValue(s[..|s| - 1]) + DigitOf(s[|s| - 1])
  }

  function DigitOf(c: char): nat
    requires IsDigitChar(c)
  {
    c as int - '0' as int
  }

  /** The index printed before each block reads back as that index. */
  lemma {:induction false} NatToStringValue(n: nat)
    ensures DecimalValue(NatToString(n)) == n
    decreases n
  {
    var s := NatToString(n);
    if n >= 10 {
      NatToStringValue(n / 10);
      assert s[..|s| - 1] == NatToString(n / 10);
    }
  }

  /** The block for the `index`-th result. */
  function Block(index: nat, p: Payload): string
  {
    NatToString(index) + ") Manual:\t" + p.manual + ",\nMain Chapter:\t" + p.mainChapter
      + "\nChapter:\t" + p.chapter + "\nContent: " + p.content + "\n\n"
  }

  /** The blocks of `results`, numbered from `first`. */
  function ContextFrom(results: seq<Point>, first: nat): string
    decreases |results|
  {
    if |results| == 0 then "" else Block(first, results[0].payload) + ContextFrom(results[1..], first + 1)
  }

  /** The `context` string `build_prompt` accumulates, block by block from index 0. */
  function Context(results: seq<Point>): string
  {
    ContextFrom(results, 0)
  }

  /** One more result appends one more block, numbered with its position. */
  lemma {:induction false} ContextFromAppend(results: seq<Point>, first: nat, x: Point)
    ensures ContextFrom(results + [x], first) == ContextFrom(results, first) + Block(first + |results|, x.payload)
    decreases |results|
  {
    if |results| == 0 {
      assert ContextFrom([x], first) == Block(first, x.payload) + ContextFrom([], first + 1);
    } else {
      assert (results + [x])[1..] == results[1..] + [x];
      ContextFromAppend(results[1..], first + 1, x);
    }
  }

  /** The blocks of `results`, numbered from `first`, one per result. */
  function Blocks(results: seq<Point>, first: nat): seq<string>
  {
    seq(|results|, i requires 0 <= i < |results| => Block(first + i, results[i].payload))
  }

  /** The context is the blocks laid end to end: result `i` gets block `i`. */
  lemma {:induction false} ContextIsBlocks(results: seq<Point>, first: nat)
    ensures ContextFrom(results, first) == Flatten(Blocks(results, first))
    decreases |results|
  {
    if |results| > 0 {
      ContextIsBlocks(results[1..], first + 1);
      assert Blocks(results, first)[1..] == Blocks(results[1..], first + 1);
    }
  }

  /** The loop of `build_prompt`: `context += block` for each result in turn. */
  method BuildContext(results: seq<Point>) returns (context: string)
    ensures context == Flatten(Blocks(results, 0))
    ensures context == Context(results)
  {
    context := "";
    var index := 0;
    while index < |results|
      invariant index <= |results|
      invariant context == Context(results[..index])
    {
      assert results[..index + 1] == results[..index] + [results[index]];
      ContextFromAppend(results[..index], 0, results[index]);
      context := context + Block(index, results[index].payload);
      index := index + 1;
    }
    assert results[..index] == results;
    ContextIsBlocks(results, 0);
  }

  /** `build_prompt(query, search_results)`. */
  function BuildPrompt(query: string, results: seq<Point>, render: (string, string) -> string): string
  {
    render(query, Context(results))
  }
}
