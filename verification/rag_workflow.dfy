/** The question-answering flow of src/code/rag_workflow.py: ask the language model
    for alternative phrasings of the question (retrying once if it returns the wrong
    number of lines), search with every phrasing and the question itself, keep each
    point only from the first query that returned it, and build the final prompt.
    The model's successive replies are the parameter `reply(k)` (the reply to the
    `k`-th call, from 0), the hybrid search is `search(query)`. */
module RagWorkflow {
  import opened Text
  import opened Records
  import Prompts

  /** The phrasings `refine_query` settles on: none when none are asked for, the first
      reply's lines when there are as many as asked for, the second reply's lines
      otherwise, whatever their number. */
  function Refined(reply: nat -> string, queryCount: int): seq<string>
  {
    if queryCount == 0 then []
    else if |SplitOn(reply(0), '\n')| == queryCount then SplitOn(reply(0), '\n')
    else SplitOn(reply(1), '\n')
  }

  /** `refine_query(query, client, query_count)`: `calls` counts the model calls. */
  method RefineQuery(reply: nat -> string, queryCount: int) returns (queries: seq<string>, calls: nat)
    ensures queries == Refined(reply, queryCount)
    ensures calls <= 2
    ensures calls == 0 <==> queryCount == 0
    ensures calls == 0 ==> queries == []
    ensures calls > 0 ==> queries == SplitOn(reply(calls - 1), '\n')
    ensures calls == 2 ==> |SplitOn(reply(0), '\n')| != queryCount
    ensures |queries| != queryCount ==> calls == 2
  {
    queries := [];
    calls := 0;
    var trials := 0;
    while |queries| != queryCount
      invariant trials == calls <= 2
      invariant calls == 0 ==> queries == []
      invariant calls > 0 ==> queries == SplitOn(reply(calls - 1), '\n')
      invariant calls == 2 ==> |SplitOn(reply(0), '\n')| != queryCount
      invariant queryCount == 0 ==> calls == 0
      decreases 3 - trials
    {
      trials := trials + 1;
      if trials >= 3 {
        break;
      }
      queries := SplitOn(reply(calls), '\n');
      calls := calls + 1;
    }
  }

  /** The ids of a list of points. */
  function Ids(ps: seq<Point>): set<nat>
  {
    set p | p in ps :: p.id
  }

  /** Ids returned by the searches before query `j`. */
  function SeenBefore(perQuery: seq<seq<Point>>, j: nat): set<nat>
    requires j <= |perQuery|
  {
    if j == 0 then {} else SeenBefore(perQuery, j - 1) + Ids(perQuery[j - 1])
  }

  /** The points of `ps` whose id is not in `seen`, in order. */
  function Fresh(ps: seq<Point>, seen: set<nat>): seq<Point>
  {
    if |ps| == 0 then []
    else if ps[0].id in seen then Fresh(ps[1..], seen)
    else [ps[0]] + Fresh(ps[1..], seen)
  }

  /** A point is kept exactly when it was returned and its id was not seen before. */
  lemma {:induction false} FreshMembers(ps: seq<Point>, seen: set<nat>)
    ensures forall p :: p in Fresh(ps, seen) <==> p in ps && p.id !in seen
    decreases |ps|
  {
    if |ps| > 0 {
      FreshMembers(ps[1..], seen);
      assert forall p :: p in ps <==> p == ps[0] || p in ps[1..];
    }
  }

  /** The kept points keep their rank order. */
  lemma {:induction false} FreshInOrder(ps: seq<Point>, seen: set<nat>)
    ensures IsSubsequence(Fresh(ps, seen), ps)
    decreases |ps|
  {
    if |ps| > 0 {
      FreshInOrder(ps[1..], seen);
      var rest := Fresh(ps[1..], seen);
      if ps[0].id in seen {
        SubsequenceOfTail(rest, ps);
      } else {
        assert ([ps[0]] + rest)[1..] == rest;
      }
    }
  }

  /** What the `rag` loop collects: for each query in turn, the points whose id no
      earlier query returned. */
  function Collected(perQuery: seq<seq<Point>>): seq<Point>
  {
    if |perQuery| == 0 then []
    else Collected(perQuery[..|perQuery| - 1]) + Fresh(perQuery[|perQuery| - 1], SeenBefore(perQuery, |perQuery| - 1))
  }

  /** The deduplication loop of `rag` over the per-query search results. */
  method CollectResults(perQuery: seq<seq<Point>>) returns (results: seq<Point>, seen: set<nat>)
    ensures results == Collected(perQuery)
    ensures seen == SeenBefore(perQuery, |perQuery|)
  {
    results := [];
    seen := {};
    var j := 0;
    while j < |perQuery|
      invariant j <= |perQuery|
      invariant results == Collected(perQuery[..j])
      invariant seen == SeenBefore(perQuery, j)
    {
      var ps := perQuery[j];
      var resultIds := Ids(ps);
      var kept := KeepUnseen(ps, seen, resultIds - seen);
      SeenBeforePrefix(perQuery, j + 1);
      assert perQuery[..j + 1][..j] == perQuery[..j];
      results := results + kept;
      seen := seen + resultIds;
      j := j + 1;
    }
    assert perQuery[..j] == perQuery;
  }

  /** The inner loop of `rag`: keep the points whose id is among `uniqueIds`, the ids
      of `ps` not seen before. */
  method KeepUnseen(ps: seq<Point>, ghost seen: set<nat>, uniqueIds: set<nat>) returns (kept: seq<Point>)
    requires uniqueIds == Ids(ps) - seen
    ensures kept == Fresh(ps, seen)
  {
    kept := [];
    var k := 0;
    while k < |ps|
      invariant k <= |ps|
      invariant kept == Fresh(ps[..k], seen)
    {
      FreshAppend(ps[..k], ps[k], seen);
      assert ps[..k + 1] == ps[..k] + [ps[k]];
      assert ps[k] in ps;
      if ps[k].id in uniqueIds {
        kept := kept + [ps[k]];
      }
      k := k + 1;
    }
    assert ps[..k] == ps;
  }

  lemma {:induction false} FreshAppend(ps: seq<Point>, x: Point, seen: set<nat>)
    ensures Fresh(ps + [x], seen) == Fresh(ps, seen) + (if x.id in seen then [] else [x])
    decreases |ps|
  {
    if |ps| == 0 {
      assert Fresh([x], seen) == (if x.id in seen then [] else [x]) + Fresh([], seen);
    } else {
      assert (ps + [x])[1..] == ps[1..] + [x];
      FreshAppend(ps[1..], x, seen);
    }
  }

  lemma {:induction false} SeenBeforePrefix(perQuery: seq<seq<Point>>, j: nat)
    requires j <= |perQuery|
    ensures forall i :: 0 <= i <= j ==> SeenBefore(perQuery[..j], i) == SeenBefore(perQuery, i)
    decreases j
  {
    forall i | 0 <= i <= j ensures SeenBefore(perQuery[..j], i) == SeenBefore(perQuery, i) {
      SeenBeforePrefixAt(perQuery, j, i);
    }
  }

  lemma {:induction false} SeenBeforePrefixAt(perQuery: seq<seq<Point>>, j: nat, i: nat)
    requires i <= j <= |perQuery|
    ensures SeenBefore(perQuery[..j], i) == SeenBefore(perQuery, i)
    decreases i
  {
    if i > 0 {
      SeenBeforePrefixAt(perQuery, j, i - 1);
      assert perQuery[..j][i - 1] == perQuery[i - 1];
    }
  }

  /** Every id any search returned is the id of a collected point, and nothing else is. */
  lemma {:induction false} CollectedIds(perQuery: seq<seq<Point>>)
    ensures Ids(Collected(perQuery)) == SeenBefore(perQuery, |perQuery|)
    decreases |perQuery|
  {
    var n := |perQuery|;
    if n > 0 {
      var init := perQuery[..n - 1];
      CollectedIds(init);
      SeenBeforePrefixAt(perQuery, n - 1, n - 1);
      var kept := Fresh(perQuery[n - 1], SeenBefore(perQuery, n - 1));
      FreshMembers(perQuery[n - 1], SeenBefore(perQuery, n - 1));
      assert Ids(Collected(init) + kept) == Ids(Collected(init)) + Ids(kept);
      assert Ids(kept) == Ids(perQuery[n - 1]) - SeenBefore(perQuery, n - 1) by {
        forall id | id in Ids(perQuery[n - 1]) - SeenBefore(perQuery, n - 1) ensures id in Ids(kept) {
          var p :| p in perQuery[n - 1] && p.id == id;
          assert p in kept;
        }
      }
    }
  }

  /** Every collected point was returned by some search. */
  lemma {:induction false} CollectedFromSearches(perQuery: seq<seq<Point>>, p: Point)
    requires p in Collected(perQuery)
    ensures exists j :: 0 <= j < |perQuery| && p in perQuery[j]
    decreases |perQuery|
  {
    var n := |perQuery|;
    var init := perQuery[..n - 1];
    if p in Collected(init) {
      CollectedFromSearches(init, p);
      var j :| 0 <= j < |init| && p in init[j];
      assert init[j] == perQuery[j];
    } else {
      FreshMembers(perQuery[n - 1], SeenBefore(perQuery, n - 1));
      assert p in perQuery[n - 1];
    }
  }

  /** The collected points keep query order, then rank order within each query: they
      are a subsequence of all search results laid end to end. */
  lemma {:induction false} CollectedInSearchOrder(perQuery: seq<seq<Point>>)
    ensures IsSubsequence(Collected(perQuery), Flatten(perQuery))
    decreases |perQuery|
  {
    var n := |perQuery|;
    if n > 0 {
      var init := perQuery[..n - 1];
      var last := perQuery[n - 1];
      CollectedInSearchOrder(init);
      assert perQuery == init + [last];
      FlattenAppend(init, [last]);
      assert Flatten([last]) == last;
      FreshInOrder(last, SeenBefore(perQuery, n - 1));
      SubsequenceConcat(Collected(init), Flatten(init), Fresh(last, SeenBefore(perQuery, n - 1)), last);
    }
  }

  predicate DistinctIds(ps: seq<Point>) {
    forall a, b :: 0 <= a < b < |ps| ==> ps[a].id != ps[b].id
  }

  lemma {:induction false} FreshDistinct(ps: seq<Point>, seen: set<nat>)
    requires DistinctIds(ps)
    ensures DistinctIds(Fresh(ps, seen))
    decreases |ps|
  {
    if |ps| > 0 {
      var tail := ps[1..];
      assert DistinctIds(tail) by {
        forall a, b | 0 <= a < b < |tail| ensures tail[a].id != tail[b].id {
          assert tail[a] == ps[a + 1] && tail[b] == ps[b + 1];
        }
      }
      FreshDistinct(tail, seen);
      if ps[0].id !in seen {
        var rest := Fresh(tail, seen);
        FreshMembers(tail, seen);
        forall q | q in rest ensures q.id != ps[0].id {
          var k :| 0 <= k < |tail| && tail[k] == q;
          assert q == ps[k + 1];
        }
        DistinctIdsCons(ps[0], rest);
      }
    }
  }

  lemma DistinctIdsCons(x: Point, rest: seq<Point>)
    requires DistinctIds(rest)
    requires forall q :: q in rest ==> q.id != x.id
    ensures DistinctIds([x] + rest)
  {
    var r := [x] + rest;
    forall a, b | 0 <= a < b < |r| ensures r[a].id != r[b].id {
      assert r[b] == rest[b - 1];
      if a > 0 {
        assert r[a] == rest[a - 1];
      }
    }
  }

  /** When no single search returns an id twice, no point id is sent to the model twice:
      a later query never contributes an id an earlier query already returned. */
  lemma {:induction false} CollectedDistinct(perQuery: seq<seq<Point>>)
    requires forall j :: 0 <= j < |perQuery| ==> DistinctIds(perQuery[j])
    ensures DistinctIds(Collected(perQuery))
    decreases |perQuery|
  {
    var n := |perQuery|;
    if n > 0 {
      var init := perQuery[..n - 1];
      var seen := SeenBefore(perQuery, n - 1);
      assert forall j :: 0 <= j < |init| ==> init[j] == perQuery[j];
      CollectedDistinct(init);
      CollectedIds(init);
      SeenBeforePrefixAt(perQuery, n - 1, n - 1);
      var kept := Fresh(perQuery[n - 1], seen);
      FreshDistinct(perQuery[n - 1], seen);
      FreshMembers(perQuery[n - 1], seen);
      DistinctIdsConcat(Collected(init), kept);
    }
  }

  lemma DistinctIdsConcat(c: seq<Point>, kept: seq<Point>)
    requires DistinctIds(c) && DistinctIds(kept)
    requires forall p :: p in kept ==> p.id !in Ids(c)
    ensures DistinctIds(c + kept)
  {
    var r := c + kept;
    forall a, b | 0 <= a < b < |r| ensures r[a].id != r[b].id {
      if b < |c| {
        assert r[a] == c[a] && r[b] == c[b];
      } else if a >= |c| {
        assert r[a] == kept[a - |c|] && r[b] == kept[b - |c|];
      } else {
        assert r[a] == c[a] && r[a] in c;
        assert r[a].id in Ids(c);
        assert r[b] == kept[b - |c|] && r[b] in kept;
      }
    }
  }

  /** `rag` up to the final model call: refine the question into two phrasings, search
      with them and then with the question itself, deduplicate, build the prompt. */
  method Rag(query: string, reply: nat -> string, search: string -> seq<Point>, render: (string, string) -> string)
    returns (prompt: string, searched: seq<string>)
    ensures searched == Refined(reply, 2) + [query]
    ensures |searched| >= 1 && searched[|searched| - 1] == query
    ensures prompt == Prompts.BuildPrompt(query, Collected(seq(|searched|, j requires 0 <= j < |searched| => search(searched[j]))), render)
  {
    var refined, _ := RefineQuery(reply, 2);
    searched := refined + [query];
    var perQuery := seq(|searched|, j requires 0 <= j < |searched| => search(searched[j]));
    var results, _ := CollectResults(perQuery);
    prompt := Prompts.BuildPrompt(query, results, render);
  }
}
