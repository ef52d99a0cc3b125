/** `match_toc` of src/code/pdf_to_md.py: attaches each markdown section to a
    table-of-contents entry in two passes, first with a 0.80 similarity threshold,
    then with 0.70 for the entries still unmatched, consuming every section it
    attaches. The text normaliser (NFKC, case folding, punctuation removal) and
    `difflib`'s similarity ratio are parameters: `norm` and `ratio`. */
module TocMatch {
  import opened Base
  import opened Text
  import opened PdfToMd

  /** One row of `doc.get_toc()` — level, title, page — and the section texts appended to it. */
  datatype TocEntry = TocEntry(level: int, title: string, page: int, attached: seq<string>)

  const FirstThreshold: real := 0.80
  const SecondThreshold: real := 0.70

  /** The normalised title and the normalised key contain one another. */
  predicate Related(norm: string -> string, title: string, key: string) {
    IsSubstring(norm(title), norm(key)) || IsSubstring(norm(key), norm(title))
  }

  /** The candidates whose key is related to the title, in candidate order. */
  function SubstringMatches(norm: string -> string, title: string, cands: Dict): (r: Dict)
    ensures |r| <= |cands|
    ensures forall e :: e in r <==> e in cands && Related(norm, title, e.key)
    ensures IsSubsequence(r, cands)
    decreases |cands|
  {
    if |cands| == 0 then []
    else
      var rest := SubstringMatches(norm, title, cands[1..]);
      assert cands == [cands[0]] + cands[1..];
      if Related(norm, title, cands[0].key) then
        assert ([cands[0]] + rest)[1..] == rest;
        [cands[0]] + rest
      else
        SubsequenceOfTail(rest, cands);
        rest
  }

  /** When exactly one candidate is related, it is the only substring match. */
  lemma {:induction false} SingleRelatedMatch(norm: string -> string, title: string, cands: Dict, i: nat)
    requires i < |cands| && Related(norm, title, cands[i].key)
    requires forall j :: 0 <= j < |cands| && j != i ==> !Related(norm, title, cands[j].key)
    ensures SubstringMatches(norm, title, cands) == [cands[i]]
    decreases |cands|
  {
    if i == 0 {
      NoRelatedNoMatch(norm, title, cands[1..]);
    } else {
      SingleRelatedMatch(norm, title, cands[1..], i - 1);
    }
  }

  lemma {:induction false} NoRelatedNoMatch(norm: string -> string, title: string, cands: Dict)
    requires forall j :: 0 <= j < |cands| ==> !Related(norm, title, cands[j].key)
    ensures SubstringMatches(norm, title, cands) == []
    decreases |cands|
  {
    if |cands| > 0 {
      NoRelatedNoMatch(norm, title, cands[1..]);
    }
  }

  /** `difflib.SequenceMatcher(None, norm_title, normalize_text(key)).ratio()`. */
  function Score(norm: string -> string, ratio: (string, string) -> real, title: string, key: string): real {
    ratio(norm(title), norm(key))
  }

  function Scores(norm: string -> string, ratio: (string, string) -> real, title: string, cands: Dict): (s: seq<real>)
    ensures |s| == |cands|
    ensures forall i :: 0 <= i < |cands| ==> s[i] == Score(norm, ratio, title, cands[i].key)
  {
    seq(|cands|, i requires 0 <= i < |cands| => Score(norm, ratio, title, cands[i].key))
  }

  /** `max(scores, key=...)`: the first position holding the largest score. */
  function FirstMaxIndex(scores: seq<real>): (k: nat)
    requires |scores| > 0
    ensures k < |scores|
    ensures forall j :: 0 <= j < |scores| ==> scores[j] <= scores[k]
    ensures forall j :: 0 <= j < k ==> scores[j] < scores[k]
    decreases |scores|
  {
    if |scores| == 1 then 0
    else
      var k := FirstMaxIndex(scores[..|scores| - 1]);
      assert forall j :: 0 <= j < |scores| - 1 ==> scores[..|scores| - 1][j] == scores[j];
      if scores[|scores| - 1] > scores[k] then |scores| - 1 else k
  }

  /** Candidate `k` has the best score, and every earlier candidate a strictly lower one. */
  predicate IsFirstBest(norm: string -> string, ratio: (string, string) -> real, title: string, cands: Dict, k: int)
    requires 0 <= k < |cands|
  {
    && (forall j :: 0 <= j < |cands| ==>
          Score(norm, ratio, title, cands[j].key) <= Score(norm, ratio, title, cands[k].key))
    && (forall j :: 0 <= j < k ==>
          Score(norm, ratio, title, cands[j].key) < Score(norm, ratio, title, cands[k].key))
  }

  /** `find_best_match`: no candidates gives no match; a unique substring match is taken
      without looking at scores; otherwise the first best-scoring candidate is taken
      exactly when its score reaches the threshold. */
  function FindBestMatch(norm: string -> string, ratio: (string, string) -> real, title: string,
                         cands: Dict, threshold: real): (r: Option<Entry>)
    ensures r.Some? ==> r.value in cands
  {
    if |cands| == 0 then None
    else
      var subs := SubstringMatches(norm, title, cands);
      if |subs| == 1 then
        assert subs[0] in subs;
        Some(subs[0])
      else
        var scores := Scores(norm, ratio, title, cands);
        var k := FirstMaxIndex(scores);
        if scores[k] >= threshold then Some(cands[k]) else None
  }

  /** What `find_best_match` picks: nothing from no candidates, the unique substring
      match when there is one, and otherwise the first best-scoring candidate exactly
      when some candidate reaches the threshold. */
  lemma FindBestMatchChoice(norm: string -> string, ratio: (string, string) -> real, title: string,
                            cands: Dict, threshold: real)
    ensures var r := FindBestMatch(norm, ratio, title, cands, threshold);
            && (|cands| == 0 ==> r == None)
            && (|cands| > 0 && |SubstringMatches(norm, title, cands)| == 1 ==>
                  r == Some(SubstringMatches(norm, title, cands)[0]))
            && (|cands| > 0 && |SubstringMatches(norm, title, cands)| != 1 ==>
                  (r.Some? <==> exists i :: 0 <= i < |cands| && Score(norm, ratio, title, cands[i].key) >= threshold))
            && (|cands| > 0 && |SubstringMatches(norm, title, cands)| != 1 && r.Some? ==>
                  exists k :: 0 <= k < |cands| && r.value == cands[k] && IsFirstBest(norm, ratio, title, cands, k))
  {
    if |cands| > 0 && |SubstringMatches(norm, title, cands)| != 1 {
      var k := FirstMaxIndex(Scores(norm, ratio, title, cands));
      assert IsFirstBest(norm, ratio, title, cands, k);
    }
  }

  /** Exactly one related candidate is returned whatever the scores and threshold say. */
  lemma UniqueSubstringWins(norm: string -> string, ratio: (string, string) -> real, title: string,
                            cands: Dict, threshold: real, i: nat)
    requires i < |cands| && Related(norm, title, cands[i].key)
    requires forall j :: 0 <= j < |cands| && j != i ==> !Related(norm, title, cands[j].key)
    ensures FindBestMatch(norm, ratio, title, cands, threshold) == Some(cands[i])
  {
    SingleRelatedMatch(norm, title, cands, i);
    FindBestMatchChoice(norm, ratio, title, cands, threshold);
  }

  /** `chapter.append(content)` on ToC entry `i`. */
  function Attach(toc: seq<TocEntry>, i: nat, section: string): (r: seq<TocEntry>)
    requires i < |toc|
    ensures |r| == |toc|
  {
    toc[i := toc[i].(attached := toc[i].attached + [section])]
  }

  /** The state after one pass: the ToC, the sections not yet attached, and the
      positions of the entries the pass could not match (in visiting order). */
  datatype PassResult = PassResult(toc: seq<TocEntry>, chunks: Dict, retries: seq<nat>)

  predicate ValidIndices(idxs: seq<nat>, n: nat) {
    forall j :: 0 <= j < |idxs| ==> idxs[j] < n
  }

  predicate Distinct(idxs: seq<nat>) {
    forall a, b :: 0 <= a < b < |idxs| ==> idxs[a] != idxs[b]
  }

  /** One pass of `match_toc` over the entries at positions `idxs`: every match is
      attached to its entry and popped from the dictionary; unmatched positions are
      collected for the next pass. */
  function MatchPass(norm: string -> string, ratio: (string, string) -> real, toc: seq<TocEntry>,
                     chunks: Dict, idxs: seq<nat>, threshold: real): (r: PassResult)
    requires UniqueKeys(chunks)
    requires ValidIndices(idxs, |toc|)
    ensures |r.toc| == |toc|
    ensures UniqueKeys(r.chunks)
    ensures ValidIndices(r.retries, |toc|)
    decreases |idxs|
  {
    if |idxs| == 0 then PassResult(toc, chunks, [])
    else
      var i := idxs[0];
      match FindBestMatch(norm, ratio, toc[i].title, chunks, threshold)
      case Some(e) =>
        assert HasKey(chunks, e.key);
        RemoveKeepsUnique(chunks, e.key);
        MatchPass(norm, ratio, Attach(toc, i, e.value), Remove(chunks, e.key), idxs[1..], threshold)
      case None =>
        var r := MatchPass(norm, ratio, toc, chunks, idxs[1..], threshold);
        r.(retries := [i] + r.retries)
  }

  function Range(n: nat): (r: seq<nat>)
    ensures |r| == n && forall i :: 0 <= i < n ==> r[i] == i
  {
    seq(n, i requires 0 <= i < n => i)
  }

  /** Both passes of `match_toc`: the 0.80 pass over the whole ToC, then the 0.70 pass
      over the entries the first pass left unmatched. */
  function MatchBothPasses(norm: string -> string, ratio: (string, string) -> real,
                           toc: seq<TocEntry>, chunks: Dict): (r: PassResult)
    requires UniqueKeys(chunks)
    ensures |r.toc| == |toc|
    ensures UniqueKeys(r.chunks)
  {
    var first := MatchPass(norm, ratio, toc, chunks, Range(|toc|), FirstThreshold);
    MatchPass(norm, ratio, first.toc, first.chunks, first.retries, SecondThreshold)
  }

  /** `match_toc`: the matched ToC, or the assertion failure that lists the sections
      no entry took. Entries that stay unmatched are tolerated. */
  function MatchToc(norm: string -> string, ratio: (string, string) -> real,
                    toc: seq<TocEntry>, chunks: Dict): (r: Result<seq<TocEntry>>)
    requires UniqueKeys(chunks)
    ensures r.Ok? <==> |MatchBothPasses(norm, ratio, toc, chunks).chunks| == 0
    ensures r.Ok? ==> |r.value| == |toc|
    ensures r.Err? ==> r.error.UnmatchedChunks? && |r.error.keys| > 0
  {
    var last := MatchBothPasses(norm, ratio, toc, chunks);
    if |last.chunks| == 0 then Ok(last.toc)
    else Err(UnmatchedChunks(KeyList(last.chunks)))
  }

  // ---------------------------------------------------------------------------
  // Properties of a pass

  predicate SameHeading(a: TocEntry, b: TocEntry) {
    a.level == b.level && a.title == b.title && a.page == b.page
  }

  /** A pass changes only the `attached` field, and only at visited positions. */
  lemma MatchPassShape(norm: string -> string, ratio: (string, string) -> real,
                       toc: seq<TocEntry>, chunks: Dict, idxs: seq<nat>, threshold: real)
    requires UniqueKeys(chunks)
    requires ValidIndices(idxs, |toc|)
    ensures var r := MatchPass(norm, ratio, toc, chunks, idxs, threshold);
            && (forall j :: 0 <= j < |toc| ==> SameHeading(r.toc[j], toc[j]))
            && (forall j :: 0 <= j < |toc| && j !in idxs ==> r.toc[j] == toc[j])
  {
    MatchPassKeepsHeadings(norm, ratio, toc, chunks, idxs, threshold);
    MatchPassKeepsUnvisited(norm, ratio, toc, chunks, idxs, threshold);
  }

  lemma {:induction false} MatchPassKeepsHeadings(norm: string -> string, ratio: (string, string) -> real,
                                                  toc: seq<TocEntry>, chunks: Dict, idxs: seq<nat>, threshold: real)
    requires UniqueKeys(chunks)
    requires ValidIndices(idxs, |toc|)
    ensures var r := MatchPass(norm, ratio, toc, chunks, idxs, threshold);
            forall j :: 0 <= j < |toc| ==> SameHeading(r.toc[j], toc[j])
    decreases |idxs|
  {
    if |idxs| > 0 {
      var i := idxs[0];
      match FindBestMatch(norm, ratio, toc[i].title, chunks, threshold)
      case Some(e) =>
        assert HasKey(chunks, e.key);
        RemoveKeepsUnique(chunks, e.key);
        MatchPassKeepsHeadings(norm, ratio, Attach(toc, i, e.value), Remove(chunks, e.key), idxs[1..], threshold);
      case None =>
        MatchPassKeepsHeadings(norm, ratio, toc, chunks, idxs[1..], threshold);
    }
  }

  lemma {:induction false} MatchPassKeepsUnvisited(norm: string -> string, ratio: (string, string) -> real,
                                                   toc: seq<TocEntry>, chunks: Dict, idxs: seq<nat>, threshold: real)
    requires UniqueKeys(chunks)
    requires ValidIndices(idxs, |toc|)
    ensures var r := MatchPass(norm, ratio, toc, chunks, idxs, threshold);
            forall j :: 0 <= j < |toc| && j !in idxs ==> r.toc[j] == toc[j]
    decreases |idxs|
  {
    if |idxs| > 0 {
      var i := idxs[0];
      assert forall j :: j in idxs[1..] ==> j in idxs;
      match FindBestMatch(norm, ratio, toc[i].title, chunks, threshold)
      case Some(e) =>
        assert HasKey(chunks, e.key);
        RemoveKeepsUnique(chunks, e.key);
        MatchPassKeepsUnvisited(norm, ratio, Attach(toc, i, e.value), Remove(chunks, e.key), idxs[1..], threshold);
      case None =>
        MatchPassKeepsUnvisited(norm, ratio, toc, chunks, idxs[1..], threshold);
    }
  }

  /** The positions a pass leaves for retry are visited positions, each listed once
      when the visited positions are distinct. */
  lemma {:induction false} MatchPassRetriesVisited(norm: string -> string, ratio: (string, string) -> real,
                                                   toc: seq<TocEntry>, chunks: Dict, idxs: seq<nat>, threshold: real)
    requires UniqueKeys(chunks)
    requires ValidIndices(idxs, |toc|)
    ensures var r := MatchPass(norm, ratio, toc, chunks, idxs, threshold);
            && |r.retries| <= |idxs|
            && (forall x :: x in r.retries ==> x in idxs)
            && (Distinct(idxs) ==> Distinct(r.retries))
    decreases |idxs|
  {
    if |idxs| > 0 {
      var i := idxs[0];
      var rest := idxs[1..];
      assert forall x :: x in rest ==> x in idxs;
      assert Distinct(idxs) ==> Distinct(rest) && i !in rest;
      match FindBestMatch(norm, ratio, toc[i].title, chunks, threshold)
      case Some(e) =>
        assert HasKey(chunks, e.key);
        RemoveKeepsUnique(chunks, e.key);
        MatchPassRetriesVisited(norm, ratio, Attach(toc, i, e.value), Remove(chunks, e.key), rest, threshold);
      case None =>
        var r := MatchPass(norm, ratio, toc, chunks, rest, threshold);
        MatchPassRetriesVisited(norm, ratio, toc, chunks, rest, threshold);
        if Distinct(idxs) {
          DistinctCons(i, r.retries);
        }
    }
  }

  lemma DistinctCons(i: nat, s: seq<nat>)
    requires Distinct(s) && i !in s
    ensures Distinct([i] + s)
  {
    var t := [i] + s;
    forall a, b | 0 <= a < b < |t| ensures t[a] != t[b] {
      assert t[b] == s[b - 1];
      if a > 0 {
        assert t[a] == s[a - 1];
      }
    }
  }

  /** With distinct positions, an entry listed for retry is untouched and every other
      visited entry gains exactly one section at the end of its list. */
  lemma MatchPassRetries(norm: string -> string, ratio: (string, string) -> real,
                         toc: seq<TocEntry>, chunks: Dict, idxs: seq<nat>, threshold: real)
    requires UniqueKeys(chunks)
    requires ValidIndices(idxs, |toc|)
    requires Distinct(idxs)
    ensures var r := MatchPass(norm, ratio, toc, chunks, idxs, threshold);
            && Distinct(r.retries)
            && (forall x :: x in r.retries ==> x in idxs)
            && (forall x :: x in idxs && x in r.retries ==> r.toc[x] == toc[x])
            && (forall x :: x in idxs && x !in r.retries ==>
                  |r.toc[x].attached| == |toc[x].attached| + 1 &&
                  r.toc[x].attached[..|toc[x].attached|] == toc[x].attached)
  {
    MatchPassRetriesVisited(norm, ratio, toc, chunks, idxs, threshold);
    MatchPassRetriedUntouched(norm, ratio, toc, chunks, idxs, threshold);
    MatchPassMatchedGainOne(norm, ratio, toc, chunks, idxs, threshold);
  }

  /** With distinct positions, an entry left for retry is unchanged. */
  lemma {:induction false} MatchPassRetriedUntouched(norm: string -> string, ratio: (string, string) -> real,
                                                     toc: seq<TocEntry>, chunks: Dict, idxs: seq<nat>, threshold: real)
    requires UniqueKeys(chunks)
    requires ValidIndices(idxs, |toc|)
    requires Distinct(idxs)
    ensures var r := MatchPass(norm, ratio, toc, chunks, idxs, threshold);
            forall x :: x in r.retries ==> r.toc[x] == toc[x]
    decreases |idxs|
  {
    if |idxs| > 0 {
      var i := idxs[0];
      var rest := idxs[1..];
      assert Distinct(rest);
      match FindBestMatch(norm, ratio, toc[i].title, chunks, threshold)
      case Some(e) =>
        assert HasKey(chunks, e.key);
        var toc' := Attach(toc, i, e.value);
        var chunks' := Remove(chunks, e.key);
        RemoveKeepsUnique(chunks, e.key);
        MatchPassRetriedUntouched(norm, ratio, toc', chunks', rest, threshold);
        MatchPassRetriesVisited(norm, ratio, toc', chunks', rest, threshold);
        assert i !in rest;
      case None =>
        MatchPassRetriedUntouched(norm, ratio, toc, chunks, rest, threshold);
        MatchPassShape(norm, ratio, toc, chunks, rest, threshold);
        assert i !in rest;
    }
  }

  /** With distinct positions, a visited entry not left for retry gains one section. */
  lemma {:induction false} MatchPassMatchedGainOne(norm: string -> string, ratio: (string, string) -> real,
                                                   toc: seq<TocEntry>, chunks: Dict, idxs: seq<nat>, threshold: real)
    requires UniqueKeys(chunks)
    requires ValidIndices(idxs, |toc|)
    requires Distinct(idxs)
    ensures var r := MatchPass(norm, ratio, toc, chunks, idxs, threshold);
            forall x :: x in idxs && x !in r.retries ==>
              |r.toc[x].attached| == |toc[x].attached| + 1 &&
              r.toc[x].attached[..|toc[x].attached|] == toc[x].attached
    decreases |idxs|
  {
    if |idxs| > 0 {
      var i := idxs[0];
      var rest := idxs[1..];
      assert forall x :: x in idxs <==> x == i || x in rest;
      assert i !in rest;
      assert Distinct(rest);
      match FindBestMatch(norm, ratio, toc[i].title, chunks, threshold)
      case Some(e) =>
        assert HasKey(chunks, e.key);
        var toc' := Attach(toc, i, e.value);
        var chunks' := Remove(chunks, e.key);
        RemoveKeepsUnique(chunks, e.key);
        MatchPassMatchedGainOne(norm, ratio, toc', chunks', rest, threshold);
        MatchPassShape(norm, ratio, toc', chunks', rest, threshold);
        var r := MatchPass(norm, ratio, toc', chunks', rest, threshold);
        assert r.toc[i] == toc'[i];
        assert toc'[i].attached[..|toc[i].attached|] == toc[i].attached;
      case None =>
        MatchPassMatchedGainOne(norm, ratio, toc, chunks, rest, threshold);
    }
  }

  /** Every section text attached to any entry, as a bag. */
  function AttachedBag(toc: seq<TocEntry>): multiset<string>
  {
    if |toc| == 0 then multiset{} else multiset(toc[0].attached) + AttachedBag(toc[1..])
  }

  lemma {:induction false} AttachAddsToBag(toc: seq<TocEntry>, i: nat, section: string)
    requires i < |toc|
    ensures AttachedBag(Attach(toc, i, section)) == AttachedBag(toc) + multiset{section}
    decreases |toc|
  {
    var t := Attach(toc, i, section);
    if i == 0 {
      assert t[1..] == toc[1..];
    } else {
      assert t[1..] == Attach(toc[1..], i - 1, section);
      AttachAddsToBag(toc[1..], i - 1, section);
    }
  }

  /** A pass moves sections from the dictionary onto entries, one per match: no
      section is lost, none is attached twice, and the sections left keep their keys. */
  lemma MatchPassConserves(norm: string -> string, ratio: (string, string) -> real,
                           toc: seq<TocEntry>, chunks: Dict, idxs: seq<nat>, threshold: real)
    requires UniqueKeys(chunks)
    requires ValidIndices(idxs, |toc|)
    ensures var r := MatchPass(norm, ratio, toc, chunks, idxs, threshold);
            && AttachedBag(r.toc) + multiset(ValueList(r.chunks)) == AttachedBag(toc) + multiset(ValueList(chunks))
            && |r.chunks| + (|idxs| - |r.retries|) == |chunks|
            && (forall k :: Lookup(r.chunks, k).Some? ==> Lookup(r.chunks, k) == Lookup(chunks, k))
  {
    MatchPassKeepsBag(norm, ratio, toc, chunks, idxs, threshold);
    MatchPassCount(norm, ratio, toc, chunks, idxs, threshold);
    MatchPassKeepsLookups(norm, ratio, toc, chunks, idxs, threshold);
  }

  lemma {:induction false} MatchPassKeepsBag(norm: string -> string, ratio: (string, string) -> real,
                                             toc: seq<TocEntry>, chunks: Dict, idxs: seq<nat>, threshold: real)
    requires UniqueKeys(chunks)
    requires ValidIndices(idxs, |toc|)
    ensures var r := MatchPass(norm, ratio, toc, chunks, idxs, threshold);
            AttachedBag(r.toc) + multiset(ValueList(r.chunks)) == AttachedBag(toc) + multiset(ValueList(chunks))
    decreases |idxs|
  {
    if |idxs| > 0 {
      var i := idxs[0];
      match FindBestMatch(norm, ratio, toc[i].title, chunks, threshold)
      case Some(e) =>
        assert HasKey(chunks, e.key);
        var j :| 0 <= j < |chunks| && chunks[j] == e;
        LookupAt(chunks, j);
        var toc' := Attach(toc, i, e.value);
        var chunks' := Remove(chunks, e.key);
        RemoveKeepsUnique(chunks, e.key);
        RemoveValues(chunks, e.key);
        AttachAddsToBag(toc, i, e.value);
        MatchPassKeepsBag(norm, ratio, toc', chunks', idxs[1..], threshold);
      case None =>
        MatchPassKeepsBag(norm, ratio, toc, chunks, idxs[1..], threshold);
    }
  }

  lemma {:induction false} MatchPassCount(norm: string -> string, ratio: (string, string) -> real,
                                          toc: seq<TocEntry>, chunks: Dict, idxs: seq<nat>, threshold: real)
    requires UniqueKeys(chunks)
    requires ValidIndices(idxs, |toc|)
    ensures var r := MatchPass(norm, ratio, toc, chunks, idxs, threshold);
            |r.chunks| + (|idxs| - |r.retries|) == |chunks|
    decreases |idxs|
  {
    if |idxs| > 0 {
      var i := idxs[0];
      match FindBestMatch(norm, ratio, toc[i].title, chunks, threshold)
      case Some(e) =>
        assert HasKey(chunks, e.key);
        RemoveKeepsUnique(chunks, e.key);
        MatchPassCount(norm, ratio, Attach(toc, i, e.value), Remove(chunks, e.key), idxs[1..], threshold);
      case None =>
        MatchPassCount(norm, ratio, toc, chunks, idxs[1..], threshold);
    }
  }

  lemma {:induction false} MatchPassKeepsLookups(norm: string -> string, ratio: (string, string) -> real,
                                                 toc: seq<TocEntry>, chunks: Dict, idxs: seq<nat>, threshold: real)
    requires UniqueKeys(chunks)
    requires ValidIndices(idxs, |toc|)
    ensures var r := MatchPass(norm, ratio, toc, chunks, idxs, threshold);
            forall k :: Lookup(r.chunks, k).Some? ==> Lookup(r.chunks, k) == Lookup(chunks, k)
    decreases |idxs|
  {
    if |idxs| > 0 {
      var i := idxs[0];
      match FindBestMatch(norm, ratio, toc[i].title, chunks, threshold)
      case Some(e) =>
        assert HasKey(chunks, e.key);
        RemoveKeepsUnique(chunks, e.key);
        RemoveLookup(chunks, e.key);
        MatchPassKeepsLookups(norm, ratio, Attach(toc, i, e.value), Remove(chunks, e.key), idxs[1..], threshold);
      case None =>
        MatchPassKeepsLookups(norm, ratio, toc, chunks, idxs[1..], threshold);
    }
  }

  // ---------------------------------------------------------------------------
  // Properties of match_toc

  lemma RangeFacts(n: nat)
    ensures Distinct(Range(n))
    ensures forall j :: 0 <= j < n ==> j in Range(n)
  {
    forall j | 0 <= j < n ensures j in Range(n) { assert Range(n)[j] == j; }
  }

  /** `match_toc` returns the ToC in its original order with headings unchanged; each
      entry gains at most one section; entries matched in the 0.80 pass are not
      retried at 0.70. */
  lemma MatchTocKeepsEntries(norm: string -> string, ratio: (string, string) -> real,
                             toc: seq<TocEntry>, chunks: Dict)
    requires UniqueKeys(chunks)
    ensures var first := MatchPass(norm, ratio, toc, chunks, Range(|toc|), FirstThreshold);
            var last := MatchBothPasses(norm, ratio, toc, chunks);
            && (forall j :: 0 <= j < |toc| ==> SameHeading(last.toc[j], toc[j]))
            && (forall j :: 0 <= j < |toc| ==>
                  |last.toc[j].attached| <= |toc[j].attached| + 1 &&
                  toc[j].attached <= last.toc[j].attached)
            && (forall j :: 0 <= j < |toc| && j !in first.retries ==> last.toc[j] == first.toc[j])
  {
    var all := Range(|toc|);
    RangeFacts(|toc|);
    var first := MatchPass(norm, ratio, toc, chunks, all, FirstThreshold);
    MatchPassShape(norm, ratio, toc, chunks, all, FirstThreshold);
    MatchPassRetries(norm, ratio, toc, chunks, all, FirstThreshold);
    var last := MatchPass(norm, ratio, first.toc, first.chunks, first.retries, SecondThreshold);
    MatchPassShape(norm, ratio, first.toc, first.chunks, first.retries, SecondThreshold);
    MatchPassRetries(norm, ratio, first.toc, first.chunks, first.retries, SecondThreshold);
    forall j | 0 <= j < |toc|
      ensures |last.toc[j].attached| <= |toc[j].attached| + 1
      ensures toc[j].attached <= last.toc[j].attached
    {
      assert j in all;
      if j in first.retries {
        assert first.toc[j] == toc[j];
      } else {
        assert last.toc[j] == first.toc[j];
      }
    }
  }

  /** Across both passes no section is lost or attached twice. */
  lemma MatchBothPassesConserve(norm: string -> string, ratio: (string, string) -> real,
                                toc: seq<TocEntry>, chunks: Dict)
    requires UniqueKeys(chunks)
    ensures var last := MatchBothPasses(norm, ratio, toc, chunks);
            AttachedBag(last.toc) + multiset(ValueList(last.chunks)) == AttachedBag(toc) + multiset(ValueList(chunks))
  {
    var all := Range(|toc|);
    var first := MatchPass(norm, ratio, toc, chunks, all, FirstThreshold);
    MatchPassConserves(norm, ratio, toc, chunks, all, FirstThreshold);
    MatchPassConserves(norm, ratio, first.toc, first.chunks, first.retries, SecondThreshold);
  }

  /** `match_toc` succeeds exactly when every section of the dictionary sits on some entry,
      each exactly once. */
  lemma MatchTocPlacesSections(norm: string -> string, ratio: (string, string) -> real,
                               toc: seq<TocEntry>, chunks: Dict)
    requires UniqueKeys(chunks)
    ensures MatchToc(norm, ratio, toc, chunks).Ok? <==>
              AttachedBag(MatchBothPasses(norm, ratio, toc, chunks).toc) == AttachedBag(toc) + multiset(ValueList(chunks))
  {
    var last := MatchBothPasses(norm, ratio, toc, chunks);
    MatchBothPassesConserve(norm, ratio, toc, chunks);
    var rest := multiset(ValueList(last.chunks));
    assert AttachedBag(last.toc) + rest == AttachedBag(toc) + multiset(ValueList(chunks));
    if |last.chunks| > 0 {
      var v := last.chunks[0].value;
      assert ValueList(last.chunks)[0] == v;
      assert rest[v] > 0;
      var placed := AttachedBag(last.toc);
      var all := AttachedBag(toc) + multiset(ValueList(chunks));
      assert all[v] == placed[v] + rest[v];
      assert placed[v] != all[v];
    } else {
      assert ValueList(last.chunks) == [];
    }
  }

  /** The failure lists sections of the original dictionary. */
  lemma MatchTocErrorKeys(norm: string -> string, ratio: (string, string) -> real,
                          toc: seq<TocEntry>, chunks: Dict)
    requires UniqueKeys(chunks)
    ensures MatchToc(norm, ratio, toc, chunks).Err? ==>
              forall k :: k in MatchToc(norm, ratio, toc, chunks).error.keys ==> HasKey(chunks, k)
  {
    var all := Range(|toc|);
    var first := MatchPass(norm, ratio, toc, chunks, all, FirstThreshold);
    MatchPassConserves(norm, ratio, toc, chunks, all, FirstThreshold);
    var last := MatchPass(norm, ratio, first.toc, first.chunks, first.retries, SecondThreshold);
    MatchPassConserves(norm, ratio, first.toc, first.chunks, first.retries, SecondThreshold);
    forall k | k in KeyList(last.chunks)
      ensures HasKey(chunks, k)
    {
      var j :| 0 <= j < |last.chunks| && KeyList(last.chunks)[j] == k;
      LookupAt(last.chunks, j);
      assert Lookup(first.chunks, k).Some?;
      assert Lookup(chunks, k).Some?;
    }
  }
}
