/** The text side of the PDF-to-markdown stage: the character whitelist, the split
    of the markdown at heading lines, the heading-marker strip and the section
    dictionary keyed by first line (`PDFToMarkdown` in src/code/pdf_to_md.py).
    Rendering the PDF itself is not modelled: the markdown is an input. */
module PdfToMd {
  import opened Base
  import opened Text

  /** The characters `clean_markdown` keeps: ASCII letters and digits, the listed
      ASCII punctuation, space, tab, newline and eleven listed symbols. */
  predicate IsKept(c: char) {
    || ('a' <= c <= 'z')
    || ('A' <= c <= 'Z')
    || ('0' <= c <= '9')
    || c in "!@#$%^&*()_-+=[]{}|;:'\",.<>/?\\` \t\n"
    || c in "□△◇：±℃φ×Ω（）"
  }

  predicate AllKept(s: string) {
    forall i :: 0 <= i < |s| ==> IsKept(s[i])
  }

  /** `clean_markdown`: deletes every character outside the whitelist. */
  function CleanMarkdown(md: string): string
    decreases |md|
  {
    if |md| == 0 then ""
    else if IsKept(md[0]) then [md[0]] + CleanMarkdown(md[1..])
    else CleanMarkdown(md[1..])
  }

  /** Only whitelisted characters remain, each whitelisted character as often as in
      the input, in input order. */
  lemma CleanMarkdownFilters(md: string)
    ensures AllKept(CleanMarkdown(md))
    ensures forall c :: multiset(CleanMarkdown(md))[c] == (if IsKept(c) then multiset(md)[c] else 0)
    ensures IsSubsequence(CleanMarkdown(md), md)
  {
    CleanMarkdownAllKept(md);
    CleanMarkdownCounts(md);
    CleanMarkdownInOrder(md);
  }

  lemma {:induction false} CleanMarkdownAllKept(md: string)
    ensures AllKept(CleanMarkdown(md))
    decreases |md|
  {
    if |md| > 0 {
      CleanMarkdownAllKept(md[1..]);
    }
  }

  lemma {:induction false} CleanMarkdownCounts(md: string)
    ensures forall c :: multiset(CleanMarkdown(md))[c] == (if IsKept(c) then multiset(md)[c] else 0)
    decreases |md|
  {
    if |md| > 0 {
      CleanMarkdownCounts(md[1..]);
      assert md == [md[0]] + md[1..];
    }
  }

  lemma {:induction false} CleanMarkdownInOrder(md: string)
    ensures IsSubsequence(CleanMarkdown(md), md)
    decreases |md|
  {
    if |md| > 0 {
      CleanMarkdownInOrder(md[1..]);
      var rest := CleanMarkdown(md[1..]);
      if IsKept(md[0]) {
        assert ([md[0]] + rest)[1..] == rest;
      } else {
        SubsequenceOfTail(rest, md);
      }
    }
  }

  /** Text made of whitelisted characters only is left as it is. */
  lemma {:induction false} CleanKeepsCleanText(s: string)
    requires AllKept(s)
    ensures CleanMarkdown(s) == s
    decreases |s|
  {
    if |s| > 0 {
      CleanKeepsCleanText(s[1..]);
      assert s == [s[0]] + s[1..];
    }
  }

  lemma {:induction false} CleanIdempotent(md: string)
    ensures CleanMarkdown(CleanMarkdown(md)) == CleanMarkdown(md)
  {
    CleanMarkdownAllKept(md);
    CleanKeepsCleanText(CleanMarkdown(md));
  }

  /** Cleaning the concatenated pages equals concatenating the cleaned pages. */
  lemma {:induction false} CleanDistributes(a: string, b: string)
    ensures CleanMarkdown(a + b) == CleanMarkdown(a) + CleanMarkdown(b)
    decreases |a|
  {
    if |a| == 0 {
      assert a + b == b;
    } else {
      assert (a + b)[0] == a[0];
      assert (a + b)[1..] == a[1..] + b;
      CleanDistributes(a[1..], b);
    }
  }

  /** A cut of `re.split(r'\n(?=#)', md)`: a newline whose next character is '#'. */
  predicate IsCut(s: string, k: int) {
    0 <= k < |s| - 1 && s[k] == '\n' && s[k + 1] == '#'
  }

  predicate HasCut(s: string) {
    exists k :: 0 <= k < |s| - 1 && IsCut(s, k)
  }

  /** Position of the leftmost cut. */
  function FirstCut(s: string): (k: nat)
    requires HasCut(s)
    ensures IsCut(s, k)
    ensures forall j :: 0 <= j < k ==> !IsCut(s, j)
  {
    if IsCut(s, 0) then 0
    else
      assert HasCut(s[1..]) by {
        var k :| 0 <= k < |s| - 1 && IsCut(s, k);
        assert IsCut(s[1..], k - 1);
      }
      var k := 1 + FirstCut(s[1..]);
      assert forall j :: 1 <= j < k ==> IsCut(s, j) == IsCut(s[1..], j - 1);
      k
  }

  /** The first part of a join is a prefix of it, followed by the separator when more parts follow. */
  lemma JoinStartsWithFirst(parts: seq<string>, sep: string)
    requires |parts| >= 1
    ensures parts[0] <= Join(parts, sep)
    ensures |parts| > 1 ==> Join(parts, sep) == parts[0] + sep + Join(parts[1..], sep)
  {
  }

  /** `re.split(r'\n(?=#)', md)`: cut at every newline that is followed by '#';
      the newline is consumed, the '#' stays with the next piece. */
  function SplitAtHeadings(md: string): (pieces: seq<string>)
    ensures |pieces| >= 1
    ensures Join(pieces, "\n") == md
    ensures forall i :: 0 <= i < |pieces| ==> !HasCut(pieces[i])
    ensures forall i :: 1 <= i < |pieces| ==> |pieces[i]| > 0 && pieces[i][0] == '#'
    decreases |md|
  {
    if !HasCut(md) then [md]
    else
      var k := FirstCut(md);
      var tail := md[k + 1..];
      var rest := SplitAtHeadings(tail);
      assert md == md[..k] + "\n" + tail;
      assert !HasCut(md[..k]) by {
        if HasCut(md[..k]) {
          var j :| 0 <= j < k - 1 && IsCut(md[..k], j);
          assert IsCut(md, j);
        }
      }
      assert |rest[0]| > 0 && rest[0][0] == '#' by {
        JoinStartsWithFirst(rest, "\n");
        assert tail[0] == '#';
      }
      [md[..k]] + rest
  }

  /** A separator-free piece, a newline and a '#'-led tail: the first cut is that newline. */
  lemma FirstCutOfJoin(p: string, tail: string)
    requires !HasCut(p)
    requires |tail| > 0 && tail[0] == '#'
    ensures HasCut(p + "\n" + tail)
    ensures FirstCut(p + "\n" + tail) == |p|
    ensures (p + "\n" + tail)[|p| + 1..] == tail
  {
    var md := p + "\n" + tail;
    assert IsCut(md, |p|);
    forall j | 0 <= j < |p|
      ensures !IsCut(md, j)
    {
      if j < |p| - 1 {
        assert IsCut(md, j) ==> IsCut(p, j);
      } else {
        assert md[j + 1] == '\n';
      }
    }
  }

  /** The split is the only one with its three properties: joined back it gives the input,
      no piece holds a cut, and every piece after the first starts with '#'. */
  lemma {:induction false} SplitAtHeadingsUnique(pieces: seq<string>)
    requires |pieces| >= 1
    requires forall i :: 0 <= i < |pieces| ==> !HasCut(pieces[i])
    requires forall i :: 1 <= i < |pieces| ==> |pieces[i]| > 0 && pieces[i][0] == '#'
    ensures SplitAtHeadings(Join(pieces, "\n")) == pieces
    decreases |pieces|
  {
    if |pieces| == 1 {
      assert Join(pieces, "\n") == pieces[0];
    } else {
      var p := pieces[0];
      var rest := pieces[1..];
      var tail := Join(rest, "\n");
      JoinStartsWithFirst(pieces, "\n");
      JoinStartsWithFirst(rest, "\n");
      assert tail[0] == rest[0][0];
      SplitAtHeadingsCons(p, tail);
      SplitAtHeadingsUnique(rest);
      assert pieces == [p] + rest;
    }
  }

  /** A cut-free piece followed by a line break and a heading is split off first. */
  lemma SplitAtHeadingsCons(p: string, tail: string)
    requires !HasCut(p)
    requires |tail| > 0 && tail[0] == '#'
    ensures SplitAtHeadings(p + "\n" + tail) == [p] + SplitAtHeadings(tail)
  {
    var md := p + "\n" + tail;
    FirstCutOfJoin(p, tail);
    assert md[..|p|] == p;
  }

  /** `^#+\s` matches the first `n + 1` characters of `t`: a run of `n` '#' and one whitespace. */
  predicate IsHeadingMarker(t: string, n: int) {
    1 <= n < |t| && (forall j :: 0 <= j < n ==> t[j] == '#') && IsWhitespace(t[n])
  }

  /** Length of the run of '#' at the start of `t`. */
  function HashRun(t: string): (n: nat)
    ensures n <= |t|
    ensures forall j :: 0 <= j < n ==> t[j] == '#'
    ensures n < |t| ==> t[n] != '#'
  {
    if |t| == 0 || t[0] != '#' then 0 else 1 + HashRun(t[1..])
  }

  /** `re.sub(r'^#+\s', '', t)`: drops a leading heading marker, if there is one. */
  function StripHeading(t: string): (r: string)
    ensures forall n :: IsHeadingMarker(t, n) ==> r == t[n + 1..]
    ensures (forall n :: !IsHeadingMarker(t, n)) ==> r == t
  {
    var n := HashRun(t);
    if 1 <= n < |t| && IsWhitespace(t[n]) then
      assert IsHeadingMarker(t, n);
      assert forall m :: IsHeadingMarker(t, m) ==> m == n by {
        forall m | IsHeadingMarker(t, m)
          ensures m == n
        {
        }
      }
      t[n + 1..]
    else
      t
  }

  /** `split_markdown`: split at headings, then strip each piece's heading marker. */
  function SplitMarkdown(md: string): (sections: seq<string>)
    ensures |sections| == |SplitAtHeadings(md)|
    ensures forall i :: 0 <= i < |sections| ==>
              || (exists n :: IsHeadingMarker(SplitAtHeadings(md)[i], n) && sections[i] == SplitAtHeadings(md)[i][n + 1..])
              || ((forall n :: !IsHeadingMarker(SplitAtHeadings(md)[i], n)) && sections[i] == SplitAtHeadings(md)[i])
  {
    var pieces := SplitAtHeadings(md);
    var sections := seq(|pieces|, i requires 0 <= i < |pieces| => StripHeading(pieces[i]));
    assert forall i :: 0 <= i < |sections| ==> sections[i] == StripHeading(pieces[i]);
    sections
  }

  /** `chunk.split('\n', 1)[0]`: the text before the first newline. */
  function FirstLine(p: string): (r: string)
    ensures r <= p
    ensures '\n' !in r
    ensures |r| < |p| ==> p[|r|] == '\n'
  {
    if '\n' in p then p[..IndexOf(p, '\n')] else p
  }

  /** One item of an insertion-ordered Python dict. */
  datatype Entry = Entry(key: string, value: string)

  /** A Python dict from section heading to section text, in insertion order. */
  type Dict = seq<Entry>

  predicate UniqueKeys(d: Dict) {
    forall i, j :: 0 <= i < j < |d| ==> d[i].key != d[j].key
  }

  predicate HasKey(d: Dict, k: string) {
    exists i :: 0 <= i < |d| && d[i].key == k
  }

  function KeyList(d: Dict): seq<string> {
    seq(|d|, i requires 0 <= i < |d| => d[i].key)
  }

  function ValueList(d: Dict): seq<string> {
    seq(|d|, i requires 0 <= i < |d| => d[i].value)
  }

  /** Position of the first entry with key `k`. */
  function FindKey(d: Dict, k: string): (r: Option<nat>)
    ensures r.Some? ==> r.value < |d| && d[r.value].key == k
    ensures r.Some? ==> forall j :: 0 <= j < r.value ==> d[j].key != k
    ensures r.None? <==> !HasKey(d, k)
    decreases |d|
  {
    if |d| == 0 then None
    else if d[0].key == k then Some(0)
    else
      match FindKey(d[1..], k)
      case None =>
        assert !HasKey(d, k) by {
          forall i | 0 < i < |d| ensures d[i].key != k { assert d[i] == d[1..][i - 1]; }
        }
        None
      case Some(i) => Some(i + 1)
  }

  /** `d.get(k)`. */
  function Lookup(d: Dict, k: string): Option<string> {
    match FindKey(d, k)
    case Some(i) => Some(d[i].value)
    case None => None
  }

  lemma LookupAt(d: Dict, i: nat)
    requires UniqueKeys(d) && i < |d|
    ensures Lookup(d, d[i].key) == Some(d[i].value)
  {
  }

  /** `d[k] = v`: an existing key keeps its position and takes the new value,
      a new key goes at the end. */
  function Put(d: Dict, k: string, v: string): (r: Dict)
    requires UniqueKeys(d)
    ensures UniqueKeys(r)
    ensures Lookup(r, k) == Some(v)
    ensures forall k' :: k' != k ==> Lookup(r, k') == Lookup(d, k')
    ensures KeyList(r) == if HasKey(d, k) then KeyList(d) else KeyList(d) + [k]
  {
    match FindKey(d, k)
    case Some(i) =>
      var r := d[i := Entry(k, v)];
      assert KeyList(r) == KeyList(d);
      forall k' | k' != k
        ensures Lookup(r, k') == Lookup(d, k')
      {
        if HasKey(d, k') {
          var j :| 0 <= j < |d| && d[j].key == k';
          LookupAt(d, j);
          LookupAt(r, j);
        } else {
          assert !HasKey(r, k');
        }
      }
      LookupAt(r, i);
      r
    case None =>
      var r := d + [Entry(k, v)];
      assert KeyList(r) == KeyList(d) + [k];
      forall k' | k' != k
        ensures Lookup(r, k') == Lookup(d, k')
      {
        if HasKey(d, k') {
          var j :| 0 <= j < |d| && d[j].key == k';
          LookupAt(d, j);
          LookupAt(r, j);
        } else {
          assert !HasKey(r, k');
        }
      }
      LookupAt(r, |d|);
      r
  }

  /** `d.pop(k)` for a key that is present: the other entries keep their values and order. */
  function Remove(d: Dict, k: string): (r: Dict)
    requires HasKey(d, k)
    ensures |r| == |d| - 1
  {
    var i := FindKey(d, k).value;
    d[..i] + d[i + 1..]
  }

  /** Removing an entry keeps the keys unique. */
  lemma RemoveKeepsUnique(d: Dict, k: string)
    requires UniqueKeys(d) && HasKey(d, k)
    ensures UniqueKeys(Remove(d, k))
  {
    var i := FindKey(d, k).value;
    var r := Remove(d, k);
    forall a, b | 0 <= a < b < |r| ensures r[a].key != r[b].key {
      var a' := if a < i then a else a + 1;
      var b' := if b < i then b else b + 1;
      assert r[a] == d[a'] && r[b] == d[b'];
    }
  }

  /** After the removal the key is absent and every other key maps as before. */
  lemma RemoveLookup(d: Dict, k: string)
    requires UniqueKeys(d) && HasKey(d, k)
    ensures Lookup(Remove(d, k), k) == None
    ensures forall k' :: k' != k ==> Lookup(Remove(d, k), k') == Lookup(d, k')
  {
    var i := FindKey(d, k).value;
    var r := Remove(d, k);
    RemoveKeepsUnique(d, k);
    assert !HasKey(r, k) by {
      forall j | 0 <= j < |r| ensures r[j].key != k {
        if j < i { assert r[j] == d[j]; } else { assert r[j] == d[j + 1]; }
      }
    }
    forall k' | k' != k
      ensures Lookup(r, k') == Lookup(d, k')
    {
      if HasKey(d, k') {
        var j :| 0 <= j < |d| && d[j].key == k';
        LookupAt(d, j);
        if j < i { assert r[j] == d[j]; LookupAt(r, j); } else { assert r[j - 1] == d[j]; LookupAt(r, j - 1); }
      } else {
        assert !HasKey(r, k') by {
          forall j | 0 <= j < |r| ensures r[j].key != k' {
            if j < i { assert r[j] == d[j]; } else { assert r[j] == d[j + 1]; }
          }
        }
      }
    }
  }

  /** The other entries keep their order, and the removed value is the only value lost. */
  lemma RemoveValues(d: Dict, k: string)
    requires UniqueKeys(d) && HasKey(d, k)
    ensures IsSubsequence(Remove(d, k), d)
    ensures multiset(ValueList(Remove(d, k))) + multiset{Lookup(d, k).value} == multiset(ValueList(d))
  {
    var i := FindKey(d, k).value;
    DropOneIsSubsequence(d, i);
    LookupAt(d, i);
    var pre, post := d[..i], d[i + 1..];
    assert d == pre + [d[i]] + post;
    ValueListConcat(pre + [d[i]], post);
    ValueListConcat(pre, [d[i]]);
    ValueListConcat(pre, post);
    assert ValueList([d[i]]) == [d[i].value];
  }

  lemma ValueListConcat(a: Dict, b: Dict)
    ensures ValueList(a + b) == ValueList(a) + ValueList(b)
  {
  }

  lemma {:induction false} DropOneIsSubsequence<T>(s: seq<T>, i: nat)
    requires i < |s|
    ensures IsSubsequence(s[..i] + s[i + 1..], s)
    decreases i
  {
    if i == 0 {
      assert s[..0] + s[1..] == s[1..];
      SubsequenceOfSelf(s[1..]);
      if |s[1..]| > 0 && s[1..][0] == s[0] {
        SubsequenceOfTail(s[1..], s);
      }
    } else {
      var t := s[..i] + s[i + 1..];
      assert t[0] == s[0];
      assert t[1..] == s[1..][..i - 1] + s[1..][i..];
      DropOneIsSubsequence(s[1..], i - 1);
    }
  }

  lemma {:induction false} SubsequenceOfSelf<T>(s: seq<T>)
    ensures IsSubsequence(s, s)
    decreases |s|
  {
    if |s| > 0 {
      SubsequenceOfSelf(s[1..]);
    }
  }

  /** No later piece has the same first line as piece `i`. */
  predicate IsLastWithKey(pieces: seq<string>, i: int)
    requires 0 <= i < |pieces|
  {
    forall j :: i < j < |pieces| ==> FirstLine(pieces[j]) != FirstLine(pieces[i])
  }

  /** `build_chunk_dict`: keys every section by its first line; when first lines
      collide the later section replaces the earlier one's text. */
  function BuildChunkDict(pieces: seq<string>): (d: Dict)
    ensures UniqueKeys(d)
    ensures |d| <= |pieces|
    ensures forall i :: 0 <= i < |pieces| && IsLastWithKey(pieces, i) ==>
              Lookup(d, FirstLine(pieces[i])) == Some(pieces[i])
    ensures forall j :: 0 <= j < |d| ==> exists i :: 0 <= i < |pieces| && FirstLine(pieces[i]) == d[j].key
    decreases |pieces|
  {
    if |pieces| == 0 then []
    else
      var d0 := BuildChunkDict(pieces[..|pieces| - 1]);
      BuildChunkDictStep(pieces, d0);
      Put(d0, FirstLine(pieces[|pieces| - 1]), pieces[|pieces| - 1])
  }

  /** One step of `build_chunk_dict`: storing the last section into the dict built
      from the earlier ones gives the dict's two properties for all sections. */
  lemma BuildChunkDictStep(pieces: seq<string>, d0: Dict)
    requires |pieces| > 0
    requires UniqueKeys(d0)
    requires |d0| <= |pieces| - 1
    requires forall i :: 0 <= i < |pieces| - 1 && IsLastWithKey(pieces[..|pieces| - 1], i) ==>
               Lookup(d0, FirstLine(pieces[i])) == Some(pieces[i])
    requires forall j :: 0 <= j < |d0| ==> exists i :: 0 <= i < |pieces| - 1 && FirstLine(pieces[i]) == d0[j].key
    ensures var d := Put(d0, FirstLine(pieces[|pieces| - 1]), pieces[|pieces| - 1]);
            && |d| <= |pieces|
            && (forall i :: 0 <= i < |pieces| && IsLastWithKey(pieces, i) ==>
                  Lookup(d, FirstLine(pieces[i])) == Some(pieces[i]))
            && (forall j :: 0 <= j < |d| ==> exists i :: 0 <= i < |pieces| && FirstLine(pieces[i]) == d[j].key)
  {
    var last := pieces[|pieces| - 1];
    var d := Put(d0, FirstLine(last), last);
    assert |KeyList(d)| == |d| && |KeyList(d0)| == |d0|;
    forall i | 0 <= i < |pieces| && IsLastWithKey(pieces, i)
      ensures Lookup(d, FirstLine(pieces[i])) == Some(pieces[i])
    {
      LastWithKeyStep(pieces, d0, i);
    }
    forall j | 0 <= j < |d|
      ensures exists i :: 0 <= i < |pieces| && FirstLine(pieces[i]) == d[j].key
    {
      KeyOriginStep(pieces, d0, j);
    }
  }

  lemma LastWithKeyStep(pieces: seq<string>, d0: Dict, i: nat)
    requires |pieces| > 0
    requires UniqueKeys(d0)
    requires forall i :: 0 <= i < |pieces| - 1 && IsLastWithKey(pieces[..|pieces| - 1], i) ==>
               Lookup(d0, FirstLine(pieces[i])) == Some(pieces[i])
    requires i < |pieces| && IsLastWithKey(pieces, i)
    ensures Lookup(Put(d0, FirstLine(pieces[|pieces| - 1]), pieces[|pieces| - 1]), FirstLine(pieces[i])) == Some(pieces[i])
  {
    var last := pieces[|pieces| - 1];
    if i < |pieces| - 1 {
      assert FirstLine(pieces[i]) != FirstLine(last);
      assert IsLastWithKey(pieces[..|pieces| - 1], i);
    }
  }

  lemma KeyOriginStep(pieces: seq<string>, d0: Dict, j: nat)
    requires |pieces| > 0
    requires UniqueKeys(d0)
    requires forall j :: 0 <= j < |d0| ==> exists i :: 0 <= i < |pieces| - 1 && FirstLine(pieces[i]) == d0[j].key
    requires j < |Put(d0, FirstLine(pieces[|pieces| - 1]), pieces[|pieces| - 1])|
    ensures exists i :: 0 <= i < |pieces| &&
              FirstLine(pieces[i]) == Put(d0, FirstLine(pieces[|pieces| - 1]), pieces[|pieces| - 1])[j].key
  {
    var d := Put(d0, FirstLine(pieces[|pieces| - 1]), pieces[|pieces| - 1]);
    assert |KeyList(d)| == |d| && |KeyList(d0)| == |d0|;
    assert d[j].key == KeyList(d)[j];
    if j < |d0| {
      assert KeyList(d0)[j] == d0[j].key;
    } else {
      assert FirstLine(pieces[|pieces| - 1]) == d[j].key;
    }
  }

  lemma HasKeyInKeyList(d: Dict, k: string)
    ensures HasKey(d, k) <==> k in KeyList(d)
  {
    if HasKey(d, k) {
      var j :| 0 <= j < |d| && d[j].key == k;
      assert KeyList(d)[j] == k;
    }
    if k in KeyList(d) {
      var j :| 0 <= j < |KeyList(d)| && KeyList(d)[j] == k;
      assert d[j].key == k;
    }
  }

  /** The first lines of the sections, in order. */
  function FirstLines(pieces: seq<string>): (ls: seq<string>)
    ensures |ls| == |pieces|
  {
    seq(|pieces|, i requires 0 <= i < |pieces| => FirstLine(pieces[i]))
  }

  /** The distinct items of `ls`, each where it first occurs. */
  function Distinct(ls: seq<string>): seq<string>
    decreases |ls|
  {
    if |ls| == 0 then []
    else
      var r := Distinct(ls[..|ls| - 1]);
      if ls[|ls| - 1] in r then r else r + [ls[|ls| - 1]]
  }

  /** Nothing is lost or invented. */
  lemma {:induction false} DistinctMembers(ls: seq<string>)
    ensures forall x :: x in Distinct(ls) <==> x in ls
    decreases |ls|
  {
    if |ls| > 0 {
      var q := ls[..|ls| - 1];
      DistinctMembers(q);
      assert ls == q + [ls[|ls| - 1]];
    }
  }

  /** Items keep the order of their first occurrences: for items at positions `a < b`,
      every occurrence of the later item comes after an occurrence of the earlier one. */
  lemma {:induction false} DistinctOrder(ls: seq<string>)
    ensures forall a, b, i :: 0 <= a < b < |Distinct(ls)| && 0 <= i < |ls| && ls[i] == Distinct(ls)[b] ==>
              Distinct(ls)[a] in ls[..i]
    decreases |ls|
  {
    if |ls| > 0 {
      var q := ls[..|ls| - 1];
      var x := ls[|ls| - 1];
      var r := Distinct(q);
      DistinctOrder(q);
      DistinctMembers(q);
      forall a, b, i | 0 <= a < b < |Distinct(ls)| && 0 <= i < |ls| && ls[i] == Distinct(ls)[b]
        ensures Distinct(ls)[a] in ls[..i]
      {
        assert Distinct(ls)[a] == r[a];
        if i < |q| {
          assert ls[i] == q[i] && ls[..i] == q[..i];
        } else {
          assert ls[..i] == q;
        }
      }
    }
  }

  /** The dict's keys are the distinct first lines, in order of first occurrence. */
  lemma {:induction false} BuildChunkDictKeys(pieces: seq<string>)
    ensures KeyList(BuildChunkDict(pieces)) == Distinct(FirstLines(pieces))
    decreases |pieces|
  {
    if |pieces| > 0 {
      var p := pieces[..|pieces| - 1];
      var last := pieces[|pieces| - 1];
      var d0 := BuildChunkDict(p);
      BuildChunkDictKeys(p);
      HasKeyInKeyList(d0, FirstLine(last));
      FirstLinesPrefix(pieces, |pieces| - 1);
    }
  }

  lemma FirstLinesPrefix(pieces: seq<string>, n: nat)
    requires n <= |pieces|
    ensures FirstLines(pieces)[..n] == FirstLines(pieces[..n])
  {
    forall j | 0 <= j < n ensures FirstLines(pieces)[..n][j] == FirstLines(pieces[..n])[j] {
      assert pieces[..n][j] == pieces[j];
    }
  }

  /** Some section before position `i` has first line `k`. */
  predicate KeyBefore(pieces: seq<string>, k: string, i: int) {
    exists i' :: 0 <= i' < i && i' < |pieces| && FirstLine(pieces[i']) == k
  }

  /** Every section's first line is a key. */
  lemma BuildChunkDictComplete(pieces: seq<string>)
    ensures forall i :: 0 <= i < |pieces| ==> HasKey(BuildChunkDict(pieces), FirstLine(pieces[i]))
  {
    var d := BuildChunkDict(pieces);
    var ls := FirstLines(pieces);
    BuildChunkDictKeys(pieces);
    DistinctMembers(ls);
    forall i | 0 <= i < |pieces| ensures HasKey(d, FirstLine(pieces[i])) {
      assert ls[i] in ls;
      HasKeyInKeyList(d, ls[i]);
    }
  }

  /** The keys keep the order in which first lines first occur: for keys at positions
      `a < b`, every section with the later key comes after a section with the earlier
      one. This is the order in which `find_best_match` meets equal scores. */
  lemma BuildChunkDictOrder(pieces: seq<string>)
    ensures var d := BuildChunkDict(pieces);
            forall a, b, i :: 0 <= a < b < |d| && 0 <= i < |pieces| && FirstLine(pieces[i]) == d[b].key ==>
              KeyBefore(pieces, d[a].key, i)
  {
    var d := BuildChunkDict(pieces);
    var ls := FirstLines(pieces);
    BuildChunkDictKeys(pieces);
    DistinctOrder(ls);
    assert |KeyList(d)| == |d|;
    forall a, b, i | 0 <= a < b < |d| && 0 <= i < |pieces| && FirstLine(pieces[i]) == d[b].key
      ensures KeyBefore(pieces, d[a].key, i)
    {
      assert KeyList(d)[a] == d[a].key && KeyList(d)[b] == d[b].key;
      assert ls[i] == Distinct(ls)[b];
      KeyBeforeOf(pieces, d[a].key, i);
    }
  }

  lemma KeyBeforeOf(pieces: seq<string>, k: string, i: nat)
    requires i <= |pieces| && k in FirstLines(pieces)[..i]
    ensures KeyBefore(pieces, k, i)
  {
    var i' :| 0 <= i' < i && FirstLines(pieces)[..i][i'] == k;
    assert FirstLine(pieces[i']) == k;
  }
}
