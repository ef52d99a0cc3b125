/** The records the later stages read and write: a chunk row of the chunked JSON
    file (`[level, title, page, content]`), the payload stored with each vector
    point, and the "latest main chapter" bookkeeping that both context generation
    and the embedding upload do while walking the rows in order. */
module Records {
  import opened Base

  /** One row of the chunked JSON file. */
  datatype Chunk = Chunk(level: int, title: string, page: int, content: string)

  /** The payload of a vector point. */
  datatype Payload = Payload(content: string, mainChapter: string, chapter: string, manual: string, page: int)

  /** A vector point as stored and as returned by search; the vectors are left out. */
  datatype Point = Point(id: nat, payload: Payload)

  /** Index of the latest level-1 row at or before row `i`, if there is one. */
  function LatestRoot(rows: seq<Chunk>, i: nat): Option<nat>
    requires i < |rows|
  {
    if rows[i].level == 1 then Some(i)
    else if i == 0 then None
    else LatestRoot(rows, i - 1)
  }

  /** `LatestRoot` finds a level-1 row at or before `i` with no level-1 row after it
      up to `i`, and finds none exactly when there is none. */
  lemma {:induction false} LatestRootIsLatest(rows: seq<Chunk>, i: nat)
    requires i < |rows|
    ensures LatestRoot(rows, i).Some? ==>
              var r := LatestRoot(rows, i).value;
              r <= i && rows[r].level == 1 && forall j :: r < j <= i ==> rows[j].level != 1
    ensures LatestRoot(rows, i).None? <==> forall j :: 0 <= j <= i ==> rows[j].level != 1
    decreases i
  {
    if rows[i].level != 1 && i > 0 {
      LatestRootIsLatest(rows, i - 1);
    }
  }

  /** `root_chapter_ix` of context generation once row `i` has been read: the latest
      level-1 row, or 0 before the first one. */
  function RootIndex(rows: seq<Chunk>, i: nat): nat
    requires i < |rows|
  {
    match LatestRoot(rows, i)
    case Some(j) => j
    case None => 0
  }

  /** `root_chapter_ix` is at most `i`, with no main-chapter row after it up to `i`;
      it is at or after every main-chapter row up to `i`. */
  lemma RootIndexIsLatest(rows: seq<Chunk>, i: nat)
    requires i < |rows|
    ensures RootIndex(rows, i) <= i
    ensures forall j :: RootIndex(rows, i) < j <= i ==> rows[j].level != 1
    ensures forall j :: 0 <= j <= i && rows[j].level == 1 ==> j <= RootIndex(rows, i)
  {
    LatestRootIsLatest(rows, i);
  }

  /** `root_chapter` of the embedding upload once row `i` has been read: the title of
      the latest level-1 row, or "" before the first one. */
  function MainChapter(rows: seq<Chunk>, i: nat): string
    requires i < |rows|
  {
    LatestRootIsLatest(rows, i);
    match LatestRoot(rows, i)
    case Some(j) => rows[j].title
    case None => ""
  }

  /** `root_chapter` is the title of a level-1 row at or before `i` with no level-1 row
      after it up to `i`, or "" when no row up to `i` has level 1. */
  lemma MainChapterIsLatestTitle(rows: seq<Chunk>, i: nat)
    requires i < |rows|
    ensures (forall j :: 0 <= j <= i ==> rows[j].level != 1) ==> MainChapter(rows, i) == ""
    ensures (exists j :: 0 <= j <= i && rows[j].level == 1) ==>
              exists r :: 0 <= r <= i && rows[r].level == 1 && MainChapter(rows, i) == rows[r].title &&
                (forall j :: r < j <= i ==> rows[j].level != 1)
  {
    LatestRootIsLatest(rows, i);
  }

  /** Reading one more row: a level-1 row becomes the main chapter, any other row
      keeps the one before it. */
  lemma LatestRootStep(rows: seq<Chunk>, i: nat)
    requires 0 < i < |rows|
    ensures rows[i].level == 1 ==> LatestRoot(rows, i) == Some(i)
    ensures rows[i].level != 1 ==> LatestRoot(rows, i) == LatestRoot(rows, i - 1)
  {
  }
}
