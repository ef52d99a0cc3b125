/** `EmbeddingUploader` of src/code/embedding.py: reading the manual's metadata,
    validating the collection's vector configuration, and building one point per
    chunk row with its payload. The vector store is described by the parameters
    of its existing collection (`None` when the collection does not exist yet);
    the file system is the parameter `files(path)`, JSON parsing is `parse(text)`.
    Encoding and the upsert itself are not modelled. */
module Embedding {
  import opened Base
  import opened Text
  import opened Records

  /** A parsed metadata object; only string values are modelled. */
  type Meta = map<string, string>

  const UnknownManual := "Unknown Manual"
  const SparseModelName := "bm25"

  /** `read_metadata(file_path)`: a missing file raises; text that does not parse
      gives empty metadata and `found == false`. */
  function ReadMetadata(file: Option<string>, parse: string -> Option<Meta>): (r: Result<(Meta, bool)>)
    ensures file.None? <==> r == Err(FileNotFound)
    ensures r.Ok? ==> (r.value.1 <==> parse(Strip(file.value)).Some?)
    ensures r.Ok? && r.value.1 ==> r.value.0 == parse(Strip(file.value)).value
    ensures r.Ok? && !r.value.1 ==> r.value.0 == map[]
  {
    if file.None? then Err(FileNotFound)
    else
      match parse(Strip(file.value))
      case Some(meta) => Ok((meta, true))
      case None => Ok((map[], false))
  }

  /** `read_metadata` strips the text before parsing, so a file whose text has
      already been stripped reads the same metadata. */
  lemma ReadMetadataOfStripped(file: string, parse: string -> Option<Meta>)
    ensures ReadMetadata(Some(Strip(file)), parse) == ReadMetadata(Some(file), parse)
  {
    StripIdempotent(file);
  }

  /** `meta.get('title', 'Unknown Manual')`. */
  function ManualTitle(meta: Meta): (t: string)
    ensures "title" in meta ==> t == meta["title"]
    ensures "title" !in meta ==> t == UnknownManual
  {
    if "title" in meta then meta["title"] else UnknownManual
  }

  /** `s.replace(pat, rep)`: every non-overlapping occurrence, left to right. */
  function ReplaceAll(s: string, pat: string, rep: string): string
    requires |pat| > 0
    decreases |s|
  {
    if |s| < |pat| then s
    else if s[..|pat|] == pat then rep + ReplaceAll(s[|pat|..], pat, rep)
    else [s[0]] + ReplaceAll(s[1..], pat, rep)
  }

  /** A path without the suffix is left as it is. */
  lemma {:induction false} ReplaceAllAbsent(s: string, pat: string, rep: string)
    requires |pat| > 0
    requires forall i :: 0 <= i <= |s| - |pat| ==> !OccursAt(pat, s, i)
    ensures ReplaceAll(s, pat, rep) == s
    decreases |s|
  {
    if |s| >= |pat| {
      assert !OccursAt(pat, s, 0);
      assert s[..|pat|] != pat;
      forall i | 0 <= i <= |s[1..]| - |pat| ensures !OccursAt(pat, s[1..], i) {
        assert s[1..][i..i + |pat|] == s[i + 1..i + 1 + |pat|];
        assert !OccursAt(pat, s, i + 1);
      }
      ReplaceAllAbsent(s[1..], pat, rep);
    }
  }

  /** The metadata path of a chunked file: `content_path.replace("_chunked.json", "_meta.json")`. */
  function MetaPath(contentPath: string): string
  {
    ReplaceAll(contentPath, "_chunked.json", "_meta.json")
  }

  /** For `<stem>_chunked.json`, where the stem holds no other occurrence of the
      suffix, the metadata file is `<stem>_meta.json`. */
  lemma {:induction false} MetaPathOfChunkedFile(stem: string)
    requires forall i :: 0 <= i < |stem| ==> !OccursAt("_chunked.json", stem + "_chunked.json", i)
    ensures MetaPath(stem + "_chunked.json") == stem + "_meta.json"
    decreases |stem|
  {
    var suffix := "_chunked.json";
    var s := stem + suffix;
    if |stem| == 0 {
      assert s == suffix;
      assert s[..|suffix|] == suffix;
      assert s[|suffix|..] == [];
    } else {
      assert !OccursAt(suffix, s, 0);
      assert s[..|suffix|] != suffix;
      assert s[1..] == stem[1..] + suffix;
      forall i | 0 <= i < |stem[1..]| ensures !OccursAt(suffix, stem[1..] + suffix, i) {
        assert (stem[1..] + suffix)[i..i + |suffix|] == s[i + 1..i + 1 + |suffix|];
        assert !OccursAt(suffix, s, i + 1);
      }
      MetaPathOfChunkedFile(stem[1..]);
    }
  }

  // ---------------------------------------------------------------------------
  // Collection configuration

  /** What `list(vectors.keys())` or `list(vectors)` yields: a vector name for a named
      configuration, a `(field, value)` pair for a single unnamed `VectorParams`. */
  datatype VectorKey = Name(name: string) | Field(field: string)

  /** The dense vector configuration of a collection. */
  datatype VectorsConfig =
    | Named(names: seq<string>)    // a dict from vector name to `VectorParams`
    | Unnamed                      // one `VectorParams` object

  /** The fields a `VectorParams` object iterates over. */
  const VectorParamsFields: seq<string> :=
    ["size", "distance", "hnsw_config", "quantization_config", "on_disk", "datatype", "multivector_config"]

  function Keys(v: VectorsConfig): (ks: seq<VectorKey>)
  {
    match v
    case Named(names) => seq(|names|, i requires 0 <= i < |names| => Name(names[i]))
    case Unnamed => seq(|VectorParamsFields|, i requires 0 <= i < |VectorParamsFields| => Field(VectorParamsFields[i]))
  }

  /** The parameters of a collection: dense and sparse vector configurations. */
  datatype Params = Params(vectors: Option<VectorsConfig>, sparse: Option<seq<string>>)

  /** The dense-vector validation: the configuration must exist and its keys must be
      exactly `[model_name]`, which only a named configuration with that single name
      satisfies. */
  function CheckDense(p: Params, model: string): (r: Result<()>)
    ensures r.Ok? <==> p.vectors == Some(Named([model]))
    ensures p.vectors.None? <==> r == Err(MissingVectors)
    ensures r.Err? ==> r.error == MissingVectors || r.error == VectorsMismatch
  {
    if p.vectors.None? then Err(MissingVectors)
    else
      KeysSingleName(p.vectors.value, model);
      if Keys(p.vectors.value) == [Name(model)] then Ok(()) else Err(VectorsMismatch)
  }

  /** The keys are exactly `[model]` only for a named configuration holding that one name. */
  lemma KeysSingleName(v: VectorsConfig, model: string)
    ensures Keys(v) == [Name(model)] <==> v == Named([model])
  {
    match v
    case Named(names) =>
      if Keys(v) == [Name(model)] {
        assert |names| == 1 && Keys(v)[0] == Name(names[0]);
        assert names == [model];
      }
      if names == [model] {
        assert Keys(v) == [Name(model)];
      }
    case Unnamed =>
      assert Keys(v)[0] == Field("size");
  }

  /** The sparse-vector validation of the hybrid upload: the keys must be exactly `["bm25"]`. */
  function CheckSparse(p: Params): (r: Result<()>)
    ensures r.Ok? <==> p.sparse == Some([SparseModelName])
    ensures p.sparse.None? <==> r == Err(MissingSparseVectors)
    ensures r.Err? ==> r.error == MissingSparseVectors || r.error == SparseMismatch
  {
    if p.sparse.None? then Err(MissingSparseVectors)
    else if p.sparse.value == [SparseModelName] then Ok(())
    else Err(SparseMismatch)
  }

  /** The collection `upload_hybrid_embeddings` creates: a dense vector named after
      the model and a sparse vector named "bm25". */
  function HybridParams(model: string): Params
  {
    Params(Some(Named([model])), Some([SparseModelName]))
  }

  /** The collection `upload_embeddings` creates, as written: one unnamed dense vector. */
  function DenseParamsAsWritten(model: string): Params
  {
    Params(Some(Unnamed), None)
  }

  /** The collection `upload_embeddings` evidently means to create: one dense vector
      named after the model, as the hybrid upload does. */
  function DenseParams(model: string): Params
  {
    Params(Some(Named([model])), None)
  }

  // ---------------------------------------------------------------------------
  // Points

  /** The point for row `i`: its index as id, its content, title and page, the title
      of the latest main chapter and the manual's title. */
  function PointAt(rows: seq<Chunk>, i: nat, manual: string): Point
    requires i < |rows|
  {
    Point(i, Payload(rows[i].content, MainChapter(rows, i), rows[i].title, manual, rows[i].page))
  }

  function Points(rows: seq<Chunk>, manual: string): (ps: seq<Point>)
    ensures |ps| == |rows|
    ensures forall i :: 0 <= i < |rows| ==> ps[i] == PointAt(rows, i, manual)
  {
    seq(|rows|, i requires 0 <= i < |rows| => PointAt(rows, i, manual))
  }

  /** The point-building loop of both uploads, carrying `root_chapter` from row to row. */
  method BuildPoints(rows: seq<Chunk>, manual: string) returns (points: seq<Point>)
    ensures points == Points(rows, manual)
    ensures |points| == |rows|
    ensures forall i :: 0 <= i < |rows| ==> points[i].id == i && points[i].payload.manual == manual
    ensures forall i :: 0 <= i < |rows| ==> points[i].payload.mainChapter == MainChapter(rows, i)
    ensures forall i :: 0 <= i < |rows| ==>
              && points[i].payload.content == rows[i].content
              && points[i].payload.chapter == rows[i].title
              && points[i].payload.page == rows[i].page
  {
    points := [];
    var rootChapter := "";
    var index := 0;
    while index < |rows|
      invariant index <= |rows|
      invariant index > 0 ==> rootChapter == MainChapter(rows, index - 1)
      invariant index == 0 ==> rootChapter == ""
      invariant |points| == index
      invariant forall i :: 0 <= i < index ==> points[i] == PointAt(rows, i, manual)
    {
      var chapter := rows[index];
      if chapter.level == 1 {
        rootChapter := chapter.title;
      }
      assert rootChapter == MainChapter(rows, index);
      points := points + [Point(index, Payload(chapter.content, rootChapter, chapter.title, manual, chapter.page))];
      index := index + 1;
    }
  }

  /** `upload_embeddings` up to the upsert, with the collection it creates corrected to
      a named dense vector: a new collection always passes validation; an existing
      one passes exactly when its only dense vector is named after the model. */
  function UploadEmbeddings(existing: Option<Params>, model: string, meta: Meta, rows: seq<Chunk>): (r: Result<seq<Point>>)
    ensures existing.None? ==> r == Ok(Points(rows, ManualTitle(meta)))
    ensures existing.Some? ==> (r.Ok? <==> existing.value.vectors == Some(Named([model])))
    ensures r.Ok? ==> r.value == Points(rows, ManualTitle(meta))
  {
    var params := if existing.Some? then existing.value else DenseParams(model);
    var _ :- CheckDense(params, model);
    Ok(Points(rows, ManualTitle(meta)))
  }

  /** `upload_embeddings` as written: the collection it creates is validated against
      the same `[model_name]` rule. */
  function UploadEmbeddingsAsWritten(existing: Option<Params>, model: string, meta: Meta, rows: seq<Chunk>): (r: Result<seq<Point>>)
    ensures existing.Some? ==> r == UploadEmbeddings(existing, model, meta, rows)
  {
    var params := if existing.Some? then existing.value else DenseParamsAsWritten(model);
    var _ :- CheckDense(params, model);
    Ok(Points(rows, ManualTitle(meta)))
  }

  /** As written, an upload into a collection that does not exist yet always fails its
      own validation: the unnamed configuration it creates never has the keys
      `[model_name]`. */
  lemma UploadEmbeddingsAsWrittenRejectsNewCollection(model: string, meta: Meta, rows: seq<Chunk>)
    ensures UploadEmbeddingsAsWritten(None, model, meta, rows) == Err(VectorsMismatch)
    ensures UploadEmbeddings(None, model, meta, rows).Ok?
  {
  }

  /** `upload_hybrid_embeddings` up to the upsert: validate (creating the collection
      if needed), read the metadata next to the chunked file, build the points. */
  function UploadHybridEmbeddings(existing: Option<Params>, model: string, contentPath: string,
                                  files: string -> Option<string>, parse: string -> Option<Meta>,
                                  rows: seq<Chunk>): (r: Result<seq<Point>>)
    ensures existing.Some? && existing.value.vectors != Some(Named([model])) ==>
              r.Err? && (r.error == MissingVectors || r.error == VectorsMismatch)
    ensures existing.Some? && existing.value.vectors == Some(Named([model])) && existing.value.sparse != Some([SparseModelName]) ==>
              r.Err? && (r.error == MissingSparseVectors || r.error == SparseMismatch)
    ensures r.Ok? <==>
              && (existing.None? || existing.value == Params(Some(Named([model])), Some([SparseModelName])))
              && files(MetaPath(contentPath)).Some?
    ensures r.Ok? ==>
              var parsed := parse(Strip(files(MetaPath(contentPath)).value));
              r.value == Points(rows, if parsed.Some? then ManualTitle(parsed.value) else UnknownManual)
  {
    var params := if existing.Some? then existing.value else HybridParams(model);
    var _ :- CheckDense(params, model);
    var _ :- CheckSparse(params);
    var metaRead :- ReadMetadata(files(MetaPath(contentPath)), parse);
    var (meta, found) := metaRead;
    var title := if found then ManualTitle(meta) else UnknownManual;
    Ok(Points(rows, title))
  }

  /** Falling back to "Unknown Manual" when the metadata does not parse is the same as
      looking the title up in the empty metadata `read_metadata` leaves behind. */
  lemma HybridTitleIsMetadataTitle(file: string, parse: string -> Option<Meta>)
    ensures var m := ReadMetadata(Some(file), parse).value;
            (if m.1 then ManualTitle(m.0) else UnknownManual) == ManualTitle(m.0)
  {
  }
}
