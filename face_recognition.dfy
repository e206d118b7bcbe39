/**
 * The matcher of utils/face_recognition.py: the embedding of an uploaded
 * photo is compared with every enrolled faculty member's stored embedding
 * and every member whose similarity reaches the threshold is reported, in
 * table order.
 *
 * Stored embeddings are raw float32 buffers, so a blob of n bytes decodes to
 * n / 4 numbers when n is a multiple of 4 and makes `np.frombuffer` raise
 * otherwise. The similarity (cosine similarity of the two L2-normalised
 * vectors) is a function parameter.
 */
module FaceRecognition {
  import opened Common
  import opened FaceUtils
  import opened DbHandler

  /** THRESHOLD */
  const Threshold: real := 0.6

  /** An uploaded file: its filename and what PIL decodes its bytes to. */
  datatype Upload = Upload(filename: string, decoded: Option<Picture>)

  /** `not image_file or not image_file.filename`: a file without a name is falsy. */
  predicate NoFile(upload: Option<Upload>)
  {
    upload.None? || upload.value.filename == ""
  }

  /** Similarity of the query with a stored float32 blob. */
  type Similarity = (Embedding, seq<byte>) -> real

  /** A stored embedding `np.frombuffer(..., dtype=float32)` rejects. */
  predicate Undecodable(row: FacultyRow)
  {
    row.faceEmbedding != [] && |row.faceEmbedding| % 4 != 0
  }

  /** A row the loop compares: it has an embedding of the query's dimension. */
  predicate Compared(row: FacultyRow, query: Embedding)
  {
    row.faceEmbedding != [] && |row.faceEmbedding| / 4 == |query|
  }

  /** A row whose similarity reaches the threshold. */
  predicate Clears(row: FacultyRow, query: Embedding, sim: Similarity)
  {
    Compared(row, query) && sim(query, row.faceEmbedding) >= Threshold
  }

  predicate AnyUndecodable(gallery: seq<FacultyRow>)
  {
    exists k :: 0 <= k < |gallery| && Undecodable(gallery[k])
  }

  /** The ids of the rows that clear the threshold, in table order. */
  function MatchIds(query: Embedding, gallery: seq<FacultyRow>, sim: Similarity): seq<string>
  {
    if gallery == [] then []
    else
      var last := gallery[|gallery| - 1];
      MatchIds(query, gallery[..|gallery| - 1], sim)
        + (if Clears(last, query, sim) then [last.facultyId] else [])
  }

  /**
   * What `recognize_faces` returns: no file or no embedding gives []; otherwise the rows
   * are scanned in order, rows without an embedding or of another dimension
   * are skipped, and a blob that cannot be decoded raises inside the `try`,
   * whose handler returns [] for the whole call.
   */
  function Recognized(upload: Option<Upload>, backend: Backend, gallery: seq<FacultyRow>, sim: Similarity): seq<string>
  {
    if NoFile(upload) then []
    else
      var query := GetEmbeddingFromImage(FileLike(upload.value.decoded), backend);
      if query.None? || AnyUndecodable(gallery) then [] else MatchIds(query.value, gallery, sim)
  }

  /** `recognize_faces`, one gallery row per loop step. */
  method RecognizeFaces(upload: Option<Upload>, backend: Backend, gallery: seq<FacultyRow>, sim: Similarity)
    returns (ids: seq<string>)
    ensures ids == Recognized(upload, backend, gallery, sim)
  {
    if NoFile(upload) {
      return [];
    }
    var query := GetEmbeddingFromImage(FileLike(upload.value.decoded), backend);
    if query.None? {
      return [];
    }
    var q := query.value;
    ids := [];
    for i := 0 to |gallery|
      invariant forall k :: 0 <= k < i ==> !Undecodable(gallery[k])
      invariant ids == MatchIds(q, gallery[..i], sim)
    {
      var row := gallery[i];
      assert gallery[..i + 1][..i] == gallery[..i];
      if row.faceEmbedding == [] {
        continue;
      }
      if |row.faceEmbedding| % 4 != 0 {
        return [];
      }
      if |row.faceEmbedding| / 4 != |q| {
        continue;
      }
      if sim(q, row.faceEmbedding) >= Threshold {
        ids := ids + [row.facultyId];
      }
    }
    assert gallery[..|gallery|] == gallery;
  }

  /** An id is reported iff some row with that id clears the threshold. */
  lemma {:induction false} MatchIdsMembership(query: Embedding, gallery: seq<FacultyRow>, sim: Similarity, id: string)
    ensures id in MatchIds(query, gallery, sim) <==>
              exists k :: 0 <= k < |gallery| && gallery[k].facultyId == id && Clears(gallery[k], query, sim)
  {
    if gallery != [] {
      var init := gallery[..|gallery| - 1];
      MatchIdsMembership(query, init, sim, id);
      if exists k :: 0 <= k < |init| && init[k].facultyId == id && Clears(init[k], query, sim) {
        var k :| 0 <= k < |init| && init[k].facultyId == id && Clears(init[k], query, sim);
        assert gallery[k] == init[k];
      }
      if exists k :: 0 <= k < |gallery| && gallery[k].facultyId == id && Clears(gallery[k], query, sim) {
        var k :| 0 <= k < |gallery| && gallery[k].facultyId == id && Clears(gallery[k], query, sim);
        if k < |init| {
          assert init[k] == gallery[k];
        }
      }
    }
  }

  /** Every reported id belongs to an enrolled row whose embedding clears the threshold. */
  lemma RecognizedAreEnrolled(upload: Option<Upload>, backend: Backend, gallery: seq<FacultyRow>, sim: Similarity, id: string)
    requires id in Recognized(upload, backend, gallery, sim)
    ensures HasFaculty(gallery, id)
    ensures !NoFile(upload)
    ensures var query := GetEmbeddingFromImage(FileLike(upload.value.decoded), backend);
            query.Some? && exists k :: 0 <= k < |gallery| && gallery[k].facultyId == id && Clears(gallery[k], query.value, sim)
  {
    var query := GetEmbeddingFromImage(FileLike(upload.value.decoded), backend);
    MatchIdsMembership(query.value, gallery, sim, id);
  }

  /** Rows are judged one by one: the matches of a concatenation are the concatenated matches. */
  lemma {:induction false} MatchIdsAppend(query: Embedding, a: seq<FacultyRow>, b: seq<FacultyRow>, sim: Similarity)
    ensures MatchIds(query, a + b, sim) == MatchIds(query, a, sim) + MatchIds(query, b, sim)
    decreases |b|
  {
    if b == [] {
      assert a + b == a;
    } else {
      var init := b[..|b| - 1];
      assert (a + b)[..|a + b| - 1] == a + init;
      assert (a + b)[|a + b| - 1] == b[|b| - 1];
      MatchIdsAppend(query, a, init, sim);
    }
  }

  /** The report lists the ids of the clearing rows in table order, at most one per row. */
  lemma {:induction false} MatchIdsBounded(query: Embedding, gallery: seq<FacultyRow>, sim: Similarity)
    ensures |MatchIds(query, gallery, sim)| <= |gallery|
  {
    if gallery != [] {
      MatchIdsBounded(query, gallery[..|gallery| - 1], sim);
    }
  }

  /**
   * Every clearing row is reported, not only the best one: when exactly the
   * rows k1 < k2 clear, both ids come back, k1's first.
   */
  lemma TwoClearingRows(query: Embedding, gallery: seq<FacultyRow>, sim: Similarity, k1: nat, k2: nat)
    requires k1 < k2 < |gallery|
    requires forall k :: 0 <= k < |gallery| ==> (Clears(gallery[k], query, sim) <==> k == k1 || k == k2)
    ensures MatchIds(query, gallery, sim) == [gallery[k1].facultyId, gallery[k2].facultyId]
  {
    var id1, id2 := gallery[k1].facultyId, gallery[k2].facultyId;
    // Up to and including k1: only k1 clears.
    assert MatchIds(query, gallery[..k1 + 1], sim) == [id1] by {
      NoneClear(query, gallery[..k1], sim);
      MatchIdsExtend(query, gallery, sim, k1);
    }
    // Up to k2: nothing between k1 and k2 clears.
    assert MatchIds(query, gallery[..k2], sim) == [id1] by {
      var between := gallery[k1 + 1..k2];
      NoneClear(query, between, sim);
      assert gallery[..k2] == gallery[..k1 + 1] + between;
      MatchIdsAppend(query, gallery[..k1 + 1], between, sim);
    }
    // Up to and including k2.
    assert MatchIds(query, gallery[..k2 + 1], sim) == [id1, id2] by {
      MatchIdsExtend(query, gallery, sim, k2);
    }
    // The rest, where nothing clears.
    var rest := gallery[k2 + 1..];
    assert MatchIds(query, rest, sim) == [] by {
      NoneClear(query, rest, sim);
    }
    assert gallery == gallery[..k2 + 1] + rest;
    MatchIdsAppend(query, gallery[..k2 + 1], rest, sim);
  }

  /** Scanning one more row adds its id exactly when it clears. */
  lemma MatchIdsExtend(query: Embedding, gallery: seq<FacultyRow>, sim: Similarity, k: nat)
    requires k < |gallery|
    ensures MatchIds(query, gallery[..k + 1], sim)
            == MatchIds(query, gallery[..k], sim) + (if Clears(gallery[k], query, sim) then [gallery[k].facultyId] else [])
  {
    assert gallery[..k + 1][..k] == gallery[..k];
  }

  /** A run of rows none of which clears contributes nothing. */
  lemma {:induction false} NoneClear(query: Embedding, rows: seq<FacultyRow>, sim: Similarity)
    requires forall k :: 0 <= k < |rows| ==> !Clears(rows[k], query, sim)
    ensures MatchIds(query, rows, sim) == []
  {
    if rows != [] {
      var init := rows[..|rows| - 1];
      assert forall k :: 0 <= k < |init| ==> init[k] == rows[k];
      NoneClear(query, init, sim);
    }
  }

  /** Four bytes: one float32 in little-endian order. */
  type Word = w: seq<byte> | |w| == 4 witness [0, 0, 0, 0]

  /** `np.asarray(e, dtype=np.float32).tobytes()`, with the per-number rounding a parameter. */
  function Float32Bytes(e: Embedding, f32: real -> Word): (b: seq<byte>)
    ensures |b| == 4 * |e|
  {
    if e == [] then [] else f32(e[0]) + Float32Bytes(e[1..], f32)
  }

  /**
   * A row enrolled with a non-empty embedding of the query's dimension is
   * decodable and compared: its blob is never skipped and never raises.
   */
  lemma EnrolledRowIsCompared(row: FacultyRow, e: Embedding, f32: real -> Word, query: Embedding)
    requires row.faceEmbedding == Float32Bytes(e, f32) && e != [] && |e| == |query|
    ensures Compared(row, query) && !Undecodable(row)
  {
  }
}
