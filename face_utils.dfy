/**
 * Face localisation, embedding extraction and enrollment averaging
 * (face_utils.py). The Haar-cascade detector and the FaceNet network are
 * opaque: they are the two functions of a `Backend` handed to every call.
 * Pixel values, the float pre-processing and the mean of embeddings stay
 * abstract; what is modelled is which box is chosen, which pixels are cut
 * out, which channel order reaches the detector and which images count.
 */
module FaceUtils {
  import opened Common

  /** One pixel of an ndarray: three channel values in the array's order. */
  datatype Pixel = Pixel(c0: int, c1: int, c2: int)

  /** An image array: rows of pixels (`frame[row][column]`). */
  type Frame = seq<seq<Pixel>>

  /** A decoded picture as PIL's `convert("RGB")` yields it: c0 red, c2 blue. */
  type Picture = Frame

  /** A face embedding; its numeric content is opaque. */
  type Embedding = seq<real>

  /** A detector box `(x, y, w, h)`; the cascade reports non-negative values. */
  datatype Box = Box(x: nat, y: nat, w: nat, h: nat)

  /**
   * The external models: `detect` stands for `detectMultiScale` on the
   * grey version of the frame, `embed` for FaceNet applied to the
   * pre-processed crop (None when that raises).
   */
  datatype Backend = Backend(detect: Frame -> seq<Box>, embed: Frame -> Option<Embedding>)

  function Area(b: Box): nat
  {
    b.w * b.h
  }

  // ---------------------------------------------------------------------------
  // Choosing the face (face_utils.py:22-28)
  // ---------------------------------------------------------------------------

  /** Place b after every box whose area is at least its own. */
  function InsertByArea(b: Box, s: seq<Box>): (r: seq<Box>)
    ensures |r| == |s| + 1
  {
    if s == [] then [b]
    else if Area(b) > Area(s[0]) then [b] + s
    else [s[0]] + InsertByArea(b, s[1..])
  }

  /** `sorted(faces, key=lambda b: b[2] * b[3], reverse=True)`, a stable sort. */
  function SortByAreaDesc(boxes: seq<Box>): (r: seq<Box>)
    ensures |r| == |boxes|
  {
    if boxes == [] then []
    else InsertByArea(boxes[|boxes| - 1], SortByAreaDesc(boxes[..|boxes| - 1]))
  }

  /**
   * The box the detector reported first among those of largest area: no box
   * is larger and every earlier box is strictly smaller.
   */
  function LargestBoxIndex(boxes: seq<Box>): (k: nat)
    requires |boxes| > 0
    ensures k < |boxes|
    ensures forall i :: 0 <= i < |boxes| ==> Area(boxes[i]) <= Area(boxes[k])
    ensures forall i :: 0 <= i < k ==> Area(boxes[i]) < Area(boxes[k])
  {
    if |boxes| == 1 then 0
    else
      var k := LargestBoxIndex(boxes[..|boxes| - 1]);
      if Area(boxes[|boxes| - 1]) > Area(boxes[k]) then |boxes| - 1 else k
  }

  /** The head of the stable descending sort is the first largest box. */
  lemma {:induction false} SortedHeadIsLargest(boxes: seq<Box>)
    requires |boxes| > 0
    ensures SortByAreaDesc(boxes)[0] == boxes[LargestBoxIndex(boxes)]
  {
    if |boxes| > 1 {
      var prefix := boxes[..|boxes| - 1];
      SortedHeadIsLargest(prefix);
      assert forall i :: 0 <= i < |prefix| ==> prefix[i] == boxes[i];
    }
  }

  // ---------------------------------------------------------------------------
  // Cropping (face_utils.py:29)
  // ---------------------------------------------------------------------------

  function Min(a: int, b: int): int
  {
    if a < b then a else b
  }

  /** Python/numpy `s[lo:hi]` for 0 <= lo <= hi: both bounds clamp to the length. */
  function PySlice<T>(s: seq<T>, lo: nat, hi: nat): (r: seq<T>)
    requires lo <= hi
    ensures |r| == Min(hi, |s|) - Min(lo, |s|)
    ensures forall i :: 0 <= i < |r| ==> r[i] == s[lo + i]
  {
    s[Min(lo, |s|)..Min(hi, |s|)]
  }

  /**
   * `frame[y:y+h, x:x+w]`: the rows y..y+h of the frame, each cut to the
   * columns x..x+w, both clamped to the frame.
   */
  function Crop(frame: Frame, b: Box): (r: Frame)
    ensures |r| == Min(b.y + b.h, |frame|) - Min(b.y, |frame|)
    ensures forall i :: 0 <= i < |r| ==>
              |r[i]| == Min(b.x + b.w, |frame[b.y + i]|) - Min(b.x, |frame[b.y + i]|)
    ensures forall i, j :: 0 <= i < |r| && 0 <= j < |r[i]| ==>
              b.x + j < |frame[b.y + i]| && r[i][j] == frame[b.y + i][b.x + j]
  {
    var rows := PySlice(frame, b.y, b.y + b.h);
    seq(|rows|, i requires 0 <= i < |rows| => PySlice(rows[i], b.x, b.x + b.w))
  }

  /** `get_face_from_frame`: None when nothing is detected, else the crop of the largest box. */
  function GetFaceFromFrame(frame: Frame, backend: Backend): (r: Option<Frame>)
    ensures r.None? <==> backend.detect(frame) == []
    ensures r.Some? ==> r.value == Crop(frame, backend.detect(frame)[LargestBoxIndex(backend.detect(frame))])
  {
    var faces := backend.detect(frame);
    if |faces| == 0 then None
    else
      SortedHeadIsLargest(faces);
      Some(Crop(frame, SortByAreaDesc(faces)[0]))
  }

  // ---------------------------------------------------------------------------
  // Extraction (face_utils.py:50-81)
  // ---------------------------------------------------------------------------

  /** What `get_embedding_from_image` may be handed. */
  datatype ImageInput =
    | FileLike(decoded: Option<Picture>)  // FileStorage / BytesIO; None when Image.open or convert raises
    | PilImage(picture: Picture)          // a PIL image
    | NdArray(frame: Frame)               // an array, used as it is
    | Unsupported                         // anything else

  /** `[:, :, ::-1]`: reverse the channel order of every pixel. */
  function ReverseChannels(f: Frame): (r: Frame)
    ensures |r| == |f|
    ensures forall i :: 0 <= i < |f| ==> |r[i]| == |f[i]|
    ensures forall i, j :: 0 <= i < |f| && 0 <= j < |f[i]| ==>
              r[i][j] == Pixel(f[i][j].c2, f[i][j].c1, f[i][j].c0)
  {
    seq(|f|, i requires 0 <= i < |f| =>
      seq(|f[i]|, j requires 0 <= j < |f[i]| => Pixel(f[i][j].c2, f[i][j].c1, f[i][j].c0)))
  }

  lemma ReverseChannelsInvolution(f: Frame)
    ensures ReverseChannels(ReverseChannels(f)) == f
  {
    var g := ReverseChannels(ReverseChannels(f));
    assert forall i :: 0 <= i < |f| ==> g[i] == f[i];
  }

  /**
   * Step 1: the array the detector will see. Files and PIL images are
   * decoded to RGB and flipped to BGR; arrays pass unchanged; anything else,
   * or a file that cannot be opened, gives no frame.
   */
  function ToFrame(image: ImageInput): (r: Option<Frame>)
    ensures image.Unsupported? || image == FileLike(None) <==> r.None?
    ensures image.NdArray? ==> r == Some(image.frame)
    ensures image.PilImage? ==> r == Some(ReverseChannels(image.picture))
    ensures image.FileLike? && image.decoded.Some? ==> r == Some(ReverseChannels(image.decoded.value))
  {
    match image
    case FileLike(None) => None
    case FileLike(Some(p)) => Some(ReverseChannels(p))
    case PilImage(p) => Some(ReverseChannels(p))
    case NdArray(f) => Some(f)
    case Unsupported => None
  }

  /**
   * `get_embedding_from_image`: None for an unsupported input, an unreadable
   * file, a frame without a detected face or a failing network; otherwise the
   * network's embedding of the largest face.
   */
  function GetEmbeddingFromImage(image: ImageInput, backend: Backend): (r: Option<Embedding>)
    ensures image.Unsupported? ==> r.None?
    ensures r.Some? <==> ToFrame(image).Some? && GetFaceFromFrame(ToFrame(image).value, backend).Some?
                         && backend.embed(GetFaceFromFrame(ToFrame(image).value, backend).value).Some?
    ensures r.Some? ==> backend.detect(ToFrame(image).value) != []
  {
    match ToFrame(image)
    case None => None
    case Some(frame) =>
      match GetFaceFromFrame(frame, backend)
      case None => None
      case Some(face) => backend.embed(face)
  }

  // ---------------------------------------------------------------------------
  // Channel order of enrollment images (face_utils.py:92-95)
  // ---------------------------------------------------------------------------

  /**
   * As written: `np.array(img.convert('RGB'))` turns each enrollment image
   * into an RGB array, which the extractor then uses unchanged. This is the
   * input the averaging below works on.
   */
  function EnrollmentInput(p: Picture): ImageInput
  {
    NdArray(p)
  }

  /**
   * Corrected: the image takes the PIL branch of the extractor, which flips
   * it to BGR exactly as it does for an uploaded file.
   */
  function CorrectedEnrollmentInput(p: Picture): ImageInput
  {
    PilImage(p)
  }

  /**
   * As written, an enrollment picture with any pixel whose red and blue
   * values differ reaches the detector in a different channel order than
   * the same picture uploaded for recognition.
   */
  lemma EnrollmentChannelMismatch(p: Picture, i: nat, j: nat)
    requires i < |p| && j < |p[i]| && p[i][j].c0 != p[i][j].c2
    ensures ToFrame(EnrollmentInput(p)) != ToFrame(FileLike(Some(p)))
  {
    var recognised: Frame := ToFrame(FileLike(Some(p))).value;
    assert recognised[i][j].c0 == p[i][j].c2;
  }

  /**
   * Corrected, enrollment and recognition hand the detector the same frame
   * for the same picture, and so obtain the same embedding.
   */
  lemma EnrollmentMatchesRecognition(p: Picture, backend: Backend)
    ensures ToFrame(CorrectedEnrollmentInput(p)) == ToFrame(FileLike(Some(p)))
    ensures GetEmbeddingFromImage(CorrectedEnrollmentInput(p), backend)
            == GetEmbeddingFromImage(FileLike(Some(p)), backend)
  {
  }

  // ---------------------------------------------------------------------------
  // Averaging (face_utils.py:84-106)
  // ---------------------------------------------------------------------------

  /** The extractor applied to one enrollment image, as the program hands it over. */
  function EnrollmentEmbedding(p: Picture, backend: Backend): Option<Embedding>
  {
    GetEmbeddingFromImage(EnrollmentInput(p), backend)
  }

  /** The embeddings of the images that yielded one, in image order. */
  function Successes(images: seq<Picture>, backend: Backend): seq<Embedding>
  {
    if images == [] then []
    else
      var rest := Successes(images[..|images| - 1], backend);
      match EnrollmentEmbedding(images[|images| - 1], backend)
      case Some(e) => rest + [e]
      case None => rest
  }

  /** The number of images skipped because they yielded no embedding. */
  function FailureCount(images: seq<Picture>, backend: Backend): nat
  {
    if images == [] then 0
    else
      FailureCount(images[..|images| - 1], backend)
      + (if EnrollmentEmbedding(images[|images| - 1], backend).None? then 1 else 0)
  }

  /** Every image is either averaged or skipped, never both. */
  lemma {:induction false} SuccessesPartition(images: seq<Picture>, backend: Backend)
    ensures |Successes(images, backend)| + FailureCount(images, backend) == |images|
  {
    if images != [] {
      SuccessesPartition(images[..|images| - 1], backend);
    }
  }

  /** Nothing is averaged exactly when every image fails. */
  lemma {:induction false} SuccessesEmpty(images: seq<Picture>, backend: Backend)
    ensures Successes(images, backend) == [] <==>
            forall k :: 0 <= k < |images| ==> EnrollmentEmbedding(images[k], backend).None?
  {
    if images != [] {
      var prefix := images[..|images| - 1];
      SuccessesEmpty(prefix, backend);
      assert forall k :: 0 <= k < |prefix| ==> prefix[k] == images[k];
    }
  }

  /** Each averaged embedding is the embedding of one of the images. */
  lemma {:induction false} SuccessesFromImages(images: seq<Picture>, backend: Backend, e: Embedding)
    requires e in Successes(images, backend)
    ensures exists k :: 0 <= k < |images| && EnrollmentEmbedding(images[k], backend) == Some(e)
  {
    var prefix := images[..|images| - 1];
    if e in Successes(prefix, backend) {
      SuccessesFromImages(prefix, backend, e);
      var k :| 0 <= k < |prefix| && EnrollmentEmbedding(prefix[k], backend) == Some(e);
      assert images[k] == prefix[k];
    } else {
      assert EnrollmentEmbedding(images[|images| - 1], backend) == Some(e);
    }
  }

  /**
   * `get_average_embedding_from_images`: skips the images that yield no
   * embedding, returns None when none did, and otherwise the mean of
   * exactly the successful ones (`mean` stands for `np.mean(..., axis=0)`).
   */
  method GetAverageEmbeddingFromImages(images: seq<Picture>, backend: Backend,
                                       mean: seq<Embedding> -> Embedding)
    returns (r: Option<Embedding>)
    ensures r.None? <==> forall k :: 0 <= k < |images| ==> EnrollmentEmbedding(images[k], backend).None?
    ensures r.Some? ==> r.value == mean(Successes(images, backend))
  {
    var embeddings: seq<Embedding> := [];
    for i := 0 to |images|
      invariant embeddings == Successes(images[..i], backend)
    {
      assert images[..i + 1][..i] == images[..i];
      var embedding := EnrollmentEmbedding(images[i], backend);
      if embedding.Some? {
        embeddings := embeddings + [embedding.value];
      }
    }
    assert images[..|images|] == images;
    SuccessesEmpty(images, backend);
    if embeddings == [] {
      return None;
    }
    return Some(mean(embeddings));
  }
}
