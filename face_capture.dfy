/**
 * The browser-side capture form: upload validation and the form's state —
 * whether a recognition is running, the current image, the recognised
 * members and the members ticked for manual attendance.
 */
module FaceCapture {
  import opened Common

  /** `config.maxImageSize`: 16 MiB. */
  const MaxImageSize: nat := 16 * 1024 * 1024

  /** `config.allowedFormats` */
  const AllowedFormats: seq<string> := ["image/jpeg", "image/jpg", "image/png", "image/gif", "image/bmp"]

  const FormatError := "Invalid " + "file format. Please upload a valid image file (JPEG, PNG, GIF, BMP)."
  /** The size message with the limit as `formatFileSize` renders 16 MiB. */
  const SizeError := "File " + "size exceeds maximum limit of 16 MB."
  const NotImageError := "Selected " + "file is not a valid image."

  /** A browser `File`: its name, MIME type and size in bytes. */
  datatype ImageFile = ImageFile(name: string, mimeType: string, size: nat)

  datatype Validation = Validation(valid: bool, errors: seq<string>)

  /** The position of each message in the order the checks run. */
  function ErrorRank(message: string): nat
  {
    if message == FormatError then 0 else if message == SizeError then 1 else 2
  }

  /**
   * The messages of the checks `file` fails, and only those, each once, in
   * the order the checks run.
   */
  ghost predicate ListsFailures(file: ImageFile, errors: seq<string>)
  {
    && (FormatError in errors <==> file.mimeType !in AllowedFormats)
    && (SizeError in errors <==> file.size > MaxImageSize)
    && (NotImageError in errors <==> !StartsWith(file.mimeType, "image/"))
    && (forall m :: m in errors ==> m in {FormatError, SizeError, NotImageError})
    && (forall i, j :: 0 <= i < j < |errors| ==> ErrorRank(errors[i]) < ErrorRank(errors[j]))
  }

  /**
   * `validateImage`: the type, size and image-type checks each add their
   * message, in that order; the file is valid exactly when none fails.
   */
  method ValidateImage(file: ImageFile) returns (v: Validation)
    ensures v.valid <==> v.errors == []
    ensures ListsFailures(file, v.errors)
  {
    assert FormatError[0] == 'I' && SizeError[0] == 'F' && NotImageError[0] == 'S';
    var errors: seq<string> := [];
    if file.mimeType !in AllowedFormats {
      errors := errors + [FormatError];
    }
    if file.size > MaxImageSize {
      errors := errors + [SizeError];
    }
    if !StartsWith(file.mimeType, "image/") {
      errors := errors + [NotImageError];
    }
    return Validation(|errors| == 0, errors);
  }

  /** Every allowed format is an image type. */
  lemma AllowedFormatsAreImages(mimeType: string)
    requires mimeType in AllowedFormats
    ensures StartsWith(mimeType, "image/")
  {
  }

  /**
   * The image-type check never fails alone: a type outside `image/` is
   * outside the allowed list too, so its message comes with the format one.
   */
  lemma NotImageImpliesBadFormat(file: ImageFile, v: Validation)
    requires NotImageError in v.errors <==> !StartsWith(file.mimeType, "image/")
    requires FormatError in v.errors <==> file.mimeType !in AllowedFormats
    requires NotImageError in v.errors
    ensures FormatError in v.errors
  {
    if file.mimeType in AllowedFormats {
      AllowedFormatsAreImages(file.mimeType);
    }
  }

  // ---------------------------------------------------------------------------
  // The selected-member list
  // ---------------------------------------------------------------------------

  predicate Distinct(s: seq<string>)
  {
    forall i, j :: 0 <= i < j < |s| ==> s[i] != s[j]
  }

  /** Ticking a box: the ID is appended unless it is already listed. */
  function Select(selected: seq<string>, id: string): (r: seq<string>)
    ensures id in r
    ensures forall x :: x in r <==> x in selected || x == id
    ensures Distinct(selected) ==> Distinct(r)
    ensures |r| <= |selected| + 1
  {
    if id in selected then selected else selected + [id]
  }

  /** Unticking a box: every occurrence of the ID is filtered out, order kept. */
  function Deselect(selected: seq<string>, id: string): (r: seq<string>)
    ensures id !in r
    ensures forall x :: x in r <==> x in selected && x != id
    ensures Distinct(selected) ==> Distinct(r)
    ensures |r| <= |selected|
  {
    if selected == [] then []
    else if selected[0] == id then Deselect(selected[1..], id)
    else
      var rest := Deselect(selected[1..], id);
      assert Distinct(selected) ==> selected[0] !in selected[1..];
      assert Distinct(selected) ==> selected[0] !in rest;
      [selected[0]] + rest
  }

  /** Unticking undoes ticking an ID that was not listed before. */
  lemma {:induction false} DeselectUndoesSelect(selected: seq<string>, id: string)
    requires id !in selected
    ensures Deselect(Select(selected, id), id) == selected
  {
    DeselectAbsent(selected, id);
    if selected == [] {
    } else {
      assert selected + [id] == [selected[0]] + (selected[1..] + [id]);
      DeselectUndoesSelect(selected[1..], id);
    }
  }

  /** Unticking an ID that is not listed changes nothing. */
  lemma {:induction false} DeselectAbsent(selected: seq<string>, id: string)
    requires id !in selected
    ensures Deselect(selected, id) == selected
  {
    if selected != [] {
      DeselectAbsent(selected[1..], id);
      assert [selected[0]] + selected[1..] == selected;
    }
  }

  /** Ticking the boxes of several IDs, one after the other. */
  function SelectAll(selected: seq<string>, ids: seq<string>): (r: seq<string>)
    ensures Distinct(selected) ==> Distinct(r)
    ensures forall x :: x in r <==> x in selected || x in ids
    ensures |selected| <= |r| && r[..|selected|] == selected
    decreases |ids|
  {
    if ids == [] then selected
    else
      var step := Select(selected, ids[0]);
      var r := SelectAll(step, ids[1..]);
      assert forall x :: x in ids <==> x == ids[0] || x in ids[1..];
      assert step[..|selected|] == selected;
      assert r[..|selected|] == r[..|step|][..|selected|];
      r
  }

  /** Ticking the rest of the IDs is ticking the next one, then the ones after it. */
  lemma SelectAllStep(selected: seq<string>, ids: seq<string>, k: nat)
    requires k < |ids|
    ensures SelectAll(selected, ids[k..]) == SelectAll(Select(selected, ids[k]), ids[k + 1..])
  {
    assert ids[k..][1..] == ids[k + 1..];
  }

  /** A recognised member: the confidence and bounding box are not modelled. */
  datatype Recognized = Recognized(id: string, name: string, department: string)

  /** The IDs of the recognised members whose checkbox is on the page. */
  function CheckboxIds(results: seq<Recognized>, hasCheckbox: string -> bool): (r: seq<string>)
    ensures forall x :: x in r <==> exists k :: 0 <= k < |results| && results[k].id == x && hasCheckbox(x)
  {
    if results == [] then []
    else
      var rest := CheckboxIds(results[1..], hasCheckbox);
      assert forall k :: 0 < k < |results| ==> results[k] == results[1..][k - 1];
      assert forall x :: (exists k :: 0 <= k < |results| - 1 && results[1..][k].id == x && hasCheckbox(x))
                         ==> exists k :: 0 <= k < |results| && results[k].id == x && hasCheckbox(x);
      if hasCheckbox(results[0].id) then [results[0].id] + rest else rest
  }

  // ---------------------------------------------------------------------------
  // The form state
  // ---------------------------------------------------------------------------

  /** `FaceCaptureModule.state` */
  class CaptureForm {
    var isProcessing: bool
    var capturedImage: Option<ImageFile>
    var recognitionResults: seq<Recognized>
    var selectedFaculty: seq<string>

    /** The selected list never holds an ID twice. */
    predicate Valid()
      reads this
    {
      Distinct(selectedFaculty)
    }

    constructor ()
      ensures Valid()
      ensures !isProcessing && capturedImage.None? && recognitionResults == [] && selectedFaculty == []
    {
      isProcessing := false;
      capturedImage := None;
      recognitionResults := [];
      selectedFaculty := [];
    }

    /** `clearImagePreview`: the image and the results are dropped. */
    method ClearImagePreview()
      modifies this
      ensures capturedImage.None? && recognitionResults == []
      ensures isProcessing == old(isProcessing) && selectedFaculty == old(selectedFaculty)
    {
      capturedImage := None;
      recognitionResults := [];
    }

    /**
     * `handleImageUpload`: no file clears the preview; an invalid file is
     * refused with its messages and the state is left as it was; a valid
     * one becomes the captured image.
     */
    method HandleImageUpload(file: Option<ImageFile>) returns (errors: seq<string>)
      modifies this
      ensures isProcessing == old(isProcessing) && selectedFaculty == old(selectedFaculty)
      ensures file.None? ==> errors == [] && capturedImage.None? && recognitionResults == []
      ensures file.Some? && errors != [] ==>
                capturedImage == old(capturedImage) && recognitionResults == old(recognitionResults)
      ensures file.Some? && errors == [] ==>
                capturedImage == file && recognitionResults == old(recognitionResults)
      ensures file.Some? ==> (errors == [] <==> (file.value.mimeType in AllowedFormats && file.value.size <= MaxImageSize))
      ensures file.Some? ==> ListsFailures(file.value, errors)
    {
      if file.None? {
        ClearImagePreview();
        return [];
      }
      var v := ValidateImage(file.value);
      if !v.valid {
        assert v.errors[0] in v.errors;
        if file.value.mimeType in AllowedFormats {
          AllowedFormatsAreImages(file.value.mimeType);
        }
        return v.errors;
      }
      capturedImage := file;
      return [];
    }

    /**
     * `simulateRecognition`: without an image, or while a recognition is
     * running, nothing happens; otherwise a recognition starts.
     */
    method SimulateRecognition()
      modifies this
      ensures capturedImage == old(capturedImage) && recognitionResults == old(recognitionResults)
      ensures selectedFaculty == old(selectedFaculty)
      ensures isProcessing == (old(isProcessing) || old(capturedImage).Some?)
    {
      if capturedImage.None? || isProcessing {
        return;
      }
      isProcessing := true;
    }

    /** `handleManualSelection` for the box of `facultyId`. */
    method HandleManualSelection(facultyId: string, checked: bool)
      requires Valid()
      modifies this
      ensures Valid()
      ensures selectedFaculty == if checked then Select(old(selectedFaculty), facultyId)
                                 else Deselect(old(selectedFaculty), facultyId)
      ensures isProcessing == old(isProcessing) && capturedImage == old(capturedImage)
      ensures recognitionResults == old(recognitionResults)
    {
      if checked {
        if facultyId !in selectedFaculty {
          selectedFaculty := selectedFaculty + [facultyId];
        }
      } else {
        selectedFaculty := Deselect(selectedFaculty, facultyId);
      }
    }

    /**
     * `processRecognition`: the results are stored and the run ends; every
     * recognised member whose checkbox is on the page is then ticked, which
     * fires the manual-selection handler for it.
     */
    method ProcessRecognition(results: seq<Recognized>, hasCheckbox: string -> bool)
      requires Valid()
      modifies this
      ensures Valid()
      ensures recognitionResults == results && !isProcessing
      ensures capturedImage == old(capturedImage)
      ensures selectedFaculty == SelectAll(old(selectedFaculty), CheckboxIds(results, hasCheckbox))
    {
      recognitionResults := results;
      isProcessing := false;
      var ids := CheckboxIds(results, hasCheckbox);
      for k := 0 to |ids|
        invariant Valid()
        invariant recognitionResults == results && !isProcessing
        invariant capturedImage == old(capturedImage)
        invariant SelectAll(old(selectedFaculty), ids) == SelectAll(selectedFaculty, ids[k..])
      {
        SelectAllStep(selectedFaculty, ids, k);
        HandleManualSelection(ids[k], true);
      }
    }

    /** `clearSelection`: no member is selected and no result is kept. */
    method ClearSelection()
      requires Valid()
      modifies this
      ensures Valid()
      ensures selectedFaculty == [] && recognitionResults == []
      ensures isProcessing == old(isProcessing) && capturedImage == old(capturedImage)
    {
      selectedFaculty := [];
      recognitionResults := [];
    }
  }
}
