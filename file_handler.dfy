/**
 * Upload handling: the image-extension whitelist, the paths under which
 * faculty photos and captured frames are stored, the lookup of a member's
 * stored photo, and the per-day JSON file of attendance records that each
 * new record is appended to.
 */
module FileHandler {
  import opened Common

  /** `ALLOWED_EXTENSIONS` */
  const AllowedExtensions: set<string> := {"png", "jpg", "jpeg", "gif", "bmp"}

  /** `MAX_FILE_SIZE`: 16 MiB. */
  const MaxFileSize: nat := 16 * 1024 * 1024

  // ---------------------------------------------------------------------------
  // Extensions
  // ---------------------------------------------------------------------------

  /** The index of the last '.' of s, if any: where `rsplit('.', 1)` splits. */
  function LastDot(s: string): (r: Option<nat>)
    ensures r.None? <==> '.' !in s
    ensures r.Some? ==> r.value < |s| && s[r.value] == '.' && '.' !in s[r.value + 1..]
  {
    if s == [] then None
    else if s[|s| - 1] == '.' then Some(|s| - 1)
    else
      var r := LastDot(s[..|s| - 1]);
      assert r.Some? ==> s[r.value + 1..] == s[..|s| - 1][r.value + 1..] + [s[|s| - 1]];
      assert r.None? ==> s == s[..|s| - 1] + [s[|s| - 1]];
      r
  }

  /** `get_file_extension`: the lowercased text after the last '.', or "" without a dot. */
  function GetFileExtension(filename: string): (r: string)
    ensures '.' !in filename ==> r == ""
    ensures '.' in filename ==> |r| < |filename| && filename[|filename| - |r| - 1] == '.'
                                && r == ToLower(filename[|filename| - |r|..])
    ensures '.' !in r
  {
    match LastDot(filename)
    case None => ""
    case Some(i) =>
      var r := ToLower(filename[i + 1..]);
      assert forall k :: 0 <= k < |r| ==> r[k] == LowerChar(filename[i + 1..][k]);
      r
  }

  /** `allowed_file`: the name has a dot and its extension is whitelisted. */
  function AllowedFile(filename: string): (b: bool)
    ensures b <==> GetFileExtension(filename) in AllowedExtensions
    ensures b ==> '.' in filename
  {
    '.' in filename && GetFileExtension(filename) in AllowedExtensions
  }

  /** A dot followed by dot-free text is the last dot. */
  lemma {:induction false} LastDotBeforeSuffix(head: string, ext: string)
    requires |head| > 0 && head[|head| - 1] == '.'
    requires '.' !in ext
    ensures LastDot(head + ext) == Some(|head| - 1)
  {
    var s := head + ext;
    if ext == [] {
      assert s == head;
    } else {
      assert s[|s| - 1] == ext[|ext| - 1];
      assert s[..|s| - 1] == head + ext[..|ext| - 1];
      LastDotBeforeSuffix(head, ext[..|ext| - 1]);
    }
  }

  /** Whatever comes before the last dot, the extension is the lowercased text after it. */
  lemma ExtensionAfterLastDot(head: string, ext: string)
    requires |head| > 0 && head[|head| - 1] == '.'
    requires '.' !in ext
    ensures GetFileExtension(head + ext) == ToLower(ext)
  {
    LastDotBeforeSuffix(head, ext);
    assert (head + ext)[|head|..] == ext;
  }

  /** The whitelisted extensions are already lowercase, so lowering keeps them. */
  lemma AllowedExtensionsAreLower(ext: string)
    requires ext in AllowedExtensions
    ensures ToLower(ext) == ext
    ensures '.' !in ext
  {
    assert ext == "png" || ext == "jpg" || ext == "jpeg" || ext == "gif" || ext == "bmp";
    assert forall i :: 0 <= i < |ext| ==> 'a' <= ext[i] <= 'z';
    LowercaseKept(ext);
  }

  /** Text without capitals or dots is its own lowercase. */
  lemma LowercaseKept(s: string)
    requires forall i :: 0 <= i < |s| ==> 'a' <= s[i] <= 'z'
    ensures ToLower(s) == s && '.' !in s
  {
    assert forall i :: 0 <= i < |s| ==> ToLower(s)[i] == s[i];
  }

  // ---------------------------------------------------------------------------
  // Stored images
  // ---------------------------------------------------------------------------

  /** An uploaded file as werkzeug hands it over: its client-side name. */
  datatype Upload = Upload(filename: string)

  /** The name a member's photo is stored under, `face.<ext>`. */
  function FaceImageName(ext: string): string
  {
    "face." + ext
  }

  /** The directory of a member's photo, `uploads/faculty/<id>`. */
  function FacultyDir(facultyId: string): string
  {
    "uploads/faculty/" + facultyId
  }

  /**
   * `save_faculty_image`: nothing is stored for a missing upload, an empty
   * filename or a name outside the whitelist, nor when the write fails
   * (`written` is false); otherwise the photo goes to
   * `uploads/faculty/<id>/face.<ext>` and the S3-like path
   * `faculty/<id>/face.<ext>` is returned.
   */
  function SaveFacultyImage(facultyId: string, file: Option<Upload>, written: bool): (r: Option<string>)
    ensures r.Some? <==> file.Some? && file.value.filename != "" && AllowedFile(file.value.filename) && written
    ensures r.Some? ==> var ext := GetFileExtension(file.value.filename);
                        && ext in AllowedExtensions
                        && r.value == "faculty/" + facultyId + "/" + "face." + ext
  {
    if file.None? || file.value.filename == "" then None
    else if !AllowedFile(file.value.filename) then None
    else if !written then None
    else Some("faculty/" + facultyId + "/" + "face." + GetFileExtension(file.value.filename))
  }

  /** `get_faculty_image_path`'s filter: a whitelisted file named `face.*`. */
  predicate IsFaceImage(filename: string)
  {
    StartsWith(filename, "face.") && AllowedFile(filename)
  }

  /** The index of the first element of s that satisfies p. */
  function FirstWhere(s: seq<string>, p: string -> bool): (r: Option<nat>)
    ensures r.None? <==> forall i :: 0 <= i < |s| ==> !p(s[i])
    ensures r.Some? ==> r.value < |s| && p(s[r.value]) && forall j :: 0 <= j < r.value ==> !p(s[j])
  {
    if s == [] then None
    else if p(s[0]) then Some(0)
    else
      var rest := s[1..];
      assert forall j :: 0 <= j < |rest| ==> rest[j] == s[j + 1];
      match FirstWhere(rest, p)
      case None => None
      case Some(i) => Some(i + 1)
  }

  /** The first face image of a directory listing, in listing order. */
  function FirstFaceImage(listing: seq<string>): (r: Option<nat>)
    ensures r.None? <==> forall i :: 0 <= i < |listing| ==> !IsFaceImage(listing[i])
    ensures r.Some? ==> r.value < |listing| && IsFaceImage(listing[r.value])
                        && forall j :: 0 <= j < r.value ==> !IsFaceImage(listing[j])
  {
    FirstWhere(listing, IsFaceImage)
  }

  /**
   * `get_faculty_image_path`: `listing` is the directory as `os.listdir`
   * returns it, None when the directory does not exist. The first face
   * image found is returned with its directory.
   */
  method GetFacultyImagePath(facultyId: string, listing: Option<seq<string>>) returns (r: Option<string>)
    ensures listing.None? ==> r.None?
    ensures listing.Some? ==>
              match FirstFaceImage(listing.value)
              case None => r.None?
              case Some(i) => r == Some(FacultyDir(facultyId) + "/" + listing.value[i])
  {
    if listing.None? {
      return None;
    }
    var k := FindFirst(listing.value, IsFaceImage);
    if k.None? {
      return None;
    }
    return Some(FacultyDir(facultyId) + "/" + listing.value[k.value]);
  }

  /** The scan of `get_faculty_image_path`: the listing in order, stopping at the first match. */
  method FindFirst(names: seq<string>, p: string -> bool) returns (r: Option<nat>)
    ensures r == FirstWhere(names, p)
  {
    for i := 0 to |names|
      invariant forall j :: 0 <= j < i ==> !p(names[j])
    {
      if p(names[i]) {
        return Some(i);
      }
    }
    return None;
  }

  /** A photo stored by `save_faculty_image` is one the lookup recognises. */
  lemma SavedImageIsFound(ext: string)
    requires ext in AllowedExtensions
    ensures IsFaceImage(FaceImageName(ext))
    ensures GetFileExtension(FaceImageName(ext)) == ext
  {
    AllowedExtensionsAreLower(ext);
    ExtensionAfterLastDot("face.", ext);
    assert FaceImageName(ext)[..5] == "face.";
  }

  /** A face image stored under any directory keeps a lowercase, dot-free extension. */
  lemma FacePathExtension(dir: string, ext: string)
    requires '.' !in ext && ToLower(ext) == ext
    ensures GetFileExtension(dir + "face." + ext) == ext
  {
    var head := dir + "face.";
    assert head[|head| - 1] == '.';
    ExtensionAfterLastDot(head, ext);
  }

  /** The returned S3-like path carries the same whitelisted extension. */
  lemma StoredPathKeepsExtension(facultyId: string, file: Option<Upload>, written: bool)
    requires SaveFacultyImage(facultyId, file, written).Some?
    ensures var path := SaveFacultyImage(facultyId, file, written).value;
            && AllowedFile(path)
            && GetFileExtension(path) == GetFileExtension(file.value.filename)
  {
    var ext := GetFileExtension(file.value.filename);
    AllowedExtensionsAreLower(ext);
    FacePathExtension("faculty/" + facultyId + "/", ext);
  }

  /**
   * `save_captured_image`: frames go to `uploads/videos/<id>` when a
   * (non-empty) member ID is given and to `uploads/videos/captured`
   * otherwise, named `capture_<timestamp>.<ext>`; the extension is not
   * checked against the whitelist. `timestamp` is `%Y-%m-%d_%H-%M-%S` of
   * the current time.
   */
  function SaveCapturedImage(file: Option<Upload>, facultyId: Option<string>, timestamp: string,
                             written: bool): (r: Option<string>)
    ensures r.Some? <==> file.Some? && file.value.filename != "" && written
    ensures r.Some? ==>
              var dir := if Truthy(facultyId) then facultyId.value else "captured";
              StartsWith(r.value, "uploads/videos/" + dir + "/capture_" + timestamp + ".")
  {
    if file.None? || file.value.filename == "" then None
    else if !written then None
    else
      var dir := if Truthy(facultyId) then facultyId.value else "captured";
      var head := "uploads/videos/" + dir + "/capture_" + timestamp + ".";
      var path := head + GetFileExtension(file.value.filename);
      assert path[..|head|] == head;
      Some(path)
  }

  /** A captured frame keeps its upload's extension, even a non-image one. */
  lemma CapturedImageKeepsExtension(file: Upload, facultyId: Option<string>, timestamp: string)
    requires file.filename != ""
    ensures var path := SaveCapturedImage(Some(file), facultyId, timestamp, true).value;
            GetFileExtension(path) == GetFileExtension(file.filename)
  {
    var dir := if Truthy(facultyId) then facultyId.value else "captured";
    var ext := GetFileExtension(file.filename);
    ExtensionIsLower(file.filename);
    var head := "uploads/videos/" + dir + "/capture_" + timestamp + ".";
    assert head[|head| - 1] == '.';
    assert SaveCapturedImage(Some(file), facultyId, timestamp, true).value == head + ext;
    ExtensionAfterLastDot(head, ext);
  }

  /** An extension is already lowercase. */
  lemma ExtensionIsLower(filename: string)
    ensures ToLower(GetFileExtension(filename)) == GetFileExtension(filename)
  {
    match LastDot(filename)
    case None =>
    case Some(i) =>
      var t := ToLower(filename[i + 1..]);
      assert ToLower(t) == t;
  }

  // ---------------------------------------------------------------------------
  // Attendance record files
  // ---------------------------------------------------------------------------

  /** One record as the caller passes it: a JSON object of text fields. */
  type RecordData = map<string, string>

  /** What `json.load` finds in an existing file. */
  datatype StoredJson =
    | JsonList(records: seq<RecordData>)  // a JSON array, as this module writes
    | JsonOther                           // valid JSON that is not an array
    | Unparseable                         // not JSON at all

  /** `uploads/attendance-records/<date>.json` */
  function RecordsPath(date: string): string
  {
    "uploads/attendance-records/" + date + ".json"
  }

  /** The records a day's file lists; a missing or unparseable file lists none. */
  function RecordsOf(files: map<string, StoredJson>, date: string): seq<RecordData>
  {
    var path := RecordsPath(date);
    if path in files && files[path].JsonList? then files[path].records else []
  }

  /** The `uploads/attendance-records` directory of per-day JSON files. */
  class RecordFiles {
    var files: map<string, StoredJson>

    constructor (initial: map<string, StoredJson>)
      ensures files == initial
    {
      files := initial;
    }

    /**
     * `save_attendance_record`: the existing list is loaded (a missing or
     * unparseable file counts as empty), the new record is appended and the
     * list written back. A file holding JSON that is not a list has no
     * `append`: the call fails and nothing is written.
     */
    method SaveAttendanceRecord(date: string, record: RecordData) returns (ok: bool)
      modifies this
      ensures var path := RecordsPath(date);
              ok <==> !(path in old(files) && old(files)[path].JsonOther?)
      ensures ok ==> files == old(files)[RecordsPath(date) := JsonList(RecordsOf(old(files), date) + [record])]
      ensures !ok ==> files == old(files)
    {
      var path := RecordsPath(date);
      var existing: seq<RecordData> := [];
      if path in files {
        match files[path]
        case JsonList(records) =>
          existing := records;
        case JsonOther =>
          return false;
        case Unparseable =>
          existing := [];
      }
      existing := existing + [record];
      files := files[path := JsonList(existing)];
      return true;
    }
  }

  /**
   * Saving appends: the day's list gains the record at its end, earlier
   * records stay in place, and other days' files are untouched.
   */
  lemma SaveAppends(before: map<string, StoredJson>, date: string, record: RecordData, other: string)
    requires !(RecordsPath(date) in before && before[RecordsPath(date)].JsonOther?)
    requires RecordsPath(other) != RecordsPath(date)
    ensures var after := before[RecordsPath(date) := JsonList(RecordsOf(before, date) + [record])];
            && RecordsOf(after, date) == RecordsOf(before, date) + [record]
            && RecordsOf(after, other) == RecordsOf(before, other)
            && |RecordsOf(after, date)| == |RecordsOf(before, date)| + 1
  {
  }

  /** Distinct days are kept in distinct files. */
  lemma {:induction false} RecordsPathInjective(a: string, b: string)
    requires RecordsPath(a) == RecordsPath(b)
    ensures a == b
  {
    var pre := "uploads/attendance-records/";
    assert RecordsPath(a)[|pre|..|pre| + |a|] == a;
    assert |a| == |b|;
    assert RecordsPath(b)[|pre|..|pre| + |b|] == b;
  }
}
