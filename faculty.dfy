/**
 * Faculty management of routes/faculty.py: registration with three photos,
 * the create-or-update API and deletion. Password hashing, the clock, the
 * embedding network and the float arithmetic are parameters.
 */
module Faculty {
  import opened Common
  import opened FaceUtils
  import opened DbHandler
  import opened FaceRecognition
  import opened Attendance

  /** The float parts of enrollment: `np.mean(axis=0)`, `l2_normalize` and float32 rounding. */
  datatype Numerics = Numerics(mean: seq<Embedding> -> Embedding, normalize: Embedding -> Embedding,
                               f32: real -> Word)

  // ---------------------------------------------------------------------------
  // register
  // ---------------------------------------------------------------------------

  /** The form fields of the registration page. */
  datatype RegisterForm = RegisterForm(name: Option<string>, email: Option<string>, phone: Option<string>,
                                       department: Option<string>, facultyId: Option<string>,
                                       password: Option<string>)

  datatype RegisterOutcome =
    | MissingFields
    | WrongImageCount(count: nat)
    | AlreadyExists
    | NoValidImages
    | NoFaceDetected
    | Registered(facultyId: string)

  /** `all([name, email, phone, department, password, faculty_id])` */
  predicate AllFilled(form: RegisterForm)
  {
    Truthy(form.name) && Truthy(form.email) && Truthy(form.phone) && Truthy(form.department)
    && Truthy(form.password) && Truthy(form.facultyId)
  }

  /** The uploads with a non-empty filename, in upload order. */
  function ImageFiles(files: seq<Upload>): (r: seq<Upload>)
    ensures forall f :: f in r <==> f in files && f.filename != ""
    ensures |r| <= |files|
  {
    if files == [] then []
    else (if files[0].filename != "" then [files[0]] else []) + ImageFiles(files[1..])
  }

  /** The pictures of the files that open as images, in order. */
  function Opened(files: seq<Upload>): seq<Picture>
  {
    if files == [] then []
    else
      var last := files[|files| - 1];
      Opened(files[..|files| - 1]) + (if last.decoded.Some? then [last.decoded.value] else [])
  }

  /** No picture is left exactly when no file opens. */
  lemma {:induction false} OpenedEmpty(files: seq<Upload>)
    ensures Opened(files) == [] <==> forall k :: 0 <= k < |files| ==> files[k].decoded.None?
  {
    if files != [] {
      var init := files[..|files| - 1];
      OpenedEmpty(init);
      assert forall k :: 0 <= k < |init| ==> init[k] == files[k];
    }
  }

  /** Each opened picture comes from one of the files. */
  lemma {:induction false} OpenedFromFiles(files: seq<Upload>, p: Picture)
    requires p in Opened(files)
    ensures exists k :: 0 <= k < |files| && files[k].decoded == Some(p)
  {
    var init := files[..|files| - 1];
    if p in Opened(init) {
      OpenedFromFiles(init, p);
      var k :| 0 <= k < |init| && init[k].decoded == Some(p);
      assert files[k] == init[k];
    }
  }

  /** The `image_objs` loop: files that fail to open are skipped. */
  method OpenImages(files: seq<Upload>) returns (pictures: seq<Picture>)
    ensures pictures == Opened(files)
  {
    pictures := [];
    for i := 0 to |files|
      invariant pictures == Opened(files[..i])
    {
      assert files[..i + 1][..i] == files[..i];
      if files[i].decoded.Some? {
        pictures := pictures + [files[i].decoded.value];
      }
    }
    assert files[..|files|] == files;
  }

  /** Some existing member has the same email or the same id. */
  predicate Clashes(rows: seq<FacultyRow>, email: string, id: string)
  {
    exists k :: 0 <= k < |rows| && (rows[k].email == email || rows[k].facultyId == id)
  }

  /** The answer `register` gives against the given faculty table. */
  function RegisterOutcomeOf(faculty: seq<FacultyRow>, form: RegisterForm, files: seq<Upload>,
                             backend: Backend): RegisterOutcome
  {
    if !AllFilled(form) then MissingFields
    else if |ImageFiles(files)| != 3 then WrongImageCount(|ImageFiles(files)|)
    else if Clashes(faculty, form.email.value, form.facultyId.value) then AlreadyExists
    else if Opened(ImageFiles(files)) == [] then NoValidImages
    else if Successes(Opened(ImageFiles(files)), backend) == [] then NoFaceDetected
    else Registered(form.facultyId.value)
  }

  /** The row a successful registration stores. */
  function RegisteredRow(form: RegisterForm, files: seq<Upload>, backend: Backend, num: Numerics,
                         passwordHash: string, now: string): FacultyRow
    requires AllFilled(form)
  {
    var e := num.normalize(num.mean(Successes(Opened(ImageFiles(files)), backend)));
    FacultyRow(form.facultyId.value, form.name.value, form.department.value, form.email.value,
               form.phone.value, passwordHash, Float32Bytes(e, num.f32), now)
  }

  /** No two members share an email. */
  ghost predicate UniqueEmails(rows: seq<FacultyRow>)
  {
    forall i, j :: 0 <= i < j < |rows| ==> rows[i].email != rows[j].email
  }

  /**
   * `register`: the validation chain, then the mean of the embeddings of the
   * opened photos, normalised and stored as float32 bytes.
   */
  method Register(store: Store, form: RegisterForm, files: seq<Upload>, backend: Backend, num: Numerics,
                  passwordHash: string, now: string)
    returns (o: RegisterOutcome)
    requires store.Valid()
    modifies store
    ensures store.Valid()
    ensures o == RegisterOutcomeOf(old(store.faculty), form, files, backend)
    ensures store.attendance == old(store.attendance) && store.alerts == old(store.alerts)
    ensures store.admins == old(store.admins) && store.chatQueries == old(store.chatQueries)
    ensures store.nextAttendanceId == old(store.nextAttendanceId)
    ensures !o.Registered? ==> store.faculty == old(store.faculty)
    ensures o.Registered? ==>
              store.faculty == old(store.faculty) + [RegisteredRow(form, files, backend, num, passwordHash, now)]
    ensures UniqueEmails(old(store.faculty)) ==> UniqueEmails(store.faculty)
  {
    if !AllFilled(form) {
      return MissingFields;
    }
    var images := ImageFiles(files);
    if |images| != 3 {
      return WrongImageCount(|images|);
    }
    if Clashes(store.faculty, form.email.value, form.facultyId.value) {
      return AlreadyExists;
    }
    var pictures := OpenImages(images);
    if pictures == [] {
      return NoValidImages;
    }
    var mean := GetAverageEmbeddingFromImages(pictures, backend, num.mean);
    SuccessesEmpty(pictures, backend);
    if mean.None? {
      return NoFaceDetected;
    }
    var row := RegisteredRow(form, files, backend, num, passwordHash, now);
    assert !HasFaculty(store.faculty, row.facultyId) by {
      forall k | 0 <= k < |store.faculty| ensures store.faculty[k].facultyId != row.facultyId {
        assert !(store.faculty[k].email == form.email.value || store.faculty[k].facultyId == form.facultyId.value);
      }
    }
    ghost var before := store.faculty;
    var r := store.CreateFaculty(row);
    assert r.Ok?;
    assert forall k :: 0 <= k < |before| ==> before[k].email != row.email;
    return Registered(row.facultyId);
  }

  /**
   * A registration succeeds only for a complete form, exactly three named
   * photos, a new email and id, and at least one photo with a face; the
   * stored blob holds one float32 per number of the normalised mean.
   */
  lemma RegisteredMeansValidated(faculty: seq<FacultyRow>, form: RegisterForm, files: seq<Upload>,
                                 backend: Backend, num: Numerics, passwordHash: string, now: string)
    requires RegisterOutcomeOf(faculty, form, files, backend).Registered?
    ensures AllFilled(form) && |ImageFiles(files)| == 3
    ensures forall k :: 0 <= k < |faculty| ==> faculty[k].email != form.email.value && faculty[k].facultyId != form.facultyId.value
    ensures exists k :: 0 <= k < |ImageFiles(files)| && ImageFiles(files)[k].decoded.Some?
    ensures var images := Opened(ImageFiles(files));
            exists k :: 0 <= k < |images| && EnrollmentEmbedding(images[k], backend).Some?
    ensures |RegisteredRow(form, files, backend, num, passwordHash, now).faceEmbedding|
            == 4 * |num.normalize(num.mean(Successes(Opened(ImageFiles(files)), backend)))|
  {
    OpenedEmpty(ImageFiles(files));
    SuccessesEmpty(Opened(ImageFiles(files)), backend);
  }

  // ---------------------------------------------------------------------------
  // api_save_faculty
  // ---------------------------------------------------------------------------

  /** The form of the create-or-update API; absent fields read as ''. */
  datatype SaveForm = SaveForm(facultyId: Option<string>, name: Option<string>, email: Option<string>,
                               phone: Option<string>, department: Option<string>, password: Option<string>)

  /** The stripped name, email, phone and department. */
  datatype Contact = Contact(name: string, email: string, phone: string, department: string)

  /** `request.form.get(name, '').strip()` */
  function Field(v: Option<string>): string
  {
    Strip(FormOr(v, ""))
  }

  datatype SaveOutcome =
    | FieldsRequired
    | ImageUnreadable
    | FaceNotDetected
    | SecretsRequired
    | Updated(success: bool)
    | Created(success: bool)

  /** HTTP status of `api_save_faculty`. */
  function SaveStatus(o: SaveOutcome): nat
  {
    if o.Updated? || o.Created? then 200 else 400
  }

  /**
   * The embedding bytes computed from the optional photo: none without a
   * photo, an error when the file does not open or shows no face.
   */
  datatype EmbeddingStep = NoImage | Unreadable | NoFace | Bytes(blob: seq<byte>)

  function SaveEmbedding(image: Option<Upload>, backend: Backend, num: Numerics): EmbeddingStep
  {
    if NoFile(image) then NoImage
    else if image.value.decoded.None? then Unreadable
    else match GetEmbeddingFromImage(SaveImageInput(image.value.decoded.value), backend)
      case None => NoFace
      case Some(e) => Bytes(Float32Bytes(num.normalize(e), num.f32))
  }

  /** The new embedding bytes, b'' when there are none. */
  function BlobOf(step: EmbeddingStep): seq<byte>
  {
    if step.Bytes? then step.blob else []
  }

  /**
   * `updated_fields`: name, email, phone and department always, the password
   * hash only for a non-empty password and the embedding only for non-empty bytes.
   */
  function SaveUpdates(fields: Contact, password: string, blob: seq<byte>, passwordHash: string): (u: seq<Update>)
    ensures DistinctKeys(u)
  {
    [SetName(fields.name), SetEmail(fields.email), SetPhone(fields.phone), SetDepartment(fields.department)]
    + (if password != "" then [SetPasswordHash(passwordHash)] else [])
    + (if blob != [] then [SetFaceEmbedding(blob)] else [])
  }

  /** The stripped form: the id, the contact fields and the password. */
  datatype SaveRequest = SaveRequest(id: string, contact: Contact, password: string)

  function Stripped(form: SaveForm): SaveRequest
  {
    SaveRequest(Field(form.facultyId),
                Contact(Field(form.name), Field(form.email), Field(form.phone), Field(form.department)),
                Field(form.password))
  }

  /** The row the API creates for a new id. */
  function CreatedRow(req: SaveRequest, blob: seq<byte>, passwordHash: string, now: string): FacultyRow
  {
    FacultyRow(req.id, req.contact.name, req.contact.department, req.contact.email, req.contact.phone,
               passwordHash, blob, now)
  }

  /** `all([faculty_id, name, email, phone, department])` after stripping. */
  predicate RequiredFilled(req: SaveRequest)
  {
    req.id != "" && req.contact.name != "" && req.contact.email != "" && req.contact.phone != ""
    && req.contact.department != ""
  }

  /** The answer `api_save_faculty` gives against the given faculty table. */
  function SaveOutcomeOf(faculty: seq<FacultyRow>, req: SaveRequest, step: EmbeddingStep): SaveOutcome
  {
    if !RequiredFilled(req) then FieldsRequired
    else if step.Unreadable? then ImageUnreadable
    else if step.NoFace? then FaceNotDetected
    else if HasFaculty(faculty, req.id) then Updated(true)
    else if req.password == "" || BlobOf(step) == [] then SecretsRequired
    else Created(true)
  }

  /** `updated_fields`, built entry by entry. */
  method BuildUpdatedFields(c: Contact, password: string, blob: seq<byte>, passwordHash: string)
    returns (updates: seq<Update>)
    ensures updates == SaveUpdates(c, password, blob, passwordHash)
  {
    updates := [SetName(c.name), SetEmail(c.email), SetPhone(c.phone), SetDepartment(c.department)];
    if password != "" {
      updates := updates + [SetPasswordHash(passwordHash)];
    }
    if blob != [] {
      updates := updates + [SetFaceEmbedding(blob)];
    }
  }

  /** `api_save_faculty`: validate, compute the optional embedding, then update or create. */
  method ApiSaveFaculty(store: Store, form: SaveForm, image: Option<Upload>, backend: Backend, num: Numerics,
                        passwordHash: string, now: string)
    returns (o: SaveOutcome)
    requires store.Valid()
    modifies store
    ensures store.Valid()
    ensures var req, step := Stripped(form), SaveEmbedding(image, backend, num);
            && o == SaveOutcomeOf(old(store.faculty), req, step)
            && (o.Updated? ==> store.faculty == UpdateRows(old(store.faculty), req.id,
                                 SaveUpdates(req.contact, req.password, BlobOf(step), passwordHash)))
            && (o.Created? ==> store.faculty == old(store.faculty) + [CreatedRow(req, BlobOf(step), passwordHash, now)])
            && (!o.Updated? && !o.Created? ==> store.faculty == old(store.faculty))
    ensures store.attendance == old(store.attendance) && store.alerts == old(store.alerts)
    ensures store.admins == old(store.admins) && store.chatQueries == old(store.chatQueries)
    ensures store.nextAttendanceId == old(store.nextAttendanceId)
  {
    var req := Stripped(form);
    if !RequiredFilled(req) {
      return FieldsRequired;
    }
    var step := SaveEmbedding(image, backend, num);
    if step.Unreadable? {
      return ImageUnreadable;
    }
    if step.NoFace? {
      return FaceNotDetected;
    }
    var blob := BlobOf(step);
    var existing := store.GetFacultyById(req.id);
    if existing.Some? {
      var updates := BuildUpdatedFields(req.contact, req.password, blob, passwordHash);
      var r := store.UpdateFaculty(req.id, updates);
      return Updated(r.value);
    }
    if req.password == "" || blob == [] {
      return SecretsRequired;
    }
    var r := store.CreateFaculty(CreatedRow(req, blob, passwordHash, now));
    return Created(r.value);
  }

  /**
   * On update the four contact fields take the stripped values, the password
   * hash and the embedding change only when supplied, and the registration
   * time is kept.
   */
  lemma UpdateTouchesOnlySupplied(row: FacultyRow, c: Contact, password: string, blob: seq<byte>, passwordHash: string)
    ensures var r := ApplyUpdates(row, SaveUpdates(c, password, blob, passwordHash));
            && r.facultyId == row.facultyId
            && r.name == c.name && r.email == c.email && r.phone == c.phone && r.department == c.department
            && r.passwordHash == (if password != "" then passwordHash else row.passwordHash)
            && r.faceEmbedding == (if blob != [] then blob else row.faceEmbedding)
            && r.registeredOn == row.registeredOn
  {
    var u := SaveUpdates(c, password, blob, passwordHash);
    var r := ApplyUpdates(row, u);
    ApplyUpdatesSets(row, u, 0);
    ApplyUpdatesSets(row, u, 1);
    ApplyUpdatesSets(row, u, 2);
    ApplyUpdatesSets(row, u, 3);
    ApplyUpdatesKeeps(row, u, RegisteredOnCol);
    if password != "" {
      ApplyUpdatesSets(row, u, 4);
    } else {
      ApplyUpdatesKeeps(row, u, PasswordHashCol);
    }
    if blob != [] {
      ApplyUpdatesSets(row, u, |u| - 1);
    } else {
      ApplyUpdatesKeeps(row, u, FaceEmbeddingCol);
    }
  }

  /**
   * A new member is created only with a non-empty password and a photo
   * whose face yields embedding bytes; the stored values are stripped.
   */
  lemma CreateNeedsSecrets(faculty: seq<FacultyRow>, req: SaveRequest, step: EmbeddingStep)
    requires SaveOutcomeOf(faculty, req, step).Created?
    ensures !HasFaculty(faculty, req.id) && req.id != ""
    ensures req.password != ""
    ensures step.Bytes? && step.blob != []
  {
  }

  /** Embedding bytes come only from a named file that opens and shows a face. */
  lemma BytesNeedPhoto(image: Option<Upload>, backend: Backend, num: Numerics)
    requires SaveEmbedding(image, backend, num).Bytes?
    ensures !NoFile(image) && image.value.decoded.Some?
    ensures GetEmbeddingFromImage(SaveImageInput(image.value.decoded.value), backend).Some?
  {
  }

  // ---------------------------------------------------------------------------
  // Channel order of the API photo (routes/faculty.py:137-138)
  // ---------------------------------------------------------------------------

  /**
   * As written: `np.array(Image.open(f).convert('RGB'))` reaches the extractor
   * as an RGB array. This is the input SaveEmbedding works on.
   */
  function SaveImageInput(p: Picture): ImageInput
  {
    NdArray(p)
  }

  /** Corrected: the photo takes the extractor's PIL branch and is flipped to BGR like a recognition upload. */
  function CorrectedSaveImageInput(p: Picture): ImageInput
  {
    PilImage(p)
  }

  /**
   * As written, a photo with a pixel whose red and blue differ reaches the
   * detector in another channel order than the same photo at recognition.
   */
  lemma SaveImageChannelMismatch(p: Picture, i: nat, j: nat)
    requires i < |p| && j < |p[i]| && p[i][j].c0 != p[i][j].c2
    ensures ToFrame(SaveImageInput(p)) != ToFrame(FileLike(Some(p)))
  {
    var recognised: Frame := ToFrame(FileLike(Some(p))).value;
    assert recognised[i][j].c0 == p[i][j].c2;
  }

  /** Corrected, the stored embedding is the one recognition computes for the same photo. */
  lemma SaveImageMatchesRecognition(p: Picture, backend: Backend)
    ensures GetEmbeddingFromImage(CorrectedSaveImageInput(p), backend) == GetEmbeddingFromImage(FileLike(Some(p)), backend)
  {
  }

  // ---------------------------------------------------------------------------
  // api_delete_faculty and api_get_faculty_list
  // ---------------------------------------------------------------------------

  /** `api_delete_faculty`: the attendance records of the member stay in the table. */
  method ApiDeleteFaculty(store: Store, id: string) returns (success: bool, message: string)
    requires store.Valid()
    modifies store
    ensures store.Valid()
    ensures success <==> HasFaculty(old(store.faculty), id)
    ensures message == if success then "Deleted." else "Deletion failed."
    ensures store.faculty == RemoveFaculty(old(store.faculty), id)
    ensures store.attendance == old(store.attendance) && store.alerts == old(store.alerts)
    ensures store.admins == old(store.admins) && store.chatQueries == old(store.chatQueries)
  {
    success := store.DeleteFaculty(id);
    message := if success then "Deleted." else "Deletion failed.";
  }

  /** Once a member is deleted, the log no longer lists any of their records, though the records remain. */
  lemma DeletedMemberLeavesLogs(attendance: seq<AttendanceRow>, faculty: seq<FacultyRow>, id: string,
                                date: Option<string>, facultyId: Option<string>, status: Option<string>)
    ensures forall e :: e in Logs(attendance, RemoveFaculty(faculty, id), date, facultyId, status) ==>
                          e.record.facultyId != id
  {
    LogsContents(attendance, RemoveFaculty(faculty, id), date, facultyId, status);
  }

  /** One entry of `api_get_faculty_list`: the sensitive columns are not exposed. */
  datatype Listing = Listing(facultyId: string, name: string, email: string, department: string)

  function FacultyList(rows: seq<FacultyRow>): (r: seq<Listing>)
    ensures |r| == |rows|
    ensures forall k :: 0 <= k < |rows| ==>
              r[k] == Listing(rows[k].facultyId, rows[k].name, rows[k].email, rows[k].department)
  {
    seq(|rows|, k requires 0 <= k < |rows| =>
      Listing(rows[k].facultyId, rows[k].name, rows[k].email, rows[k].department))
  }
}
