# Faculty attendance with face recognition — a Dafny model

This project models the core of a Flask web application that marks faculty
attendance from photographs. The model covers:

- **Face pipeline.** Face detection picks the largest box and crops the
  frame. Each face gets an embedding, a vector of reals whose length the
  embedder decides. An enrollment embedding is the mean over the member's
  photos, each handed to the embedder in the channel order the program uses.
- **Recognition.** A photo is compared with every enrolled member's stored
  embedding, using the 0.6 similarity threshold.
- **SQLite layer.** Faculty, attendance, admins, absentee alerts and
  chatbot queries are modelled as one mutable `Store` object.
- **Routes built on those pieces:**
  - registration and editing of faculty members;
  - attendance capture and manual marking, at most once per member per day;
  - attendance logs and today's summary;
  - absentee lists, SMS alerts and alert history;
  - CSV/PDF reports;
  - dashboard statistics;
  - a rule-based chatbot.
- **Storage helpers.** The file helpers store photos and per-day JSON
  attendance files.
- **Browser scripts.** Two scripts are modelled: the face-capture form and
  the shared page helpers (date formatting, file validation, toast icons,
  table search).

Each module follows one file of the program:

| module | file |
|---|---|
| `Common` | Python/JS string helpers the others share |
| `FaceUtils` | `face_utils.py` |
| `FaceRecognition` | `utils/face_recognition.py` |
| `DbHandler` | `utils/db_handler.py` |
| `FileHandler` | `utils/file_handler.py` |
| `Attendance` | `routes/attendance.py` |
| `Faculty` | `routes/faculty.py` |
| `Alerts` | `routes/alerts.py` |
| `Reports` | `routes/reports.py` |
| `Dashboard` | `routes/dashboard.py` |
| `Chatbot` | `routes/chatbot.py` |
| `FaceCapture` | `static/css/js/face-capture.js` |
| `MainUi` | `static/css/js/main.js` |

How things are represented:

- **Database.** The database is the class `DbHandler.Store`. Its tables are
  `seq` fields that the handler methods reassign. Each method states the
  whole new state and the ghost invariant `Valid()` that it keeps. The
  invariants are unique faculty ids, attendance ids below the next id, and
  unique alert ids.
- **Route handlers** are methods over the store. Each one is proved equal to
  a decision function of the old state and the request. The properties the
  application relies on are then lemmas about those functions, for example:
  - a member is marked at most once per day;
  - a recognised face is an enrolled member;
  - absent + present = total.
- **Browser form.** The face-capture form's state object is the class
  `FaceCapture.CaptureForm`.
- **Foreign code** becomes parameters:
  - the neural networks (a `Backend` of `detect` and `embed` functions);
  - the similarity of two embeddings;
  - clocks, uuids and password hashes;
  - the SMS gateway outcome;
  - directory listings and file-write success.

## Model

| member | source | states |
|---|---|---|
| FaceUtils.LargestBoxIndex | face_utils.py:28 | the index chosen has the greatest area w*h of all detected boxes, and is the earliest such box, as a stable descending sort leaves it first |
| FaceUtils.SortedHeadIsLargest | face_utils.py:28 | the head of the stable sort by area, descending, is the box `LargestBoxIndex` picks |
| FaceUtils.PySlice | face_utils.py:29 | a Python slice clamps both bounds to the length, so its length is min(hi,n) - min(lo,n) |
| FaceUtils.Crop | face_utils.py:29 | the crop has the clamped number of rows and columns, and pixel (i,j) of the crop is pixel (y+i, x+j) of the frame |
| FaceUtils.GetFaceFromFrame | face_utils.py:15-29 | there is no face exactly when detection returns no box; otherwise the face is the crop of the largest box |
| FaceUtils.ReverseChannelsInvolution | face_utils.py:56-66 | swapping RGB/BGR twice gives back the frame |
| FaceUtils.ToFrame | face_utils.py:56-66 | a missing file or an unsupported input gives no frame; a file and a PIL image are swapped to BGR, an ndarray is taken as is |
| FaceUtils.GetEmbeddingFromImage | face_utils.py:50-81 | an unsupported input or a photo without a face gives None; otherwise the result is the embedding of the largest face |
| FaceUtils.EnrollmentChannelMismatch | face_utils.py:93-94 | as written, enrollment passes an RGB ndarray, which reaches the model in different channel order than the same photo uploaded for recognition |
| FaceUtils.EnrollmentMatchesRecognition | face_utils.py:93-94 | passing the PIL image itself gives enrollment the same frame as recognition |
| FaceUtils.SuccessesPartition | face_utils.py:92-100 | every image either yields an embedding or is counted as a failure |
| FaceUtils.SuccessesEmpty | face_utils.py:102-104 | no embeddings are collected exactly when every image fails |
| FaceUtils.SuccessesFromImages | face_utils.py:92-100 | each collected embedding comes from one of the images |
| FaceUtils.GetAverageEmbeddingFromImages | face_utils.py:84-106 | each image reaches the extractor as the RGB array `np.array(img.convert('RGB'))` makes of it; the result is None exactly when every image fails; otherwise it is the element-wise mean of the embeddings of the images that succeed, in order |
| FaceRecognition.RecognizeFaces | utils/face_recognition.py:23-69 | the loop returns exactly the ids the recognition function defines: none without a file or a face, none if a stored blob cannot be read as float32, otherwise the enrolled rows of equal shape whose similarity reaches the threshold |
| FaceRecognition.MatchIdsMembership | utils/face_recognition.py:45-62 | an id is matched iff some row with that id has an embedding of the query's shape whose similarity is at least 0.6 |
| FaceRecognition.RecognizedAreEnrolled | utils/face_recognition.py:45-62 | every recognised id belongs to a faculty row |
| FaceRecognition.MatchIdsAppend | utils/face_recognition.py:45-62 | matching a table split in two matches each part, in order |
| FaceRecognition.MatchIdsBounded | utils/face_recognition.py:45-62 | no more ids than rows are returned |
| FaceRecognition.TwoClearingRows | utils/face_recognition.py:60-62 | two rows that both clear the threshold are both returned, in table order; recognition does not keep only the best match |
| FaceRecognition.NoneClear | utils/face_recognition.py:60-62 | when no row reaches the threshold the result is empty |
| FaceRecognition.Float32Bytes | utils/face_recognition.py:49 | a stored embedding takes four bytes per float32 value |
| FaceRecognition.EnrolledRowIsCompared | utils/face_recognition.py:46-53 | a row enrolled from a non-empty embedding of the query's length is decodable and is compared with the query |
| DbHandler.ApplyUpdateColumn | utils/db_handler.py:141-146 | one `key = ?` assignment changes that column and no other |
| DbHandler.ApplyUpdatesKeeps | utils/db_handler.py:141-146 | a column not named in the update keeps its value |
| DbHandler.ApplyUpdatesSets | utils/db_handler.py:141-146 | each named column takes the value supplied for it |
| DbHandler.ApplyUpdates | utils/db_handler.py:141-146 | the faculty id of an updated row is never changed |
| DbHandler.FindFaculty | utils/db_handler.py:107-115 | the lookup fails iff no row has the id; otherwise it returns a row with that id |
| DbHandler.RemoveFaculty | utils/db_handler.py:153-158 | exactly the rows with a different id remain |
| DbHandler.RemoveFacultyCount | utils/db_handler.py:153-158 | with unique ids, deleting removes one row if the id exists and none otherwise |
| DbHandler.NoMatchKeepsAll | utils/db_handler.py:153-158 | deleting an unknown id leaves the table unchanged |
| DbHandler.RemoveKeepsUnique | utils/db_handler.py:29-30 | deletion keeps faculty ids unique |
| DbHandler.OnDateAppend | utils/db_handler.py:229-234 | the records of a date in a table split in two are those of each part, in order |
| DbHandler.PresentIds | routes/alerts.py:192 | the set of present ids is exactly the ids of the day's records |
| DbHandler.BuildUpdateStatement | utils/db_handler.py:141-146 | one `key = ?` clause per supplied field in key order, and the parameters are the values followed by the faculty id |
| DbHandler.CollectClauses | utils/db_handler.py:141-146 | the loop yields one clause and one value per entry, in order |
| DbHandler.Store.Empty | utils/db_handler.py:14-97 | the store starts with empty tables |
| DbHandler.Store.InitializeDataFiles | utils/db_handler.py:85-95 | the default admin is inserted only when no user is named 'admin'; if ADMIN001 is already taken the insert raises and nothing changes |
| DbHandler.Store.GetFacultyById | utils/db_handler.py:107-115 | the row with the id, or None iff there is none |
| DbHandler.Store.CreateFaculty | utils/db_handler.py:117-136 | the insert raises iff the id already exists (primary key); otherwise the row is appended and nothing else changes |
| DbHandler.Store.UpdateFaculty | utils/db_handler.py:138-151 | an empty update raises (empty SET clause); otherwise the rows with the id are updated and the result says whether one existed |
| DbHandler.Store.DeleteFaculty | utils/db_handler.py:153-158 | reports true iff the id existed, removes exactly that row and keeps the other tables |
| DbHandler.Store.CreateAttendance | utils/db_handler.py:201-220 | always appends one record with the next autoincrement id and the given fields; nothing else changes |
| DbHandler.Store.GetAttendanceByDate | utils/db_handler.py:229-234 | exactly the records of that date |
| DbHandler.Store.GetAttendanceStats | utils/db_handler.py:236-254 | total is the table size, present is the number of the day's records, absent is the difference |
| DbHandler.Store.InsertAbsenteeAlert | utils/db_handler.py:296-311 | fails iff the alert id is taken; otherwise appends the alert |
| DbHandler.Store.CreateAbsenteeAlert | utils/db_handler.py:275-294 | succeeds iff all six keys are supplied and the id is new; a missing key or a taken id is caught and gives False with nothing written |
| DbHandler.Store.GetAbsenteeAlerts | utils/db_handler.py:313-334 | the alerts of known members, joined with name and department, without faculty_id, newest date first |
| DbHandler.Store.CreateChatbotQuery | utils/db_handler.py:257-265 | appends one query row and changes nothing else |
| Attendance.MatchClaim | routes/attendance.py:39-43 | a claimed id is accepted iff the photo recognised it; without a claim only a single recognised face is accepted |
| Attendance.AppendKeepsOncePerDay | routes/attendance.py:48-49 | appending a record for a member not yet marked that day keeps at most one record per member per day |
| Attendance.Capture | routes/attendance.py:17-80 | the route's outcome is the capture decision; it inserts a record exactly when the outcome is Marked, touches only the attendance table, and keeps once-per-day |
| Attendance.Mark | routes/attendance.py:83-139 | the same for manual marking: insert only when Marked, only the attendance table, once-per-day kept |
| Attendance.CaptureMarksRecognized | routes/attendance.py:39-73 | a Marked outcome names a recognised, known member who had no record that day |
| Attendance.CaptureRefusesAmbiguousPhoto | routes/attendance.py:45-46 | without a claim, a photo that matches several members is refused |
| Attendance.CaptureNeverUnknownFaculty | routes/attendance.py:36-37 | the unknown-faculty reply of `capture` cannot happen, because recognised ids are always enrolled |
| Attendance.MarkNeverUnknownFaculty | routes/attendance.py:103-109 | the same holds for manual marking |
| Attendance.MarkMarksClaimed | routes/attendance.py:95-134 | a Marked outcome of manual marking names the claimed member, who was recognised and not yet marked that day |
| Attendance.Filtered | routes/attendance.py:151-158 | a record is kept iff it matches every filter that was given |
| Attendance.Enrich | routes/attendance.py:160-170 | a record is listed iff its member exists, with that member's name and department |
| Attendance.LogsContents | routes/attendance.py:144-181 | the log is sorted newest first by date and time and holds exactly the filtered records of known members, enriched |
| Attendance.TodaySummary | routes/attendance.py:186-199 | its figures are the database statistics for the day, and absent = total - present |
| Faculty.ImageFiles | routes/faculty.py:34 | the uploads with a non-empty filename are kept |
| Faculty.OpenedEmpty | routes/faculty.py:55-60 | no photo opens exactly when no upload decodes |
| Faculty.OpenedFromFiles | routes/faculty.py:55-60 | each opened photo comes from an upload |
| Faculty.OpenImages | routes/faculty.py:55-60 | the loop collects the photos that open, in order |
| Faculty.Register | routes/faculty.py:22-103 | the outcome is the registration decision; a member is added only when every field is filled, three photos are given, no id or email clashes and an embedding exists; the stored embedding is the normalised mean over the photos handed over as RGB arrays, as the program does; unique emails are kept |
| Faculty.RegisteredMeansValidated | routes/faculty.py:37-52 | a successful registration had every field filled, three photos, and no clash |
| Faculty.SaveUpdates | routes/faculty.py:150-159 | the update names each column at most once |
| Faculty.BuildUpdatedFields | routes/faculty.py:150-159 | the loop produces the update list for the supplied fields, password and photo |
| Faculty.ApiSaveFaculty | routes/faculty.py:122-183 | an existing id is updated with the supplied fields only; a new id is created only with a password and a photo, whose embedding is taken from `np.array(image)` as the program does; any other request changes nothing |
| Faculty.UpdateTouchesOnlySupplied | routes/faculty.py:148-163 | an edit leaves every column that was not supplied unchanged and sets the supplied ones |
| Faculty.CreateNeedsSecrets | routes/faculty.py:165-168 | creation happens only for a new, non-empty id |
| Faculty.BytesNeedPhoto | routes/faculty.py:134-144 | a stored embedding requires an uploaded photo that decodes |
| Faculty.SaveImageChannelMismatch | routes/faculty.py:137-138 | as written, the photo is turned into an RGB array and reaches the model in different channel order than at recognition |
| Faculty.SaveImageMatchesRecognition | routes/faculty.py:137-138 | passing the image itself gives the same embedding as recognition of the same photo |
| Faculty.ApiDeleteFaculty | routes/faculty.py:187-189 | success iff the member existed; only that faculty row is removed |
| Faculty.DeletedMemberLeavesLogs | routes/faculty.py:187-189 | after deletion, the member's old records no longer appear in the attendance log |
| Faculty.FacultyList | routes/faculty.py:106-118 | one entry per row, with id, name, email and department only |
| Alerts.AbsentFaculty | routes/alerts.py:193 | a member is listed iff their id is not among the present ids |
| Alerts.AbsentFacultyAppend | routes/alerts.py:193 | absence of a split table is the absence of each part |
| Alerts.PresentFaculty | routes/alerts.py:193 | the complement: the members whose id is present |
| Alerts.AbsentPresentPartition | routes/alerts.py:189-193 | absent and present members together are the whole table |
| Alerts.PresentFacultyCount | routes/alerts.py:189-193 | with unique ids, the present members are as many as the present ids that belong to the table |
| Alerts.PresentIdsCard | routes/alerts.py:192 | records with distinct ids give as many present ids as records |
| Alerts.OnDateDistinct | routes/attendance.py:48-49 | when each member is marked at most once per day, the day's records have distinct ids |
| Alerts.AbsentCountMatchesStats | routes/alerts.py:189-193 | with once-per-day records of enrolled members, the absent list has exactly the size the statistics report |
| Alerts.DuplicateRecordsSkewStats | utils/db_handler.py:236-254 | two records of one member on one day make the reported absent count -1 for a one-member table |
| Alerts.SendSmsAlert | routes/alerts.py:34-75 | missing fields give 400 and store nothing; otherwise the status is 200 iff the gateway delivered (with a sid), and one alert with the SMS text and delivery status is appended unless its id is taken |
| Alerts.SmsBodyNamesMemberAndDate | routes/alerts.py:44 | the SMS text addresses the member and names the date |
| Alerts.SentFailedPartition | routes/alerts.py:89-108 | each absent member is counted as sent or failed, never both |
| Alerts.BatchAlertDataIncomplete | routes/alerts.py:96-101 | the alert the batch passes lacks the 'message' key, so `create_absentee_alert` raises KeyError |
| Alerts.SendAbsenteeAlerts | routes/alerts.py:80-120 | with no absentees it reports so; otherwise it reports the sent and failed counts, and the alerts table never grows; the reply is always a 500 error, because the redirect to `alerts.send` cannot be built |
| Alerts.BatchRedirectIsServerError | routes/alerts.py:27-120 | as written, the batch's redirect names an endpoint the alerts blueprint lacks, so the reply is a 500 error |
| Alerts.CorrectedBatchRedirect | routes/alerts.py:27-31 | with the redirect aimed at `alert_home`, the batch ends on /alerts/ |
| Alerts.Enriched | routes/alerts.py:170-180 | an entry is listed iff it is a stored alert of a known member, with that member's name, department and email |
| Alerts.History | routes/alerts.py:165-183 | the loop raises KeyError at a row without faculty_id; otherwise it gives the enriched alerts sorted by date, newest first |
| Alerts.HistoryContents | routes/alerts.py:170-182 | when every row has a faculty_id, the history is sorted newest first and lists exactly the enriched alerts of known members |
| Alerts.HistoryOfStoredAlertsRaises | routes/alerts.py:172 | on the rows the database returns, the history raises iff at least one alert of a known member is stored |
| Reports.DateWindowAppend | routes/reports.py:77-91 | the window of a split table is the window of each part |
| Reports.DateWindowUnbounded | routes/reports.py:77-91 | without bounds every record is kept |
| Reports.DateWindowNone | routes/reports.py:77-91 | no record outside the bounds is kept |
| Reports.DateWindowReversedIsEmpty | routes/reports.py:77-91 | a start date after the end date gives an empty report |
| Reports.DateWindowBothWithinFrom | routes/reports.py:77-91 | adding an end bound only drops records |
| Reports.KeepRecord | routes/reports.py:94-113 | a record is reported iff its member exists and matches the faculty and department filters |
| Reports.EnrichedMembership | routes/reports.py:94-113 | an entry is reported iff it comes from a kept record, with the member's name and department |
| Reports.EnrichedAppend | routes/reports.py:94-113 | enrichment of a split list is the enrichment of each part |
| Reports.ReportDataContents | routes/reports.py:68-115 | the report holds exactly the records in the date window that pass the filters and belong to known members |
| Reports.GetFilteredAttendanceData | routes/reports.py:68-115 | the route's data is the report function of the tables and filters |
| Reports.EnrichRecords | routes/reports.py:94-113 | the loop builds the enriched list |
| Reports.CsvRow | routes/reports.py:123-140 | each CSV row has as many cells as the header |
| Reports.CsvRows | routes/reports.py:117-153 | the CSV is the header followed by one row per record |
| Reports.TruncateBounds | routes/reports.py:203-204 | a truncated name is at most three characters longer than the limit, and short names are kept |
| Reports.PdfRow | routes/reports.py:198-208 | each PDF row has as many cells as the header |
| Reports.PdfRows | routes/reports.py:198-208 | the PDF table is the header followed by one row per record |
| Reports.DateRangeLabelMatchesWindow | routes/reports.py:183-190 | the period label names the bounds that were given, and reads 'All Records' iff none was |
| Reports.Generate | routes/reports.py:29-66 | missing choices ask for a selection; empty data gives no file; otherwise a CSV or PDF of exactly the report data, with the period label and total; the reply is the file, or a 500 error for every refusal, because the redirect to `reports.export` cannot be built |
| Reports.GenerateRefusalIsServerError | routes/reports.py:37-66 | as written, each refusal's redirect names an endpoint the reports blueprint lacks, so the reply is a 500 error |
| Reports.CorrectedGenerateReply | routes/reports.py:15-27 | with the redirect aimed at `reports_home`, no outcome is a 500: refusals return to the export form and reports are sent as files |
| Dashboard.Next | routes/dashboard.py:76-89 | the next calendar day is a valid later date |
| Dashboard.Prev | routes/dashboard.py:187-198 | the previous calendar day is a valid earlier date |
| Dashboard.NextPrev | routes/dashboard.py:187-198 | stepping back one day and forward one returns the same date |
| Dashboard.NextPrevN | routes/dashboard.py:187-198 | stepping back n+1 days and forward one is stepping back n days |
| Dashboard.BeforeTransitive | routes/dashboard.py:187-198 | date order is transitive |
| Dashboard.StepTowards | routes/dashboard.py:187-198 | each step of the trend loop moves one day forward without passing the end date |
| Dashboard.DaysEnding | routes/dashboard.py:176-178 | n consecutive days end at the given date |
| Dashboard.DaysEndingConsecutive | routes/dashboard.py:176-178 | the last of those days is the given date |
| Dashboard.IsoStartsWithMonth | routes/dashboard.py:42-43 | a day's ISO text begins with its month's 'YYYY-MM' prefix |
| Dashboard.Percentage | routes/dashboard.py:54 | an empty table gives 0 percent; otherwise the percentage lies between 0 and 100 |
| Dashboard.CountsByDateAppend | routes/dashboard.py:140-150 | incrementing the counter by one record counts the extended table |
| Dashboard.CountByDate | routes/dashboard.py:140-150 | the loop's map gives, for every date, the number of records on that date |
| Dashboard.CountsGet | routes/dashboard.py:140-150 | looking up a date in the counts is the number of its records, 0 when absent |
| Dashboard.InMonth | routes/dashboard.py:42-43 | a record is kept iff its date starts with the month prefix |
| Dashboard.InMonthKeepsDay | routes/dashboard.py:111-127 | restricting to the month does not change the count of a day in that month |
| Dashboard.WeeklyStats | routes/dashboard.py:65-91 | seven entries, the last seven days ending today, each with that day's present and absent counts |
| Dashboard.AttendanceTrends | routes/dashboard.py:170-200 | thirty entries, the last thirty days in order, each with the day's count and percentage |
| Dashboard.TrendEntry | routes/dashboard.py:187-198 | each trend entry is the day's count and percentage |
| Dashboard.MonthlyStats | routes/dashboard.py:95-129 | one entry per day of the month up to today, each with that day's count, absences and percentage |
| Dashboard.MonthEntry | routes/dashboard.py:111-127 | each monthly entry is the day's figures |
| Dashboard.BumpSum | routes/dashboard.py:153-164 | counting a member adds one to the total over departments |
| Dashboard.BumpCountOf | routes/dashboard.py:153-164 | counting a member changes only their department's figures |
| Dashboard.BumpDepartments | routes/dashboard.py:153-164 | counting a member adds their department to the listed ones |
| Dashboard.BumpWellFormed | routes/dashboard.py:153-164 | departments stay distinct and present never exceeds total |
| Dashboard.DeptCountsMeaning | routes/dashboard.py:153-164 | each department appears once, with total the number of its members and present the number of them present |
| Dashboard.DepartmentStats | routes/dashboard.py:133-166 | one entry per department, in first-seen order, with its member and present counts |
| Dashboard.CountDepartments | routes/dashboard.py:153-164 | the counting loop yields, department by department, the member and present counts |
| Dashboard.DepartmentStatsBounds | routes/dashboard.py:153-164 | each department's percentage lies between 0 and 100 |
| Dashboard.Recent | routes/dashboard.py:29-31 | at most ten records, each taken from the table |
| Dashboard.RecentAreNewest | routes/dashboard.py:29-31 | the recent list is sorted newest first and is the head of the whole table sorted that way |
| Dashboard.Annotate | routes/dashboard.py:34-39 | a recent record carries its member's name and department iff the member exists |
| Dashboard.AnnotateAll | routes/dashboard.py:34-39 | the enrichment loop annotates every recent record, in order |
| Dashboard.AdminDashboard | routes/dashboard.py:19-61 | the dashboard figures are the table size, today's count, their difference and percentage, the month's record count, and the annotated ten newest records |
| Chatbot.SearchDate | routes/chatbot.py:52-53 | a found position starts a 'dddd-dd-dd' pattern at or after the start |
| Chatbot.RequestedDate | routes/chatbot.py:52-53 | without a date in the question, today's date is used |
| Chatbot.RequestedDateIsLeftmost | routes/chatbot.py:52-53 | the requested date is the leftmost date pattern in the question |
| Chatbot.IntentPrecedence | routes/chatbot.py:55-128 | the absence rule fires only when the earlier attendance rule does not |
| Chatbot.ReportWordInReportRequests | routes/chatbot.py:125-128 | a report reply needs the word 'report' |
| Chatbot.FacultyNames | routes/chatbot.py:107-123 | one name per faculty row, in order |
| Chatbot.AbsentNamesAgreeWithAlerts | routes/chatbot.py:107-123 | every name the chatbot calls absent is the name of a member the alert list calls absent |
| Chatbot.DistinctNamesReportEveryAbsentee | routes/chatbot.py:107-123 | when no two members share a name, every member on the absentee list is named by the chatbot |
| Chatbot.SharedNameHidesAbsentee | routes/chatbot.py:107-123 | when an absent member shares a name with a present one, the chatbot omits them |
| Chatbot.ListReply | routes/chatbot.py:61-64 | the reply is never the apology |
| Chatbot.AttendanceReply | routes/chatbot.py:66-74 | the reply is never the apology |
| Chatbot.MonthlyReply | routes/chatbot.py:76-87 | the reply is never the apology |
| Chatbot.YearlyReply | routes/chatbot.py:90-104 | the reply is never the apology |
| Chatbot.AbsentReply | routes/chatbot.py:107-123 | the reply is never the apology |
| Chatbot.AbsentReplyListsAbsentees | routes/chatbot.py:107-123 | in any iteration order of the set, the reply names every name of `all_faculty - present` after its opening, and says all were present exactly when that set is empty |
| Chatbot.AnswerIsApologyOnlyWithoutIntent | routes/chatbot.py:50-128 | a rule's answer is the apology iff no rule applies |
| Chatbot.ApologyOnlyWithoutIntent | routes/chatbot.py:44-130 | the chatbot apologises exactly for questions that match no rule |
| Chatbot.Ask | routes/chatbot.py:23-42 | a blank question is refused and nothing is stored; otherwise the reply is the chatbot's answer to the stripped question, and exactly that query is logged |
| Chatbot.BlankQuestionRefused | routes/chatbot.py:26-29 | a question strips to nothing, and so is refused, exactly when it is made of whitespace |
| FileHandler.LastDot | utils/file_handler.py:11-18 | there is no last dot iff the name has no dot |
| FileHandler.GetFileExtension | utils/file_handler.py:16-18 | a name without a dot has no extension |
| FileHandler.AllowedFile | utils/file_handler.py:11-14 | a name is allowed iff its extension is one of the listed ones |
| FileHandler.LastDotBeforeSuffix | utils/file_handler.py:16-18 | the last dot of `head.ext` is the one before ext when ext has no dot |
| FileHandler.ExtensionAfterLastDot | utils/file_handler.py:16-18 | the extension is the lowercased text after the last dot |
| FileHandler.AllowedExtensionsAreLower | utils/file_handler.py:8 | every allowed extension is lowercase |
| FileHandler.ExtensionIsLower | utils/file_handler.py:16-18 | the extension is lowercase |
| FileHandler.SaveFacultyImage | utils/file_handler.py:20-47 | a path is returned iff a named, allowed file was given and written |
| FileHandler.FirstFaceImage | utils/file_handler.py:81-83 | no image is found iff no listed name is a face image |
| FileHandler.GetFacultyImagePath | utils/file_handler.py:73-85 | a missing directory gives None; otherwise the path of the first face image in the listing, or None when there is none |
| FileHandler.FindFirst | utils/file_handler.py:81-83 | the scan returns the first listed name that passes the filter, or None when none does |
| FileHandler.SavedImageIsFound | utils/file_handler.py:34-43 | a saved photo's name is recognised by the lookup as a face image |
| FileHandler.StoredPathKeepsExtension | utils/file_handler.py:34-43 | the saved path is itself an allowed file name with the upload's extension |
| FileHandler.SaveCapturedImage | utils/file_handler.py:120-148 | a path is returned iff a named file was given and written |
| FileHandler.CapturedImageKeepsExtension | utils/file_handler.py:127-138 | the captured path has the upload's extension |
| FileHandler.RecordFiles.constructor | utils/file_handler.py:87-118 | the store starts with the given files |
| FileHandler.RecordFiles.SaveAttendanceRecord | utils/file_handler.py:87-118 | on success the day's file becomes its old records followed by the new one, and no other file changes |
| FileHandler.SaveAppends | utils/file_handler.py:99-108 | after saving, the day's records are the old ones plus the new record |
| FileHandler.RecordsPathInjective | utils/file_handler.py:99-108 | different dates are saved in different files |
| FaceCapture.ValidateImage | static/css/js/face-capture.js:98-120 | valid iff no error; the format, size and non-image errors are each present iff their check fails, in that order |
| FaceCapture.AllowedFormatsAreImages | static/css/js/face-capture.js:12 | every allowed format is an image type |
| FaceCapture.NotImageImpliesBadFormat | static/css/js/face-capture.js:101-114 | a non-image type always also fails the format check |
| FaceCapture.DeselectUndoesSelect | static/css/js/face-capture.js:450-456 | unticking an id just ticked restores the selection |
| FaceCapture.DeselectAbsent | static/css/js/face-capture.js:455 | unticking an unselected id changes nothing |
| FaceCapture.SelectAll | static/css/js/face-capture.js:377-382 | auto-selection keeps the earlier selection in front, adds exactly the given ids, and keeps the selection free of duplicates |
| FaceCapture.SelectAllStep | static/css/js/face-capture.js:377-382 | auto-selection processes the ids one at a time |
| FaceCapture.CheckboxIds | static/css/js/face-capture.js:377-382 | exactly the recognised ids that have a checkbox are ticked |
| FaceCapture.CaptureForm.constructor | static/css/js/face-capture.js:19-24 | the form starts idle, with no photo, results or selection |
| FaceCapture.CaptureForm.ClearImagePreview | static/css/js/face-capture.js:159-171 | the photo and results are cleared, nothing else |
| FaceCapture.CaptureForm.HandleImageUpload | static/css/js/face-capture.js:69-95 | no file clears the preview; an invalid file is rejected with exactly the messages of the checks it fails, in check order; a valid one becomes the captured photo |
| FaceCapture.CaptureForm.SimulateRecognition | static/css/js/face-capture.js:194-206 | processing starts iff a photo is present |
| FaceCapture.CaptureForm.HandleManualSelection | static/css/js/face-capture.js:446-459 | ticking adds the id once; unticking removes every copy |
| FaceCapture.CaptureForm.ProcessRecognition | static/css/js/face-capture.js:262-292 | the results are stored, processing stops, and the recognised ids with checkboxes are selected |
| FaceCapture.CaptureForm.ClearSelection | static/css/js/face-capture.js:472-493 | selection and results are emptied |
| MainUi.Pad2OneDigit | static/css/js/main.js:59-64 | one-digit values are padded with a leading zero |
| MainUi.Pad2TwoDigits | static/css/js/main.js:59-64 | two-digit values are written as is |
| MainUi.Pad2RoundTrip | static/css/js/main.js:59-64 | a padded field is two characters and reads back as the value |
| MainUi.FormatDate | static/css/js/main.js:57-78 | a result is produced iff the format is one of the four known ones |
| MainUi.IsoDateFields | static/css/js/main.js:66-77 | 'YYYY-MM-DD' puts year, month and day between dashes |
| MainUi.DayFirstFields | static/css/js/main.js:66-77 | 'DD/MM/YYYY' puts day, month and year between slashes |
| MainUi.ClockFields | static/css/js/main.js:66-77 | 'HH:mm' puts hours and minutes around a colon |
| MainUi.DateTimeExtendsIso | static/css/js/main.js:66-77 | the date-time format begins with the ISO date |
| MainUi.ValidateFile | static/css/js/main.js:83-102 | with no file the only error is "No file selected"; with a file the call throws a TypeError |
| MainUi.GetToastIcon | static/css/js/main.js:235-244 | the icon is one of the three known ones, info for unknown types |
| MainUi.HandleSearch | static/css/js/main.js:444-457 | a row is shown iff its lowercased text contains the lowercased term |
| MainUi.EmptySearchShowsAll | static/css/js/main.js:449-456 | an empty term shows every row |
| MainUi.LongerTermHidesMore | static/css/js/main.js:449-456 | a row shown for a longer term is shown for any prefix of it |
| MainUi.SearchIgnoresCase | static/css/js/main.js:449-456 | searching for a term and for its lowercase show the same rows |
| Common.SortDescSorted | routes/dashboard.py:29-31 | the stable descending sort used for logs, history and the dashboard yields a sorted list |
| Common.LexLeqTotal | routes/dashboard.py:29-31 | string comparison orders any two strings |
| Common.Strip | routes/chatbot.py:26 | a stripped string starts and ends with no whitespace |
| Common.JoinContainsParts | routes/chatbot.py:121 | every part passed to `join` occurs in the joined text |
| Common.StripIsSlice | routes/chatbot.py:26 | the stripped text is the slice of the input left between its leading and trailing whitespace |

## Left out

- Neural networks (MTCNN, FaceNet), `preprocess_face` and `l2_normalize`, and cosine similarity are not modelled. They are function parameters, because they are floating-point numerical code.
- Float32 bytes (`tobytes`/`frombuffer`) are modelled only by length (four bytes per value). A blob is undecodable when its length is not a multiple of four.
- FaceUtils.GetAverageEmbeddingFromImages: the mean is over exact reals, because floating-point rounding is out of scope.
- Exceptions from foreign code are not modelled. These are the `except` branches of `get_embedding_from_image`, `recognize_faces` and the 500 replies the routes build from them. The 500 replies of `generate` and `send_absentee_alerts`, which come from their own redirects, are modelled. The one exception the model keeps is an undecodable blob, which makes `recognize_faces` return [].
- Dashboard.Percentage: `round(..., 1)` is not modelled; the percentage is the exact real ratio.
- Dates are modelled as proleptic Gregorian (year, month, day):
  - Python's `date` OverflowError is not modelled;
  - `%Y` is padded to four digits;
  - `%a` uses the C locale's day names.
- `lower()`/`toLowerCase()` and `\d` are ASCII only. Unicode case folding is out of scope.
- Chatbot.MonthlyReply and Chatbot.YearlyReply take the SQLite `GROUP BY` results as a parameter instead of running the SQL query.
- The order in which Python iterates the set of absent names is a parameter (`setOrder`). Chatbot.AbsentReplyListsAbsentees holds for every order that lists the set's members.
- Clocks, uuid values and password hashes are parameters. `ask` uses one `now` for both timestamps.
- Image bytes and file writes are not modelled; whether a write succeeds is a parameter. `os.listdir` order is a parameter. `os.path.join` is joining with "/".
- These members are not modelled separately: `delete_faculty_image`, `create_upload_directories`, `get_all_attendance`, `get_attendance_by_faculty`, `get_chatbot_queries` and `get_faculty_count`. Each is a read or a directory side effect with nothing to prove, so the store's fields are read directly instead.
- The chatbot interface page, `log_event`/system logs, `log_failed_alerts`, and the CSV/JSON variants of `api_get_absent_faculty` are not modelled. They are rendering and logging only.
- The internals of `simulate_send_alert` are not modelled; its outcome is a function parameter. The Twilio client is not modelled either; its outcome is the `Delivery` parameter.
- ReportLab layout and `send_file` are not modelled; the model keeps the PDF's table rows, period label and total.
- The scheduler, the webcam loop and the `.npy` backup are not modelled.
- The read-then-insert race between checking for an existing record and inserting a new one is not modelled, because the model has no concurrency.
- `formatFileSize` is not modelled, because it uses `Math.log`. The size message is fixed to its value for the configured limit, "16 MB".
- The mock recogniser of `generateMockRecognitionResults` (random) is not modelled; its results are a parameter. Confidence values and bounding boxes are not modelled.
- `setTimeout` delays and auto-recognition, DOM updates and toasts are not modelled.
- MainUi.FormatDate: the default branch (`toLocaleDateString`) depends on the locale and gives None.
- MainUi.GetToastIcon: keys that a JavaScript object inherits (such as "toString") are not modelled.

## Findings

| source | as written | input that shows it | evidently intended | confidence | as-written member | corrected member |
|---|---|---|---|---|---|---|
| face_utils.py:93-94 | enrollment converts each photo to an RGB ndarray, which `get_embedding_from_image` passes on unconverted, while an uploaded photo is converted to BGR | any photo with a pixel whose red and blue values differ | enrollment and recognition give the model the same BGR frame for the same photo | not executed | FaceUtils.EnrollmentChannelMismatch | FaceUtils.EnrollmentMatchesRecognition |
| routes/faculty.py:137-138 | editing a member converts the new photo to an RGB ndarray before embedding, unlike recognition | any photo with a pixel whose red and blue values differ | the stored embedding is the one recognition computes for the same photo | not executed | Faculty.SaveImageChannelMismatch | Faculty.SaveImageMatchesRecognition |
| routes/reports.py:39 | `generate` redirects its refusals to `reports.export`, which no blueprint registers: `url_for` raises BuildError, the `except` branch's own `url_for` raises again, and the request ends in a 500 error | a POST without report_type | a refusal flashes its message and returns to the export form that `reports_home` renders | not executed | Reports.GenerateRefusalIsServerError | Reports.CorrectedGenerateReply |
| routes/alerts.py:87 | `send_absentee_alerts` redirects to `alerts.send`, which no blueprint registers, so every request ends in a 500 error after the alerts were attempted | any POST | the batch returns to the alerts home page | not executed | Alerts.BatchRedirectIsServerError | Alerts.CorrectedBatchRedirect |

The operations (GetAverageEmbeddingFromImages, Register, ApiSaveFaculty,
Generate, SendAbsenteeAlerts) model the program as written; the corrected
members state the intended behaviour beside them.

Elsewhere, the model keeps these behaviours of the program as written and
proves them:

- duplicate records of one day make the absent count negative (Alerts.DuplicateRecordsSkewStats);
- the batch alert never reaches the database (Alerts.BatchAlertDataIncomplete);
- the alert history raises KeyError once an alert of a known member exists (Alerts.HistoryOfStoredAlertsRaises);
- the chatbot omits an absentee who shares a present member's name (Chatbot.SharedNameHidesAbsentee);
- `validateFile` throws a TypeError when a file is given (MainUi.ValidateFile).
